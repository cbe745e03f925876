# Models and proofs for the application framework manager

The project models the parts of the redpesk application framework manager
where its state is hardest to follow, and proves what they promise. System,
JSON, cryptographic and security-manager calls are parameters: functions
that answer, or sequences of answers.

- **Templates** (`Json`, `Names`, `NamesMeaning`, `NamesInPlace`, `Template`,
  `Engine`, `Simulation`, `TemplateMeaning`, `Mustach`): units are rendered by a flat scanner with a section
  stack that jumps back to repeat a section, driving a second stack of JSON
  scopes. It is proved to stop and to write exactly what the recursive renderer
  of nested templates writes. Tag names are rewritten in place.
- **Path tree and installer** (`Paths`, `PathTree`, `PathWalk`, `PathText`,
  `PathReach`, `PathOrder`, `FileTypes`, `PackageTypes`, `PackageMeaning`,
  `Brackets`, `Installer`, `InstallExamples`): a mutable tree of path entries
  refines a prefix-closed set of paths; the passes that type the files of a
  package solve recursive equations; every installed file whose path fits the
  buffer is tagged once, with its type, in the bracket of its nearest package.
- **Installer protocol** (`Plugin`, `Client`, `Wire`, `ProtocolMeaning`,
  `Server`, `Serving`, `Request`, `Transactions`, `Ledger`, `Daemon`,
  `DaemonTurns`): numbering, serialising, receiving, processing, the table of
  transactions, and every interleaving of the accept loop with its workers.
- **Authorisation** (`Auth`): the bounded stack machine for And/Or/Not.
- **Signing helpers** (`Digest`, `DigestFile`, `DigestTree`, `Certs`,
  `DomainSpec`).
- **Units and identifiers** (`Corpus`, `CorpusText`, `CorpusMeaning`,
  `CorpusSplit`, `Packing`, `Units`, `Afid`).
- `Common` and `CStrings` hold what several of them share.

Code that changes things step by step is modelled by classes and by methods with
loops, whose contracts tie them to functions; the lemmas are about those
functions. What a function means is said in other terms than its own, by
reference definitions and by what it gives for whole families of inputs. `dafny verify dfyconfig.toml` checks everything.

## What the code does not do

Where the code does not meet what one would expect, the model follows the code
and the exact condition is proved:

- The results of the traversals of a package are not looked at. After an
  installation that reports success a package is wholly tagged if and only if all
  the paths of its files fit the path buffer (`Brackets.WhollyTaggedIff`); a name
  of 5000 characters makes it miss some (`Brackets.LongPathMissed`, and
  `InstallExamples.InstallLong` for such a run). A long path also ends the pass that
  gives default types: the files after it keep no type unless one is declared
  (`FileTypes.Typing.DefaultsRightIff`).
- The texts of a package directly under the root that was added without leading
  slash lose the slash (`Installer.PackageTextExact`, `Installer.RelativePackage`),
  and tagging it changes the path of the package in the buffer, so that none of
  its plugs is told under its path (`Installer.InstallPackage`). Texts of files of
  no package lose the slash too (`Installer.DefaultText`).
- A client message is sent intact, whatever fresh memory holds, if and only if
  it fits the initial buffer of 4050 bytes: leaving that buffer does not copy it
  (`Client.IntactIff`, `Client.LongMessageLost`).
- A request is processed as soon as its reception met no error, whether its end
  was read or not (`Serving.Serve`), and of a message that comes in pieces not all
  is read: the length of a piece is computed without what is held of the ones
  before. In two pieces it is what was asked if and only if nothing is looked at
  again and the lines read are enough (`Serving.TwoPiecesIff`). Cut at the end of
  a line it is never misread, but its last files may be lost without error
  (`Serving.CutAfterLineIff`, `Serving.LostFile`); cut inside a line, three pieces
  may name a file that the message does not (`Serving.WrongFile`).
- An `END` with an unknown word before any `BEGIN` makes a request ready without
  a kind, and nothing else does (`Request.ReadyWithoutKind`, `Request.EndOfNothing`).
- Records left in the plugin by an earlier run of a transaction set make an index
  exceed the count, and only they do (`Plugin.LeftoverOverruns`,
  `Plugin.LeftoverExample`, `Plugin.Hooks.Pre`).
- The maker and the checker of a digest ignore that their walks are stopped by a
  path that is too long. A digest is accepted if and only if each file to sign
  that the walk comes to has a name and a hash (`DigestTree.HashedAgreement`), and
  then all the added files are attested if and only if the walk comes to all of
  them (`DigestTree.AllAttestedIff`). After an entry with a name of 4095 characters
  its later siblings are not signed (`DigestTree.LaterUnsigned`); with that entry
  alone the digest is empty and accepted (`DigestTree.SignNothing`). The maker does
  not report files it cannot hash, and one whose walk starts at a named entry
  writes that name twice (`DigestTree.NameRepeated`).
- Setting the permission of the first characters of a text searches those and
  adds the whole text: `DomainSpec.SetExact` says when that is right,
  `DomainSpec.SetByLengthFails` where it is not.
- The authorisation machine runs out of stack if and only if the evaluation takes
  more than eight cells (`Auth.OverflowIff`, `Auth.AuthCheck`). What it takes
  depends on the permissions: operands that are not evaluated take none
  (`Auth.ShortcutNeedsLess`).
- Rolling back a failed installation of units restores the file system if and
  only if the paths of the units were free (`Units.FileSystem.InstallUnits`); a
  link to nothing passes for free and is lost (`Units.RollbackExample`).
- Issuers can be put first only if the certificates have no cycle
  (`Certs.SortedOnlyIfAcyclic`), and then the sort does it.
- The failure counter of a transaction counts downwards from zero in 32 bits
  (`Transactions.ReportKeeps` states the value reported).

## Model

| member | source | states |
|---|---|---|
| Names.UnescapeIsRfc6901 | src/units/apply-mustach.c:90-123 | reading a JSON pointer component in one pass gives the two replacement steps of section 4 of RFC 6901, for every string |
| Names.GlobaliseDropsLast | src/units/apply-mustach.c:157-172 | each globalisation of a key removes exactly its last specific segment, so the lookup loop ends; it fails exactly when none is left |
| Names.FindFirstIsLeast | src/units/apply-mustach.c:195-211 | the value found is that of the least globalised key that occurs, in the innermost scope that has it, and None exactly when no scope has any of the keys |
| Names.InnermostIsLast | src/units/apply-mustach.c:195-211 | within one key, the scope that answers is the last one that has it |
| Names.FindOrWidth | src/units/apply-mustach.c:283-300 | whatever a name denotes, its arrays are no wider than those of the data, which bounds the repetitions of a section |
| Names.FirstValueShrinks | src/units/apply-mustach.c:129-148 | every alternative read from a condition value leaves a strictly shorter rest |
| Names.ComponentShrinks | src/units/apply-mustach.c:90-123 | every component read from a name leaves a strictly shorter rest |
| NamesMeaning.PlainKey | src/units/apply-mustach.c:195-211 | a key without special characters denotes its value in the innermost scope that has it, and nothing when none has |
| NamesMeaning.Dot | src/units/apply-mustach.c:190-193 | the dot denotes the innermost scope |
| NamesMeaning.Dotted | src/units/apply-mustach.c:212-223 | a.b denotes the field b of what a denotes |
| NamesMeaning.Pointer | src/units/apply-mustach.c:183-223 | /a/b denotes the field b of the field a of the innermost scope that has one |
| NamesMeaning.Equal | src/units/apply-mustach.c:224-233 | k=v is the value of k when its text is v, and nothing otherwise |
| NamesMeaning.NotEqual | src/units/apply-mustach.c:224-233 | k=!v is the value of k when its text is not v, and nothing otherwise |
| NamesMeaning.OneOfTwo | src/units/apply-mustach.c:224-233 | k=v|w and k=!v|w test for one of two texts |
| NamesMeaning.FirstOfTwo | src/units/apply-mustach.c:283-300 | a||b is what a denotes, or what b does when that is nothing |
| NamesMeaning.StarKey | src/units/apply-mustach.c:157-172 | the segment after the last colon gives way to a star |
| NamesMeaning.StarFound | src/units/apply-mustach.c:195-211 | a:b falls back to a:* when no scope has it |
| NamesMeaning.WrittenRead | src/units/apply-mustach.c:107-118 | any key can be written as a component, dots and backslashes after a backslash, and is read back |
| NamesMeaning.WrittenValueRead | src/units/apply-mustach.c:129-148 | any value can be written as an alternative, bars and backslashes after a backslash, and is read back |
| NamesMeaning.EqualInKey | src/units/apply-mustach.c:60-84 | an equal sign after a backslash, or in a pointer after a tilde, belongs to the key |
| NamesInPlace.KeyVal | src/units/apply-mustach.c:60-84 | the in-place cut of key=value leaves the key and the value of the specification as the two C strings, and nothing after the name changes |
| NamesInPlace.First | src/units/apply-mustach.c:90-123 | the in-place unescaping leaves the first component, the rest stands untouched after it, and writing never passes reading |
| NamesInPlace.Value | src/units/apply-mustach.c:129-148 | the in-place cut of the alternatives of a condition value leaves the first one and the rest |
| NamesInPlace.Globalise | src/units/apply-mustach.c:157-172 | the in-place globalisation gives the specified key, or leaves the buffer as it was |
| NamesInPlace.SearchScopes | src/units/apply-mustach.c:195-211 | the nested search with its restarts ends and finds what the specification finds |
| NamesInPlace.SearchObject | src/units/apply-mustach.c:212-222 | the same for a sub-component in one object |
| NamesInPlace.DescendFrom | src/units/apply-mustach.c:212-223 | following the remaining components in place gives the specified value |
| NamesInPlace.CheckValue | src/units/apply-mustach.c:224-233 | a condition holds exactly when the text is among the alternatives, or is not when the condition is negated |
| NamesInPlace.FindIn | src/units/apply-mustach.c:177-235 | a whole name, with its key and its condition, denotes the specified value |
| NamesInPlace.CutBars | src/units/apply-mustach.c:283-300 | the name is cut at its first double bar; both parts are the specified ones |
| NamesInPlace.FindOr | src/units/apply-mustach.c:283-300 | the first alternative that denotes something is the result |
| Template.FlattenBalanced | src/mustach/mustach.c:395-429 | the tags of properly nested nodes are balanced |
| Template.BalancedIffNested | src/mustach/mustach.c:395-429 | tag sequences whose closing tags match are exactly the flattenings of nested nodes |
| Template.RoomyRenders | src/mustach/mustach.c:395-414 | a template whose nesting leaves room in both stacks always has a rendering |
| Engine.StepOk | src/units/apply-mustach.c:302-348 | at every step the number of scopes is one more than the number of entered sections, so the back end is never asked to leave what it did not enter |
| Engine.StepDecreases | src/mustach/mustach.c:256-429 | every step, jumps back included, lowers a measure, so rendering always ends |
| Simulation.RunItems | src/mustach/mustach.c:415-429 | a repeated section writes its body once per remaining item, in order, and ends after its closing tag |
| Simulation.RunSection | src/mustach/mustach.c:395-429 | an enabled section writes its body for the items of the value, an inverted one exactly when there are none |
| Simulation.SkipNodes | src/mustach/mustach.c:395-429 | a disabled part writes nothing and still counts its nesting |
| Simulation.RendersNested | src/mustach/mustach.c:238-453 | for every nested template and every JSON value the flat loop returns OK with exactly the recursive rendering, or too deep when that has none |
| Simulation.VerdictOfTags | src/mustach/mustach.c:272-429 | the return code is OK only on balanced tags, and below the depth limit depends on the tags alone, whatever the data |
| TemplateMeaning.PutValue | src/units/apply-mustach.c:273-280 | a value is put as its text, escaped exactly when asked, and nothing is put for nothing |
| TemplateMeaning.EscapedConcat | src/units/apply-mustach.c:257-271 | escaping goes character by character |
| TemplateMeaning.EscapedChar | src/units/apply-mustach.c:257-271 | it doubles percent signs, writes a newline as backslash and n, and keeps any other character |
| TemplateMeaning.TextAndComment | src/mustach/mustach.c:256-373 | texts are copied, comments leave nothing |
| TemplateMeaning.EachItem | src/units/apply-mustach.c:302-339 | a section on an array with the dot in it gives the texts of its items in order, null items giving nothing |
| TemplateMeaning.EachItemExample | src/units/apply-mustach.c:302-339 | the array of a and b gives ab |
| TemplateMeaning.SectionTimes | src/mustach/mustach.c:395-429 | a section is written once per item of an array, once for an object, true, a number not zero and a text not empty, else never; an inverted one once exactly then |
| TemplateMeaning.FieldsInside | src/units/apply-mustach.c:302-327 | inside the section of an object its fields are found first, then those outside |
| TemplateMeaning.DepthLimit | src/mustach/mustach.c:395-405 | sections on a true value may be 255 deep; one more is an error |
| TemplateMeaning.UnbalancedCodes | src/mustach/mustach.c:395-453 | the codes for a closing tag without opening one and for an opening tag without closing one |
| Mustach.Explorer.Start | src/units/apply-mustach.c:246-255 | the back end starts with the root value as its only scope |
| Mustach.Explorer.Enter | src/units/apply-mustach.c:302-327 | the new scope is the first item of a non-empty array, or the value itself when it is an object or true; otherwise nothing is entered |
| Mustach.Explorer.Next | src/units/apply-mustach.c:329-339 | the innermost scope moves to the next item, exactly when there is one |
| Mustach.Explorer.Leave | src/units/apply-mustach.c:341-348 | the innermost scope is dropped |
| Mustach.Process | src/mustach/mustach.c:238-453 | the loop with its frame array computes the specified run, and leaves every scope it entered |
| Auth.EvalIsHolds | src/binding/auth.c:54-126 | evaluation with a stack agrees with short-circuit evaluation whenever it does not overflow, which it does not if the need fits |
| Auth.OverflowIff | src/binding/auth.c:54-126 | the stack overflows if and only if the cells already used and those the evaluation takes exceed its depth |
| Auth.CellsWithinNeed | src/binding/auth.c:98-126 | the cells taken under any permissions are at most those the shape of the expression may need |
| Auth.ShortcutNeedsLess | src/binding/auth.c:63-126 | an expression that may need nine cells, takes two and is granted |
| Auth.Check.Push | src/binding/auth.c:98-126 | pushing an expression ends with one more callback, that of evaluating it and then what is pending |
| Auth.Check.PopAll | src/binding/auth.c:63-90 | popping a status ends with one more callback, that of what is pending |
| Auth.AuthCheck | src/binding/auth.c:128-146 | one callback; positive if and only if the expression holds and takes at most eight cells; the overflow code if it takes more |
| Auth.NotTower | src/binding/auth.c:98-126 | a tower of negations takes every cell it needs, so the bound on the need is reached |
| Auth.Connectives | src/binding/auth.c:63-126 | and, or and not of what holds; a permission holds when it is granted; of the other leaves only yes holds |
| Auth.StatusOfLeaves | src/binding/auth.c:63-126 | the status reported is that of the permission asked last, or one or zero |
| Auth.TowerLimit | src/binding/auth.c:98-126 | seven negations are evaluated, with eight the callback gets the error |
| Paths.NextComponent | src/utils/path-entry.c:95-113 | one turn of the scan takes one non-empty name and all slashes after it |
| Paths.JoinComponents | src/utils/path-entry.c:266-312 | the components of a written path are the names it was written from |
| PathTree.Tree.SearchChild | src/utils/path-entry.c:61-67 | a child is found exactly when the path one level down has an entry |
| PathTree.Tree.MakeChild | src/utils/path-entry.c:69-88 | the new entry is linked in both directions, siblings stay distinct, one path is added |
| PathTree.Tree.Get | src/utils/path-entry.c:95-113 | succeeds exactly on paths that have an entry, and returns it |
| PathTree.Tree.Add | src/utils/path-entry.c:176-185 | the paths gain exactly the prefixes of the one added, which alone becomes marked; a new entry has a slash unless it is at the first level and the path has none, others keep theirs |
| PathTree.Tree.PrefixClosed | src/utils/path-entry.c:95-113 | every prefix of a path with an entry has one |
| PathWalk.ForEach | src/utils/path-entry.c:338-375 | the entries visited are those of one order fixed by the tree, every selected entry below the start exactly once, ancestors before or after descendants as asked |
| PathWalk.OrderTraverses | src/utils/path-entry.c:338-375 | that recursive order is complete, without repetition and in the order asked, whatever the order of the siblings |
| PathWalk.Destroy | src/utils/path-entry.c:137-174 | exactly the subtree disappears; all other entries, links, marks and orders of siblings stay; destroying the root leaves nothing |
| PathText.RelPath | src/utils/path-entry.c:266-312 | the length returned does not depend on the buffer, which receives exactly the corresponding prefix of the normalised path, and the null if there is room; an entry without name, or the root of the path, writes at most a slash |
| PathText.DoForEach | src/utils/path-entry.c:338-375 | each callback sees the whole text of its entry, shorter than the buffer; nothing before the starting text changes; the walk returns 0 if and only if every text fits with its null, and otherwise visits the entries up to the refused one |
| PathText.TrailFits | src/utils/path-entry.c:338-375 | the walk comes to its end if and only if no entry of the subtree is refused by the guard on lengths |
| PathText.TrailLeads | src/utils/path-entry.c:338-375 | what a stopped walk visits is a prefix of the complete order, all of it when the walk is not stopped |
| PathText.TrailTells | src/utils/path-entry.c:338-375 | every visit of a walk carries the text that its entry has after the starting text, within the size |
| PathText.TrailMisses | src/utils/path-entry.c:338-375 | a stopped walk over all entries misses at least one |
| PathReach.TrailStopsAt | src/utils/path-entry.c:338-375 | a walk that tells entries after their content tells exactly those before the first, in that order, whose path does not fit |
| PathReach.TrailSifted | src/utils/path-entry.c:338-375 | the walk over the added entries tells what the walk over all of them tells of added ones, and stops where it does |
| PathReach.ToldIff | src/utils/path-entry.c:338-375 | an added entry is told if and only if all the entries to pass up to it, and itself, fit |
| PathReach.LaterMissed | src/utils/path-entry.c:338-375 | an entry that does not fit keeps the walk from itself and from its later siblings |
| PathReach.TrailStopsPre | src/utils/path-entry.c:338-375 | a walk that tells entries before their content also tells exactly those before the first whose path does not fit |
| PathOrder.OrderLeft | src/utils/path-entry.c:137-174 | after entries were destroyed, the order of a walk is that of the tree as it was, without them |
| FileTypes.CombineOneMore | src/afmpkg/afmpkg.c:811-836 | raising a directory child by child does not depend on the order of the children |
| FileTypes.PublicAbove | src/afmpkg/afmpkg.c:811-836 | every ancestor, within the package, of an entry that ends public is public |
| FileTypes.PlugAbove | src/afmpkg/afmpkg.c:811-836 | the parent of an entry that ends a plug is a plug or public |
| FileTypes.InheritedSet | src/afmpkg/afmpkg.c:770-807 | when the package has a type, every entry inherits one |
| FileTypes.Typing.Reset | src/afmpkg/afmpkg.c:629-636 | the package is typed, its content is not |
| FileTypes.Typing.SetAll | src/afmpkg/afmpkg.c:686-741 | exactly the named entries get the type; it fails if and only if a name is missing or has no entry |
| FileTypes.Typing.SetProperties | src/afmpkg/afmpkg.c:639-683 | it fails if and only if the properties cannot all be respected together with the types that are there; else all are; types already set, and entries not named, keep theirs |
| FileTypes.Typing.SetTargets | src/afmpkg/afmpkg.c:744-767 | an entry without type becomes executable exactly when a target with an executable mime type names it; it fails if and only if the source of a target is missing |
| FileTypes.Typing.SetDefaults | src/afmpkg/afmpkg.c:770-807 | the one pre-order pass gives every entry it reaches its explicit type, or that of the nearest typed or known-named ancestor-or-self; the others keep theirs; it fails if and only if an entry reached is neither a file nor a directory |
| FileTypes.Typing.ReachedAll | src/afmpkg/afmpkg.c:770-807 | the pass reaches every entry if and only if no path of the package is refused |
| FileTypes.Typing.DefaultsRightIff | src/afmpkg/afmpkg.c:770-807 | the types follow the equation of inheritance if and only if every entry without declared type is reached; exactly the others stay unset |
| FileTypes.Typing.Propagate | src/afmpkg/afmpkg.c:811-836 | the one post-order pass computes the recursive equation for the final types |
| FileTypes.Typing.Explicit | src/afmpkg/afmpkg.c:841-861 | after the passes over the manifest every entry has the type the manifest declares for it, in the order of precedence of the passes; they fail if and only if something named is missing or properties contradict plugs, bindings or each other |
| FileTypes.Typing.Compute | src/afmpkg/afmpkg.c:839-866 | it succeeds if and only if the manifest is fulfilled and the entries reached are files or directories; then the types are those of the equations over the declared types on what the default pass reaches; if the paths fit, everywhere, and no entry is unset |
| PackageTypes.PassesSolve | src/afmpkg/afmpkg.c:839-866 | what the passes compute, read as a map from paths to types, solves the equations of declaration, inheritance and propagation on the paths of the package |
| PackageTypes.AcceptableIff | src/afmpkg/afmpkg.c:841-858 | the passes over the manifest succeed exactly when, among the paths of the package, all it names is there and its properties contradict nothing |
| PackageMeaning.NamedKinds | src/afmpkg/afmpkg.c:686-741 | a provided binding is a public library, any other plug a plug, the package itself private |
| PackageMeaning.TargetKind | src/afmpkg/afmpkg.c:744-767 | the source of a target with an executable mime type is executable unless the manifest says otherwise |
| PackageMeaning.UnnamedKind | src/afmpkg/afmpkg.c:629-767 | what nothing in the manifest names has no type of its own |
| PackageMeaning.PropertyKind | src/utils/path-type.c:53-80 | the type that each value of a property gives |
| PackageMeaning.NearestGives | src/afmpkg/afmpkg.c:770-807 | a path without type of its own gets that of the nearest place at or above it that has one, or whose directory name gives one |
| PackageMeaning.NothingGives | src/afmpkg/afmpkg.c:770-807 | without such a place it has the type of the package |
| PackageMeaning.LeafKind | src/afmpkg/afmpkg.c:811-836 | a file keeps its default type |
| PackageMeaning.DirectoryKind | src/afmpkg/afmpkg.c:811-836 | a directory is public as soon as an entry of it is public in some way, else a plug when one is a plug and it is not public itself, else what it was |
| PackageMeaning.UsualKinds | src/utils/path-type.c:53-93 | without manifest entries, files directly in bin, lib, etc and htdocs are executables, libraries, configuration and web files |
| PackageMeaning.AcceptedManifests | src/afmpkg/afmpkg.c:639-767 | a property on what is already typed, repeated or contradicted, unknown or without its parts, and a name without entry: which manifests are accepted and which are not |
| Installer.SpellWhole | src/afmpkg/afmpkg.c:320-350 | after the text of the parent of a package, the walk spells the whole path of each entry |
| Installer.PackageTextExact | src/afmpkg/afmpkg.c:320-350 | the text of each entry of a package is its path if and only if the package is not directly under the root or was added with a slash |
| Installer.RelativePackage | src/afmpkg/afmpkg.c:320-350 | a package for which it is not |
| Installer.DefaultText | src/afmpkg/afmpkg.c:1370-1408 | the text of a file of no package is its path if and only if its first component was added with a slash |
| Installer.PackageFits | src/afmpkg/afmpkg.c:957-968 | the walks of a package refuse no entry if and only if all its paths, written after the prefix, fit the buffer |
| Installer.TagAll | src/afmpkg/afmpkg.c:916-928 | every entry of the walk is tagged once, in order, under its full path, with its computed type |
| Installer.TagsOfTypes | src/afmpkg/afmpkg.c:916-928 | a file gets its type, one without type that of configuration files |
| Installer.TagPackage | src/afmpkg/afmpkg.c:957-968 | only entries of the package are tagged, once, under their paths and with their types, and all of them if and only if their paths fit; the path of the package in the buffer stays if and only if it keeps its leading slash |
| Installer.PlugText | src/afmpkg/afmpkg.c:286-289 | the path told for a plug is that of the package followed by its directory, as far as it fits, if and only if the path of the package is still in the buffer |
| Installer.PlugPartIs | src/afmpkg/afmpkg.c:286-289 | a directory that fits is written after a slash |
| Installer.InstallPackage | src/afmpkg/afmpkg.c:1184-1241 | on success the tags are a package bracket: complete if and only if the paths fit, and then with types that solve the equations for its manifest; the path of the package in the buffer stays, and the plugs are told under it, if and only if it keeps its slash; when no operation fails it succeeds if and only if the manifest is acceptable and the content the default pass reaches is made of files and directories |
| Installer.ProcessPackage | src/afmpkg/afmpkg.c:1291-1342 | on success one such bracket is added, for that package, with the entries left in it and the manifest found at its path; when no operation fails, success under the same condition |
| Installer.SoundOrder | src/afmpkg/afmpkg.c:770-807 | what the default pass reaches is made of files and directories exactly when the content up to the first path that does not fit is |
| Installer.DetectRoots | src/afmpkg/afmpkg.c:1547-1572 | exactly the entries that hold a manifest or a configuration file are found, embedded packages before those that embed them |
| Installer.ProcessRoots | src/afmpkg/afmpkg.c:1524-1610 | each root in turn gets such a bracket over what earlier roots left of it, and is destroyed; when no operation fails, success if and only if each package can be installed with what was left of it |
| Installer.DefaultTree | src/afmpkg/afmpkg.c:1370-1408 | on success the files of no package are tagged in one bracket without owner, with the default type; there is no bracket if there are none; a path that does not fit is an error |
| Installer.ShareIsOwned | src/afmpkg/afmpkg.c:1524-1610 | what earlier roots leave to a root is exactly what has it as nearest package |
| Installer.WholeInstallation | src/afmpkg/afmpkg.c:1524-1677 | the brackets of the roots and the default one partition the paths by nearest package |
| Installer.Install | src/afmpkg/afmpkg.c:1615-1677 | on success there is one bracket for each package over the files it is nearest to, complete if and only if they fit and with the types of the equations if they do, and a default one for the other files if there are any; if all paths fit, every added path is tagged exactly once; when no operation fails it succeeds if and only if each package can be installed with its files and, if there are files of no package, the paths of no package fit |
| Installer.FineIff | src/afmpkg/afmpkg.c:1524-1610 | the packages can be installed with what is left of them exactly when they can with the files they are nearest to |
| Installer.LeftFits | src/afmpkg/afmpkg.c:1370-1408 | the walk over what is left refuses nothing exactly when the paths of no package fit |
| Brackets.WhollyTaggedIff | src/afmpkg/afmpkg.c:1615-1677 | after a successful installation each file of a package is tagged once, in the bracket of its nearest package, if and only if the paths of that package fit the buffer |
| Brackets.EveryFileOnce | src/afmpkg/afmpkg.c:1615-1677 | an added file is tagged exactly once, in the bracket of its nearest package or in the default one, as soon as the files of that package fit |
| Brackets.LongPathMissed | src/afmpkg/afmpkg.c:957-968 | a package with a name of 5000 characters that a successful installation does not tag wholly |
| Brackets.PackageMarks | src/afmpkg/afmpkg.c:1547-1572 | a package is where there is a manifest or a configuration file |
| InstallExamples.InstallLong | src/afmpkg/afmpkg.c:1615-1677 | such an installation, which succeeds and leaves a file of the package untagged |
| InstallExamples.InstallApp | src/afmpkg/afmpkg.c:1615-1677 | a package with a target: it is installed, and its executable tagged as one under its path |
| InstallExamples.InstallPlain | src/afmpkg/afmpkg.c:1370-1408 | a file of no package: it is the only one tagged, with the default type |
| Request.StepKeeps | src/afmpkg/afmpkg-request.c:397-519 | one line keeps index within count, never rewrites a field that is set, and never replaces the first error |
| Request.RunKeeps | src/afmpkg/afmpkg-request.c:212-519 | the same for every sequence of lines |
| Request.ReadyWithoutKind | src/afmpkg/afmpkg-request.c:439-443 | the exact condition under which a request becomes ready without a kind |
| Request.EndOfNothing | src/afmpkg/afmpkg-request.c:439-443 | such a line: END NOTHING |
| Request.Receiver.Receive | src/afmpkg/afmpkg-request.c:397-519 | the fields updated in place are those of the transition; the request fails exactly when the code is negative |
| Wire.DecimalRead | src/afmpkg/afmpkg-client.c:201-208 | the number the client prints is the number the daemon reads |
| Wire.SplitText | src/afmpkg/afmpkg-server.c:66-87 | a text of non-empty lines splits into exactly those lines |
| Wire.MessageAccepted | src/afmpkg/afmpkg-request.c:397-519 | every message is accepted line by line and gives a ready request with the same operation, package, index, count, root, identifiers and file set |
| Wire.MessageRoundTrip | src/afmpkg/afmpkg-client.c:227-278 | the same for the message written out and split again |
| ProtocolMeaning.Words | src/afmpkg/afmpkg-client.c:227-258 | the words of the operations |
| ProtocolMeaning.ShortMessage | src/afmpkg/afmpkg-client.c:227-258 | the lines of the shortest message |
| ProtocolMeaning.DetailLines | src/rpm-plugin/redpesk.c:215-250 | the lines between, in their order |
| ProtocolMeaning.FiveLines | src/afmpkg/afmpkg-client.c:140-178 | each line is ended by a newline |
| ProtocolMeaning.RefusedEarly | src/afmpkg/afmpkg-request.c:397-519 | the codes of lines before BEGIN |
| ProtocolMeaning.RefusedTwice | src/afmpkg/afmpkg-request.c:397-519 | the codes of what is set twice |
| ProtocolMeaning.RefusedTexts | src/afmpkg/afmpkg-request.c:397-470 | the codes of arguments that are no numbers |
| ProtocolMeaning.RefusedNumbers | src/afmpkg/afmpkg-request.c:397-470 | the codes of numbers out of range and of an index above the count |
| ProtocolMeaning.RefusedWords | src/afmpkg/afmpkg-request.c:397-445 | the codes of operations that are none |
| ProtocolMeaning.RefusedEnd | src/afmpkg/afmpkg-request.c:439-443 | the code of an END that is not that of its BEGIN |
| ProtocolMeaning.RefusedLines | src/afmpkg/afmpkg-request.c:412-519 | the codes of a line after the end and of a line of no kind |
| Server.Scan | src/afmpkg/afmpkg-server.c:64-87 | every complete line of a piece reaches the request, in order; an unfinished one is kept at the head of the buffer with its length, and without one the length stays that of the piece |
| Server.ErrorSticks | src/afmpkg/afmpkg-request.c:212-220 | after an error further lines change nothing |
| Server.Receive | src/afmpkg/afmpkg-server.c:44-91 | for any pieces, and a connection that breaks or not, the request is the one a function of the pieces says, kept bytes and lost ones included; the code is negative if and only if an error was met |
| Server.HeardWhole | src/afmpkg/afmpkg-server.c:44-91 | a message received in one piece becomes the request it asks for |
| Server.ReadyIff | src/afmpkg/afmpkg-server.c:44-91 | however a message is cut into pieces, its end is read if and only if there is one piece |
| Server.NeverReady | src/afmpkg/afmpkg-server.c:50-88 | pieces of a text that only its last line could end, received after something held, never make a request ready |
| Serving.Serve | src/afmpkg/afmpkg-server.c:126-159 | what was received is processed if and only if no error was met, whatever its state; when it says what a message says, the installer gets exactly what the message asks to add or remove, nothing for a check, and the outcome is charged to its transaction; for a status line the reply is the report of that transaction |
| Serving.StatusHeard | src/afmpkg/afmpkg-request.c:498-510 | a STATUS line is a request for the status of that transaction |
| Serving.EnoughIff | src/afmpkg/afmpkg-request.c:397-519 | the first lines of a message make the request it asks for if and only if they hold all lines before the files and name all its files |
| Serving.TwoPiecesIff | src/afmpkg/afmpkg-server.c:44-91 | a message in two pieces, cut anywhere: error if and only if a line is looked at again with a newline after it, otherwise its first lines are read; it is what was asked if and only if those are enough |
| Serving.CutAfterLineIff | src/afmpkg/afmpkg-server.c:44-91 | a message in any number of pieces of which the first ends with a line: what was asked if and only if that piece says enough and no newline of the others is looked at |
| Serving.SafeCut | src/afmpkg/afmpkg-server.c:44-91 | a message in any number of pieces, cut anywhere, is what was asked if all its lines but the last are read of the first two |
| Serving.SilentLoss | src/afmpkg/afmpkg-server.c:44-91 | cut between two lines, the second piece no longer than the first, the request is without error that of the first piece alone |
| Serving.LostFile | src/afmpkg/afmpkg-server.c:44-91 | a message with two files of which one is asked for |
| Serving.WrongFile | src/afmpkg/afmpkg-server.c:44-91 | a message in three pieces that becomes, without error, a request for a file it does not name |
| Client.IntactIff | src/afmpkg/afmpkg-client.c:140-178 | a message leaves intact whatever allocations hold if and only if it fits the initial buffer |
| Client.LongMessageLost | src/afmpkg/afmpkg-client.c:155-169 | a message with one long file name that is not sent intact |
| Client.PutLinesFits | src/afmpkg/afmpkg-client.c:140-178 | as long as it fits, the text is exactly the lines put |
| Client.PutLinesAfterGrowth | src/afmpkg/afmpkg-client.c:155-169 | once the initial buffer is left, nothing more is lost |
| Client.GrowthLoses | src/afmpkg/afmpkg-client.c:155-169 | a text that outgrows the initial buffer begins with what the allocation held |
| Client.Itoa | src/afmpkg/afmpkg-client.c:201-208 | the digits at the end of the scratch buffer are the decimal writing of the number |
| Client.Builder.Put | src/afmpkg/afmpkg-client.c:140-178 | the buffer after a line is that of the specification, growth and overflow included; nothing changes on error |
| Client.Builder.PutOnce | src/afmpkg/afmpkg-client.c:180-192 | a field is written at most once per message |
| Client.Builder.Begin | src/afmpkg/afmpkg-client.c:227-247 | the buffer restarts with the four opening lines |
| Client.Builder.End | src/afmpkg/afmpkg-client.c:249-258 | the closing line names the operation begun, a null follows the text |
| Plugin.WalkIsLocal | src/rpm-plugin/redpesk.c:328-357 | an iteration on a set does to its records what it would do to them alone, and leaves the records of other sets |
| Plugin.NumberingPasses | src/rpm-plugin/redpesk.c:360-383 | the three passes number removals from one on, then additions, without gap |
| Plugin.LeftoverOverruns | src/rpm-plugin/redpesk.c:396-427 | an index exceeds the count if and only if there are more records than elements counted |
| Plugin.LeftoverExample | src/rpm-plugin/redpesk.c:396-427 | one element with one record left before it: an index of two with a count of one |
| Plugin.ConsecutiveMessages | src/rpm-plugin/redpesk.c:385-472 | the messages of a set, test or not, are numbered 1 to n in sending order, all with count n, removals before additions, each with its operation |
| Plugin.OtherSets | src/rpm-plugin/redpesk.c:328-357 | what one set leaves of the others' records keeps each other set's records |
| Plugin.MakeMessage | src/rpm-plugin/redpesk.c:215-250 | the text built is that of the lines of the message put one after the other; fails exactly if the buffer cannot grow |
| Plugin.Hooks.ForEach | src/rpm-plugin/redpesk.c:328-357 | the list, the last index and the texts sent are those of the specification |
| Plugin.Hooks.Pre | src/rpm-plugin/redpesk.c:385-444 | the removals are sent with their numbers unless the flags forbid, the additions wait with theirs; an index exceeds the count if and only if records of the set were left; other sets are untouched |
| Plugin.Hooks.Post | src/rpm-plugin/redpesk.c:446-472 | the waiting additions are sent unless the transaction failed or the flags forbid, and no record of the set is left |
| Plugin.Transaction | src/rpm-plugin/redpesk.c:385-472 | over a whole transaction, with any flags and any outcome, the texts sent are those of the removals and then of the additions that the flags and the outcome allow; no record of the set is left |
| Plugin.TransactionUnderstood | src/rpm-plugin/redpesk.c:385-472 | if the messages fit, the daemon reads each text, of a test or not, as the request of its element, with its number |
| ProtocolMeaning.EachElementTold | src/rpm-plugin/redpesk.c:215-300 | every element added or removed has its message, with its operation, name and files, the root and the identifiers |
| ProtocolMeaning.TransactionExample | src/rpm-plugin/redpesk.c:385-472 | the messages of an addition and a removal, for the flags and outcomes |
| Transactions.CleanedAmong | src/afmpkg/afmpkg-request.c:102-118 | exactly the transactions not expired stay |
| Transactions.RecordKeeps | src/afmpkg/afmpkg-request.c:325-339 | recording an outcome keeps identifiers distinct and all counters equal to what was recorded since creation |
| Transactions.ReportKeeps | src/afmpkg/afmpkg-request.c:347-368 | a report gives the counts since the creation of the transaction and forgets it |
| Transactions.Table.Cleanup | src/afmpkg/afmpkg-request.c:102-118 | the in-place removal leaves exactly the entries of the specification, in order |
| Transactions.Table.GetTransaction | src/afmpkg/afmpkg-request.c:129-156 | finds the transaction, or creates it exactly when it is missing and there is a count |
| Transactions.Table.Process | src/afmpkg/afmpkg-request.c:301-371 | the table stays accurate; the reply is the status of the transaction and the code the length of its text; failures are recorded in the request, and so is an outcome whose transaction is missing and cannot be created |
| Transactions.Table.CanStop | src/afmpkg/afmpkg-request.c:571-580 | stopping is possible exactly when no transaction is left after cleaning |
| Ledger.TableIsLedger | src/afmpkg/afmpkg-request.c:102-368 | after any operations the table holds exactly the accounts: opened by an outcome with a count, kept for 3600 seconds, charged with each outcome, closed by a report |
| Ledger.StatusAnswered | src/afmpkg/afmpkg-request.c:347-368 | a report is given exactly for an account opened less than 3600 seconds before and not reported since; it tells the count, the successes and, below zero, the failures |
| Ledger.StatusExample | src/afmpkg/afmpkg-request.c:347-368 | two successes and a failure of three are 3 2 -1, and nothing an hour later |
| Ledger.StatusWritten | src/afmpkg/afmpkg-request.c:356-357 | how that is written |
| Daemon.StepKeeps | src/main/main-afmpkg-installerd.c:83-211 | every step of every thread keeps the counter, the mutexes, the stopping conditions and the table right |
| Daemon.RunKeeps | src/main/main-afmpkg-installerd.c:83-211 | the same in every state of every run |
| Daemon.LivingIsExact | src/main/main-afmpkg-installerd.c:83-124 | in every interleaving the counter is the number of threads created that have not yet decremented it, and one more just around a creation |
| Daemon.OneAtATime | src/main/main-afmpkg-installerd.c:83-136 | no two threads are in sections of the same mutex |
| Daemon.StopsSafely | src/main/main-afmpkg-installerd.c:128-211 | when the loop returns 0 every worker is finished, no transaction is left and the daemon was not asked to stay |
| Daemon.StatusIsExact | src/afmpkg/afmpkg-request.c:347-368 | in every run every status given equals the outcomes recorded since the creation of its transaction; identifiers are distinct |
| Daemon.NeverStuck | src/main/main-afmpkg-installerd.c:83-211 | until the loop returns, some thread can go on |
| DaemonTurns.IdleTurn | src/main/main-afmpkg-installerd.c:128-211 | when nobody lives the loop returns 0 exactly if no transaction is left and it is not to run forever |
| DaemonTurns.BusyTurn | src/main/main-afmpkg-installerd.c:128-211 | while somebody lives it goes on polling |
| DaemonTurns.PollTurn | src/main/main-afmpkg-installerd.c:195-208 | a poll that fails ends the loop with 2, unless it was interrupted |
| DaemonTurns.ClientTurn | src/main/main-afmpkg-installerd.c:104-124 | a client gets a thread, which is counted |
| DaemonTurns.RefusedTurn | src/main/main-afmpkg-installerd.c:104-124 | when no thread can be made the count is as before |
| DaemonTurns.UseTurn | src/afmpkg/afmpkg-request.c:301-371 | a thread changes the table by one operation of the ledger, under its mutex |
| DaemonTurns.SkipTurn | src/afmpkg/afmpkg-request.c:301-371 | a thread whose request needs no transaction goes on to its reply and leaves the table alone |
| DaemonTurns.LeaveTurn | src/main/main-afmpkg-installerd.c:83-98 | a thread ends by closing and taking itself off the count |
| Digest.HexInjective | src/cert/digest.c:145-153 | distinct hashes have distinct texts |
| Digest.ExpandHex | src/cert/digest.c:145-153 | the backward in-place expansion turns the bytes into their text without overwriting a byte not yet read |
| Digest.SignatureType | src/cert/signature-name.c:36-63 | the kind of a path is decided by its file name alone |
| Digest.MadeNameRecognised | src/cert/signature-name.c:78-104 | the signature name made for a signer is recognised as that of the author exactly for the author |
| Digest.SignatureNames | src/cert/signature-name.c:36-63 | signatures are the files named signature-<name>.p7, the author's that of the name author |
| Digest.HexWritten | src/cert/digest.c:145-153 | two lower-case digits for each byte, the high one first |
| Digest.TextLengths | src/cert/digest.c:408-414 | the length of a text tells the algorithm |
| DigestFile.EntryHash | src/cert/digest.c:88-164 | the hash of an entry is the text of the bytes computed, or the error met |
| DigestFile.RecordsWritten | src/cert/digest.c:186-209 | each record is a line, the hash, a space and the name, and records are written in order |
| DigestFile.ReadWritten | src/cert/digest.c:378-398 | records written one after the other are read back |
| DigestFile.RecordCodes | src/cert/digest.c:394-427 | what is wrong with a record, by number |
| DigestFile.AcceptedIsSound | src/cert/digest.c:342-439 | in any text accepted, every file that is no signature is attested by its true hash, the author's signature exactly for the distributor, no distributor's signature at all |
| DigestFile.MadeIsAccepted | src/cert/digest.c:168-439 | the checker accepts what the maker wrote for the role if and only if every file the role signs has a name and a hash |
| DigestTree.TextsAgree | src/utils/path-entry.c:266-375 | the path text of the traversal and that of the entry are the same |
| DigestTree.DigestAgreement | src/cert/digest.c:168-439 | the same for the files a walk reaches: accepted if and only if the root is not among them and each one to sign has a hash |
| DigestTree.HashedAgreement | src/cert/digest.c:88-439 | the same for hashes computed from bytes, over the entries of any tree: accepted if and only if every added entry to sign that the walk comes to is not the root and has a hash |
| DigestTree.WalkedIff | src/cert/digest.c:168-253 | an added entry is a file of the walk if and only if no path up to it in the order of the walk is too long |
| DigestTree.WalkComplete | src/cert/digest.c:168-253 | the walk of the maker and of the checker comes to every added entry if no path is too long |
| DigestTree.AcceptedTree | src/cert/digest.c:342-439 | in any text accepted, every added entry that the walk comes to is attested as its kind and the role ask |
| DigestTree.MadeAttests | src/cert/digest.c:168-253 | the digest made attests an added entry if and only if the walk comes to it, the role signs it and it has a hash |
| DigestTree.AllAttestedIff | src/cert/digest.c:168-439 | in the digest made and accepted every added entry to sign is attested if and only if the walk comes to all of them |
| DigestTree.LaterUnsigned | src/cert/digest.c:247-253 | next to an entry whose name leaves no room its later siblings are not attested |
| DigestTree.SignNothing | src/cert/digest.c:168-439 | a tree with one file, whose digest is made, accepted, and says nothing of the file |
| DigestTree.NameRepeated | src/cert/digest.c:168-253 | the text of a walk that starts at an entry after its path is the path of each file if and only if the entry is the unnamed root; otherwise one name and one slash longer |
| DigestTree.MakeDigest | src/cert/digest.c:168-253 | the length returned is that of a text fixed by tree, algorithm and role, whatever the buffer, which receives the corresponding prefix |
| DigestTree.MakeWhole | src/cert/signed-digest.c:52-61 | the sizing pass and the filling pass agree: the allocation is filled by exactly the digest |
| DigestTree.CheckRecord | src/cert/digest.c:394-427 | the code for one record is that of its first defect |
| DigestTree.CheckDigest | src/cert/digest.c:362-439 | returns 0 if and only if the text is accepted; otherwise the code of the first bad record, or that of a wrong mark |
| Certs.IssuerHasLessAbove | src/cert/common-cert.c:126-147 | going up to an issuer leaves strictly fewer certificates above, which is why exchanges end |
| Certs.SettleCell | src/cert/common-cert.c:134-146 | one cell gets a certificate that no later one issued, by exchanges only |
| Certs.SortCerts | src/cert/common-cert.c:126-147 | without cycle the loops end, permute the array and leave no certificate issued by a later one |
| Certs.SortedOnlyIfAcyclic | src/cert/common-cert.c:126-147 | such an order exists only without cycle |
| DomainSpec.SizeIsExact | src/utils/domain-spec.c:137-152 | the size computed by the first pass is the length of the text and its null |
| DomainSpec.Print | src/utils/domain-spec.c:137-170 | the allocation is filled exactly by the text and its null |
| DomainSpec.ParseText | src/utils/domain-spec.c:172-202 | reading the printed text gives the domains in reverse order |
| DomainSpec.RoundTrip | src/utils/domain-spec.c:137-202 | printing and reading keep the permission of every name |
| DomainSpec.WrittenForm | src/utils/domain-spec.c:137-170 | the sign of each permission, and commas |
| DomainSpec.UnknownSign | src/utils/domain-spec.c:172-202 | an unknown sign is refused |
| DomainSpec.MissingName | src/utils/domain-spec.c:172-202 | a sign without name is refused |
| DomainSpec.NameTwice | src/utils/domain-spec.c:172-202 | a name twice is refused |
| DomainSpec.AbleToSignIff | src/utils/domain-spec.c:222-233 | signing is possible exactly when, for every domain of the target, the first of that name of the signer is root or above it |
| DomainSpec.CanSign | src/utils/domain-spec.c:222-233 | the loop with its early exit decides it |
| DomainSpec.RootSignsAll | src/utils/domain-spec.c:222-233 | who is root for all its names can sign whatever is about them, roots included |
| DomainSpec.GrantsSignNothing | src/utils/domain-spec.c:222-233 | who only grants can sign nothing that has a permission |
| DomainSpec.AbleToSignTransitive | src/utils/domain-spec.c:222-233 | being able to sign is transitive |
| DomainSpec.ChainSigns | src/utils/domain-spec.c:222-233 | the first specification of a chain can sign each later one |
| DomainSpec.PermissionsFall | src/utils/domain-spec.c:222-233 | along a chain a permission never rises, and falls unless its signer is root |
| DomainSpec.Spec.ReadString | src/utils/domain-spec.c:172-202 | the list is that of the text, or empty with the code of the first error; a specification that is not empty is refused |
| DomainSpec.SetExact | src/utils/domain-spec.c:95-123 | given a length, exactly the permission asked for changes if and only if the length is the whole text, the name is there, or the permission is none or invalid; names stay distinct exactly then or if the whole text is no name yet |
| DomainSpec.SetByLengthFails | src/utils/domain-spec.c:95-123 | two characters of "ab,cd" are asked for and the whole is set, or set a second time |
| DomainSpec.Spec.SetLength | src/utils/domain-spec.c:95-123 | the list walk with its removal and its insertion changes the list to that of the specification of setting by length |
| DomainSpec.Spec.Set | src/utils/domain-spec.c:125-129 | one permission changes and no other; names stay distinct |
| DomainSpec.Spec.AddGrantings | src/utils/domain-spec.c:235-250 | exactly the names that some domain of the other specification grants become granted, repeated names or not, even of the same specification |
| DomainSpec.Spec.GrantedIff | src/utils/domain-spec.c:235-250 | when names are distinct, some domain grants a name if and only if that is its permission |
| Afid.SetBitIs | src/utils/manage-afid.c:42-50 | setting a bit sets that bit and no other |
| Afid.AllBits | src/utils/manage-afid.c:42-50 | a word is full exactly when all its bits are set |
| Afid.RangeIs | src/utils/manage-afid.c:42-50 | the range of identifiers and the words for it |
| Afid.Manager.Set | src/utils/manage-afid.c:42-50 | the words refine a set of identifiers, to which one is added |
| Afid.Manager.Update | src/utils/manage-afid.c:93-107 | the set becomes that of the identifiers found in range |
| Afid.Manager.FirstFree | src/utils/manage-afid.c:109-124 | the word-skipping scan returns the least free identifier, or -1 exactly when all are taken |
| Afid.Manager.GetNew | src/utils/manage-afid.c:137-161 | the identifier is the least free one of what is known, the bitmap or what the rebuild found, and becomes taken; the bitmap is rebuilt only at first use or when it is full; failure only when all are taken or a scan fails |
| Afid.Manager.Serve | src/utils/manage-afid.c:126-161 | in any sequence of calls, identifiers handed out between two rebuilds are distinct |
| Units.FileSystem.InstallUnit | src/utils/unit-oper.c:108-132 | succeeds exactly when the unit is complete and its write and its link succeed; then the file and the link are in place; no other path changes |
| Units.FileSystem.UninstallUnit | src/utils/unit-oper.c:79-106 | exactly the paths of the unit disappear; succeeds exactly when all of them were there |
| Units.FileSystem.UninstallUnits | src/afmpkg/afmpkg-std.c:61-75 | exactly the paths of the units with a valid descriptor disappear, whatever fails on the way |
| Units.FileSystem.CheckAll | src/afmpkg/afmpkg-std.c:86-91 | succeeds if and only if every unit is complete and nothing readable stands at its paths |
| Units.FileSystem.InstallUnits | src/afmpkg/afmpkg-std.c:82-105 | succeeds exactly when the units are absent and complete and all the writes and links succeed; without dangling links and links where files go, either all units are then in place or the file system is as before; the rollback restores if and only if the paths were free |
| Units.RollbackExample | src/afmpkg/afmpkg-std.c:82-105 | a link to nothing at the path of a unit, lost by the rollback |
| Units.InstallExample | src/afmpkg/afmpkg-std.c:82-105 | a wanted unit, of which file and link are then there |
| Corpus.MatchIsLocal | src/units/unit-process.c:58-93 | whether a pattern matches depends on the first line of the text only |
| Corpus.BlockTurn | src/units/unit-process.c:329-371 | searching for the next markers decides the same as reading line by line |
| CorpusMeaning.CharacterMatches | src/units/unit-process.c:58-93 | a character of a pattern stands for itself |
| CorpusMeaning.SpaceMatches | src/units/unit-process.c:58-93 | a space stands for some blanks, at least one |
| CorpusMeaning.NewlineMatches | src/units/unit-process.c:58-93 | a newline stands for the end of a line or of the text, and the blanks before it |
| CorpusMeaning.LinesWritten | src/units/unit-process.c:248-260 | the text of each directive |
| CorpusMeaning.BlockWritten | src/units/unit-process.c:329-371 | the text of the markers |
| CorpusMeaning.OneDirective | src/units/unit-process.c:262-293 | what one directive says |
| CorpusMeaning.TwoDirectives | src/units/unit-process.c:262-293 | directives that contradict each other say nothing; of two of a kind the first counts |
| CorpusText.AssembledRead | src/units/unit-process.c:311-415 | blocks put together with text without markers between them are read back, in order |
| CorpusText.BodyDescribed | src/units/unit-process.c:248-301 | the descriptor of a block is the scope, type, name and wanted-by its directives say, and nothing where they contradict each other |
| CorpusText.BodyMarkerFree | src/units/unit-process.c:311-371 | lines that are no markers make a block without markers |
| CorpusText.UnitsRead | src/units/unit-process.c:311-415 | units written as lines and put together are read back as their blocks, each described by its own directives |
| CorpusSplit.MatchesAt | src/units/unit-process.c:58-93 | the scan accepts exactly what the pattern means and ends where it ends |
| CorpusSplit.OffsetAt | src/units/unit-process.c:226-243 | the first line that begins with the pattern is found |
| CorpusSplit.ProcessOneUnit | src/units/unit-process.c:248-301 | the descriptor is that of the block |
| CorpusSplit.Pack | src/units/unit-process.c:105-159 | the in-place packing gives the specified text, ended by a null, and changes nothing outside the block, with or without a character to purge |
| Packing.PackedLines | src/units/unit-process.c:105-159 | packing a text leaves, in order, the line that each of its lines leaves: none if it is blank or a directive, unless it ends a continuation or asks for an empty line |
| Packing.PlainSurvive | src/units/unit-process.c:105-159 | of lines without continuation and directive exactly those that are not blank survive, in order, without the blanks they begin with |
| Packing.ContinuationStays | src/units/unit-process.c:105-159 | the line that continues another survives as it is |
| CorpusSplit.Split | src/units/unit-process.c:311-415 | succeeds if and only if the markers alternate and all name a systemd unit; then there is one descriptor per block, in order, with its packed content |
| CorpusSplit.SplitUnits | src/units/unit-process.c:311-415 | splitting n units put together returns n, with n descriptors in order, each with the scope, type, name and wanted-by of its own lines, and its packed content |

## Left out

- Installer.Install: a tree whose root is itself a package is excluded, because the code dereferences a null parent there, and so are packages whose own path does not fit the buffer, because the code then writes past it; uninstalling is not modelled.
- Serving.SafeCut: for three pieces or more, the first of which ends inside a line, only this direction is stated; whether lines that lost characters still say the same depends on what they are.
- Serving.Serve: the reply line and the signal sent to clients are not modelled; whether a file was named with a leading slash is not part of a request.
- DigestTree.MakeDigest: stated for the unnamed root of a tree and the four SHA-2 algorithms. The result is not truncated to an int.
- DigestFile.EntryHash: the hash kept on an entry after its first computation is not modelled; hashes are a function of path and algorithm.
- DigestTree.HashedAgreement: paths with a newline, which records cannot hold, are excluded.
- DomainSpec.Print: a specification with nothing to print is excluded, because the code then writes a null past an allocation of no byte.
- PathText.DoForEach: a callback that stops the walk is modelled where it does (`FileTypes.Typing.SetDefaults`, `Installer.DefaultTree`), not in the walk.
- Installer.InstallPackage: permissions, executables and units are steps that succeed or fail.
- PathText.RelPath: a null entry is not modelled; a slash forced where no entry has a name is excluded, because the code then dereferences null, and so is one forced into an empty buffer, because it then writes past it.
- Plugin.Transaction: the reply of the daemon, which only decides the result given to rpm, is not modelled.
- Client.Builder.Put: allocation failures are not modelled, here and everywhere else.
- Auth.AuthCheck: the answers of the permission checks are a function of the permission; the binding's session levels are leaves like any other.
- Mustach.Process: templates are sequences of tags; delimiters, partials, prefixes and the white space around standalone tags are not modelled.
- Units.FileSystem.InstallUnits: unlinking an existing file succeeds, and a unit that passes the check of its descriptor has a content. When a link of a unit stands where the file of another goes, only what the rollback removes is stated.
- Certs.SortCerts: the issuer relation is a parameter.
- JSON text of values, as used by conditions and output, is a parameter.
- The order of siblings in the tree: the code compares with the unterminated rest of a path, so it is not that of names; no property depends on it.
- Removing duplicated slashes from rendered units is not modelled.
- Reading the template file, the unit generator and the translation of configuration files.
- Sockets, D-Bus, systemd, rpm, PKCS#7, key handling and certificate chain checks: foreign code.
- Command lines, logging and the legacy installer.
