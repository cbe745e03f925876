/**
 The text of paths (src/utils/path-entry.c): `path_entry_relpath` writes it
 into a bounded buffer from the leaf's ancestors down, and the traversal
 extends one shared buffer on the way down the tree.
 */
module PathText {
  import opened CStrings
  import opened Errors
  import opened PathTree
  import opened PathWalk
  import opened Paths
  import opened TextLines

  /** How the first name is introduced. */
  datatype Lead = Auto | NoSlash | ForceSlash

  function Min(a: nat, b: nat): nat {
    if a < b then a else b
  }

  /** Was the first name of the path written after a slash? */
  ghost predicate Absolute(t: Tree, n: Node)
    requires t.Valid() && n in t.nodes
    reads t, t.nodes
    decreases |n.path|
  {
    if |n.path| <= 1 then n.slash
    else assert t.Linked(n); Absolute(t, n.parent)
  }

  /** Names dropped from the front: those of `root`, when it is above the entry. */
  ghost function Dropped(root: Node?, n: Node): nat
  {
    if root != null && root.path < n.path then |root.path| else 0
  }

  /** Is there a slash before the first name that is kept? */
  ghost predicate Slashed(t: Tree, n: Node, root: Node?, lead: Lead)
    requires t.Valid() && n in t.nodes
    reads t, t.nodes
  {
    lead == ForceSlash || (lead == Auto && (Dropped(root, n) > 0 || Absolute(t, n)))
  }

  /** The text of the path of an entry relative to `root`. */
  ghost function RelText(t: Tree, n: Node, root: Node?, lead: Lead): string
    requires t.Valid() && n in t.nodes
    reads t, t.nodes
  {
    Join(n.path[Dropped(root, n)..], Slashed(t, n, root, lead))
  }

  /** The buffer holds as much of `text` as fits. */
  ghost predicate Begun(b: seq<char>, length: nat, text: string) {
    length <= |b| && b[..Min(length, |text|)] == text[..Min(length, |text|)]
  }

  /** And its null if there is room. */
  ghost predicate Filled(b: seq<char>, length: nat, text: string) {
    Begun(b, length, text) && (|text| < length ==> b[|text|] == NUL)
  }

  /** Appending a slash and a name to a filled buffer. */
  lemma FilledAppend(b0: seq<char>, b1: seq<char>, length: nat, above: string, part: string, written: nat)
    requires Begun(b0, length, above)
    requires written == if |above| >= length then 0 else Min(length - |above|, |part| + 1)
    requires |b1| == |b0|
    requires written > 0 ==> b1 == b0[..|above|] + (part + [NUL])[..written] + b0[|above| + written..]
    requires written == 0 ==> b1 == b0
    ensures Filled(b1, length, above + part)
  {
    var text := above + part;
    if written > 0 {
      var m := Min(length, |text|);
      assert b1[..m] == text[..m];
    } else {
      assert text[..length] == above[..length];
    }
  }

  lemma Facts(t: Tree, n: Node)
    requires t.Valid() && n in t.nodes
    ensures t.root in t.nodes && t.root.path == []
    ensures n != t.root ==> n.parent != null && n.parent in t.nodes && n.path == n.parent.path + [n.name]
    ensures n != t.root && |n.path| > 1 ==> n.slash && (Absolute(t, n) <==> Absolute(t, n.parent))
    ensures n != t.root && |n.path| == 1 ==> (Absolute(t, n) <==> n.slash)
    ensures n != t.root ==> |n.path| > 0 && IsName(n.name)
  {
    assert t.Linked(n) && t.Linked(t.root);
  }

  lemma SamePath(t: Tree, a: Node, b: Node)
    requires t.Valid() && a in t.nodes && b in t.nodes
    ensures a.path == b.path <==> a == b
  {
  }

  lemma JoinOne(p: Path, k: nat, name: string, s: bool)
    requires k < |p| && p[k..] == [name]
    ensures Join(p[k..], s) == (if s then "/" else "") + name
  {
    assert [name][..0] == [];
    assert Join([name], s) == "" + (if s then "/" else "") + name;
  }

  /** The first name that is kept. */
  lemma RelTextFirst(t: Tree, n: Node, root: Node?, lead: Lead)
    requires t.Valid() && n in t.nodes && n != t.root && (root == null || root in t.nodes)
    requires n.parent == t.root || n.parent == root
    ensures RelText(t, n, root, lead) ==
            (if lead == ForceSlash || (lead == Auto && n.slash) then "/" else "") + n.name
  {
    hide Tree.Valid, Absolute, Join;
    Facts(t, n);
    var k := Dropped(root, n);
    if n.parent == t.root {
      assert n.path == [n.name] && k == 0;
    }
    assert n.path[k..] == [n.name];
    JoinOne(n.path, k, n.name, Slashed(t, n, root, lead));
  }

  lemma JoinMore(p: Path, q: Path, name: string, s: bool)
    requires p != [] && q == p + [name]
    ensures Join(q, s) == Join(p, s) + "/" + name
  {
    assert q[..|q| - 1] == p;
  }

  /** A further name, after those of the parent. */
  lemma RelTextNext(t: Tree, n: Node, root: Node?, lead: Lead)
    requires t.Valid() && n in t.nodes && n != t.root && (root == null || root in t.nodes)
    requires n.parent != t.root && n.parent != root
    ensures n.parent != null && n.parent in t.nodes && |n.parent.path| < |n.path|
    ensures RelText(t, n, root, lead) == RelText(t, n.parent, root, lead) + "/" + n.name
  {
    hide Tree.Valid, Absolute, Join;
    Facts(t, n);
    var p := n.parent;
    Facts(t, p);
    SamePath(t, p, t.root);
    if root != null {
      SamePath(t, root, p);
      AppendPrefix(root.path, p.path, n.name);
      if root.path < p.path { assert root.path < n.path; }
    }
    var k := Dropped(root, n);
    assert k == Dropped(root, p) && k < |p.path|;
    assert n.path[k..] == p.path[k..] + [n.name];
    JoinMore(p.path[k..], n.path[k..], n.name, Slashed(t, n, root, lead));
  }

  /** Writes the part of one name after what is written for the names above it, from `off` on. */
  method AppendName(buffer: array<char>, off: nat, length: nat, offset: nat, slash: bool, name: string, ghost above: string)
    requires off + length <= buffer.Length
    requires Begun(buffer[off..], length, above) && offset == |above|
    modifies buffer
    ensures Filled(buffer[off..], length, above + (if slash then "/" else "") + name)
    ensures buffer[..off] == old(buffer[..off])
    ensures forall i :: off + length <= i < buffer.Length ==> buffer[i] == old(buffer[i])
  {
    hide Filled;
    ghost var b := buffer[..];
    var part := (if slash then "/" else "") + name;
    ghost var written := if offset >= length then 0 else Min(length - offset, |part| + 1);
    if offset < length {
      var text := part + [NUL];
      var s := text[..Min(length - offset, |text|)];
      CopyIn(buffer, off + offset, s);
      assert buffer[off..] == b[off..][..offset] + s + b[off..][offset + |s|..];
      assert buffer[..off] == b[..off];
    }
    FilledAppend(b[off..], buffer[off..], length, above, part, written);
    assert above + part == above + (if slash then "/" else "") + name;
  }

  lemma NothingBegun(b: seq<char>, length: nat)
    requires length <= |b|
    ensures Begun(b, length, "")
  {
  }

  lemma FilledIsBegun(b: seq<char>, length: nat, text: string)
    requires Filled(b, length, text)
    ensures Begun(b, length, text)
  {
  }

  /** The entry has names of its own to write: it is neither the unnamed root nor the entry paths start from. */
  ghost predicate Named(t: Tree, entry: Node, root: Node?) {
    entry != t.root && entry != root
  }

  /**
   The path of an entry, written from `off` on: the length returned does not
   depend on the buffer, which receives the corresponding prefix of the text.
   For the entry paths start from, and for the unnamed root, nothing is written
   but perhaps a slash.
   */
  method RelPath(t: Tree, entry: Node, buffer: array<char>, off: nat, length: nat, root: Node?, lead: Lead) returns (result: nat)
    requires t.Valid() && entry in t.nodes && (root == null || root in t.nodes)
    requires off + length <= buffer.Length
    requires lead == ForceSlash && !Named(t, entry, root) ==> entry == root && 0 < length
    modifies buffer
    ensures Named(t, entry, root) ==>
              result == |RelText(t, entry, root, lead)| && Filled(buffer[off..], length, RelText(t, entry, root, lead))
    ensures !Named(t, entry, root) ==>
              var slash := lead == ForceSlash && entry.name != "";
              && result == (if lead == ForceSlash then 1 else 0)
              && buffer[..] == if slash then old(buffer[..])[off := '/'] else old(buffer[..])
    ensures buffer[..off] == old(buffer[..off])
    ensures forall i :: off + length <= i < buffer.Length ==> buffer[i] == old(buffer[i])
    decreases |entry.path|
  {
    hide RelText, Tree.Valid, Filled, Begun, Distinct;
    if entry == root || entry == t.root {
      result := 0;
      if lead == ForceSlash {
        if |entry.name| > 0 {
          buffer[off] := '/';
        }
        result := 1;
      }
      return;
    }
    ParentOf(t, entry);
    var parent := entry.parent;
    if parent == root || parent == t.root {
      RelTextFirst(t, entry, root, lead);
      NothingBegun(buffer[off..], length);
      var slash := lead == ForceSlash || (lead == Auto && entry.slash);
      AppendName(buffer, off, length, 0, slash, entry.name, "");
      assert "" + (if slash then "/" else "") + entry.name == (if slash then "/" else "") + entry.name;
      result := (if slash then 1 else 0) + |entry.name|;
    } else {
      RelTextNext(t, entry, root, lead);
      var offset := RelPath(t, parent, buffer, off, length, root, lead);
      FilledIsBegun(buffer[off..], length, RelText(t, parent, root, lead));
      AppendName(buffer, off, length, offset, true, entry.name, RelText(t, parent, root, lead));
      result := offset + 1 + |entry.name|;
    }
  }

  // ------------------------------------------------------------------ traversal

  /** One call of the callback: the entry and the text in the buffer. */
  datatype Visit = Visit(node: Node, text: string)

  function Nodes(log: seq<Visit>): (v: seq<Node>)
    ensures |v| == |log| && forall i :: 0 <= i < |log| ==> v[i] == log[i].node
  {
    seq(|log|, i requires 0 <= i < |log| => log[i].node)
  }

  /** The text one level further down. */
  function Extend(s: string, n: Node): string {
    if n.name == "" then s else s + (if s != "" || n.slash then "/" else "") + n.name
  }

  /** The text for `m` when the walk starts at `start` with `base` in the buffer. */
  ghost function Spell(t: Tree, base: string, silent: bool, start: Node, m: Node): string
    requires t.Valid() && m in t.nodes && start in t.nodes && start.path <= m.path
    reads t, t.nodes
    decreases |m.path|
  {
    if m == start then (if silent then base else Extend(base, m))
    else
      Up(t, start, m);
      Extend(Spell(t, base, silent, start, m.parent), m)
  }

  lemma Up(t: Tree, start: Node, m: Node)
    requires t.Valid() && m in t.nodes && start in t.nodes && start.path <= m.path && m != start
    ensures m != t.root && m.parent != null && m.parent in t.nodes && |m.parent.path| < |m.path|
    ensures start.path <= m.parent.path
  {
    assert t.Linked(t.root) && t.Linked(m);
    assert start.path != m.path;
    assert |m.path| > 0;
    AppendPrefix(start.path, m.parent.path, m.name);
  }

  /** Going through a child of the start. */
  lemma {:induction false} SpellThrough(t: Tree, base: string, silent: bool, start: Node, c: Node, m: Node)
    requires t.Valid() && start in t.nodes && c in start.children && m in Below(t, c)
    ensures c in t.nodes && start.path <= c.path <= m.path
    ensures Spell(t, base, silent, start, m) == Spell(t, Spell(t, base, silent, start, start), false, c, m)
    decreases |m.path|
  {
    hide Tree.Valid;
    ChildBelow(t, start, c);
    assert m in Below(t, start) - {start};
    Up(t, start, m);
    if m != c {
      Up(t, c, m);
      SpellThrough(t, base, silent, start, c, m.parent);
    }
  }

  /** What one call of the walk promises about its log. */
  ghost predicate Spelled(t: Tree, base: string, silent: bool, n: Node, log: seq<Visit>)
    requires t.Valid() && n in t.nodes
    reads t, t.nodes
  {
    forall i :: 0 <= i < |log| ==>
      log[i].node in Below(t, n) && log[i].text == Spell(t, base, silent, n, log[i].node)
  }

  /** The guard of the walk: there must be room for the name, for a slash before it even if none is written, and for a null. */
  predicate Room(before: nat, n: Node, size: nat) {
    n.name == "" || before + |n.name| + 2 <= size
  }

  /** The length of the text the walk finds when it reaches `m`. */
  ghost function LengthBefore(t: Tree, base: string, silent: bool, start: Node, m: Node): nat
    requires t.Valid() && m in t.nodes && start in t.nodes && start.path <= m.path
    reads t, t.nodes
  {
    if m == start then |base| else Up(t, start, m); |Spell(t, base, silent, start, m.parent)|
  }

  /** No entry at or below `n` is refused. */
  ghost predicate Fits(t: Tree, base: string, silent: bool, n: Node, size: nat)
    requires t.Valid() && n in t.nodes
    reads t, t.nodes
  {
    forall m :: m in Below(t, n) && !(silent && m == n) ==> Room(LengthBefore(t, base, silent, n, m), m, size)
  }

  /** After a slash that is written, the text and its null must fit. */
  lemma RoomForText(t: Tree, base: string, silent: bool, start: Node, m: Node, size: nat)
    requires t.Valid() && m in t.nodes && start in t.nodes && start.path <= m.path && m != start
    ensures m.parent != null && m.parent in t.nodes && start.path <= m.parent.path
    ensures m.slash || Spell(t, base, silent, start, m.parent) != "" ==>
              (Room(LengthBefore(t, base, silent, start, m), m, size) <==> |Spell(t, base, silent, start, m)| < size)
  {
    Up(t, start, m);
    Facts(t, m);
  }

  lemma SpelledMore(t: Tree, base: string, silent: bool, n: Node, c: Node, log: seq<Visit>, sub: seq<Visit>)
    requires t.Valid() && n in t.nodes && c in n.children && c in t.nodes
    requires Spelled(t, base, silent, n, log)
    requires Spelled(t, Spell(t, base, silent, n, n), false, c, sub)
    ensures Spelled(t, base, silent, n, log + sub)
    ensures forall i :: 0 <= i < |sub| ==> sub[i].node != n
  {
    hide Tree.Valid, Spell;
    forall i | 0 <= i < |sub|
      ensures sub[i].node in Below(t, n) && sub[i].text == Spell(t, base, silent, n, sub[i].node)
      ensures sub[i].node != n
    {
      ChildBelow(t, n, c);
      SpellThrough(t, base, silent, n, c, sub[i].node);
    }
  }

  lemma FitsChild(t: Tree, base: string, silent: bool, n: Node, c: Node, m: Node, size: nat)
    requires t.Valid() && n in t.nodes && c in n.children && m in Below(t, c)
    ensures c in t.nodes && n.path <= c.path <= m.path && m in Below(t, n) && m != n
    ensures LengthBefore(t, base, silent, n, m) == LengthBefore(t, Spell(t, base, silent, n, n), false, c, m)
  {
    hide Tree.Valid, Spell;
    ChildBelow(t, n, c);
    SpellThrough(t, base, silent, n, c, m);
    Up(t, n, m);
    if m != c {
      Up(t, c, m);
      SpellThrough(t, base, silent, n, c, m.parent);
    }
  }

  /** Spelling with the start's own name is spelling with that name already in the base. */
  lemma {:induction false} SpellLoud(t: Tree, base: string, n: Node, m: Node)
    requires t.Valid() && n in t.nodes && m in Below(t, n)
    ensures Spell(t, base, false, n, m) == Spell(t, Extend(base, n), true, n, m)
    ensures m != n ==> LengthBefore(t, base, false, n, m) == LengthBefore(t, Extend(base, n), true, n, m)
    decreases |m.path|
  {
    hide Tree.Valid;
    if m != n {
      Up(t, n, m);
      SpellLoud(t, base, n, m.parent);
    }
  }

  /** What a walk did: whether it came to its end, and its calls in order. */
  datatype Walked = Walked(ok: bool, log: seq<Visit>)

  /** The walk from `n` with `base` in the buffer, up to the first entry that is refused. */
  ghost function Trail(t: Tree, base: string, n: Node, before: bool, onlyAdded: bool, size: nat): Walked
    requires t.Valid() && n in t.nodes
    reads t, t.nodes
    decreases |Below(t, n)|, 1, 0
  {
    if !Room(|base|, n, size) then Walked(false, [])
    else Emitted(n, Extend(base, n), before, onlyAdded, TrailKids(t, Extend(base, n), n, |n.children|, before, onlyAdded, size))
  }

  /** The call for the entry itself, before or after those below it. */
  ghost function Emitted(n: Node, text: string, before: bool, onlyAdded: bool, kids: Walked): Walked
    reads n
  {
    if !Selected(onlyAdded, n) then kids
    else if before then kids.(log := [Visit(n, text)] + kids.log)
    else if kids.ok then kids.(log := kids.log + [Visit(n, text)])
    else kids
  }

  /** The walk over the first `k` children of `n`, whose text is in the buffer. */
  ghost function TrailKids(t: Tree, text: string, n: Node, k: nat, before: bool, onlyAdded: bool, size: nat): Walked
    requires t.Valid() && n in t.nodes && k <= |n.children|
    reads t, t.nodes
    decreases |Below(t, n)|, 0, k
  {
    if k == 0 then Walked(true, [])
    else
      var done := TrailKids(t, text, n, k - 1, before, onlyAdded, size);
      ChildBelow(t, n, n.children[k - 1]);
      Then(done, Trail(t, text, n.children[k - 1], before, onlyAdded, size))
  }

  function Then(done: Walked, more: Walked): Walked {
    if done.ok then Walked(more.ok, done.log + more.log) else done
  }

  lemma TrailIs(t: Tree, base: string, n: Node, before: bool, onlyAdded: bool, size: nat)
    requires t.Valid() && n in t.nodes
    ensures Trail(t, base, n, before, onlyAdded, size) ==
            if !Room(|base|, n, size) then Walked(false, [])
            else Emitted(n, Extend(base, n), before, onlyAdded, TrailKids(t, Extend(base, n), n, |n.children|, before, onlyAdded, size))
    ensures TrailKids(t, base, n, 0, before, onlyAdded, size) == Walked(true, [])
  {
  }

  lemma TrailNext(t: Tree, text: string, n: Node, k: nat, before: bool, onlyAdded: bool, size: nat)
    requires t.Valid() && n in t.nodes && k < |n.children|
    ensures n.children[k] in t.nodes && |Below(t, n.children[k])| < |Below(t, n)|
    ensures TrailKids(t, text, n, k + 1, before, onlyAdded, size) ==
            Then(TrailKids(t, text, n, k, before, onlyAdded, size), Trail(t, text, n.children[k], before, onlyAdded, size))
  {
    ChildBelow(t, n, n.children[k]);
  }

  // -------------------------------------------------------- what a walk visits

  /** A walk is a prefix of the unbounded one, and all of it when nothing is refused. */
  ghost predicate Leads(w: Walked, all: seq<Node>) {
    Nodes(w.log) <= all && (w.ok ==> Nodes(w.log) == all)
  }

  lemma NodesConcat(v: seq<Visit>, w: seq<Visit>)
    ensures Nodes(v + w) == Nodes(v) + Nodes(w)
    ensures Nodes([]) == []
  {
  }

  lemma NodesOne(v: Visit)
    ensures Nodes([v]) == [v.node]
  {
  }

  lemma LeadsThen(done: Walked, more: Walked, all: seq<Node>, next: seq<Node>)
    requires Leads(done, all) && Leads(more, next)
    ensures Leads(Then(done, more), all + next)
  {
    NodesConcat(done.log, more.log);
  }

  lemma LeadsEmitted(n: Node, text: string, before: bool, onlyAdded: bool, kids: Walked, all: seq<Node>)
    requires Leads(kids, all)
    ensures Leads(Emitted(n, text, before, onlyAdded, kids), Around(n, before, onlyAdded, all))
  {
    NodesConcat([Visit(n, text)], kids.log);
    NodesConcat(kids.log, [Visit(n, text)]);
    NodesOne(Visit(n, text));
  }

  lemma {:induction false} TrailLeads(t: Tree, base: string, n: Node, before: bool, onlyAdded: bool, size: nat)
    requires t.Valid() && n in t.nodes
    ensures Leads(Trail(t, base, n, before, onlyAdded, size), Order(t, n, before, onlyAdded))
    decreases |Below(t, n)|, 1, 0
  {
    hide Tree.Valid, Order, OrderKids, Trail, TrailKids, Leads, Below, Emitted, Around;
    TrailIs(t, base, n, before, onlyAdded, size);
    OrderIs(t, n, before, onlyAdded);
    if Room(|base|, n, size) {
      var text := Extend(base, n);
      TrailKidsLead(t, text, n, |n.children|, before, onlyAdded, size);
      LeadsEmitted(n, text, before, onlyAdded, TrailKids(t, text, n, |n.children|, before, onlyAdded, size),
                   OrderKids(t, n, |n.children|, before, onlyAdded));
    } else {
      LeadsNothing(Order(t, n, before, onlyAdded));
    }
  }

  lemma LeadsNothing(all: seq<Node>)
    ensures Leads(Walked(false, []), all) && Leads(Walked(true, []), [])
  {
  }

  lemma {:induction false} TrailKidsLead(t: Tree, text: string, n: Node, k: nat, before: bool, onlyAdded: bool, size: nat)
    requires t.Valid() && n in t.nodes && k <= |n.children|
    ensures Leads(TrailKids(t, text, n, k, before, onlyAdded, size), OrderKids(t, n, k, before, onlyAdded))
    decreases |Below(t, n)|, 0, k
  {
    hide Tree.Valid, Order, OrderKids, Trail, TrailKids, Leads, Below, Then;
    if k == 0 {
      TrailIs(t, text, n, before, onlyAdded, size);
      OrderIs(t, n, before, onlyAdded);
      LeadsNothing([]);
    } else {
      TrailNext(t, text, n, k - 1, before, onlyAdded, size);
      OrderNext(t, n, k - 1, before, onlyAdded);
      TrailKidsLead(t, text, n, k - 1, before, onlyAdded, size);
      TrailLeads(t, text, n.children[k - 1], before, onlyAdded, size);
      LeadsThen(TrailKids(t, text, n, k - 1, before, onlyAdded, size), Trail(t, text, n.children[k - 1], before, onlyAdded, size),
                OrderKids(t, n, k - 1, before, onlyAdded), Order(t, n.children[k - 1], before, onlyAdded));
    }
  }

  /** When entries are not sorted out, a walk that is stopped misses some. */
  lemma {:induction false} TrailMisses(t: Tree, base: string, n: Node, before: bool, size: nat)
    requires t.Valid() && n in t.nodes && !Trail(t, base, n, before, false, size).ok
    ensures |Trail(t, base, n, before, false, size).log| < |Order(t, n, before, false)|
    decreases |Below(t, n)|, 1, 0
  {
    hide Tree.Valid, Order, OrderKids, Trail, TrailKids, Below;
    TrailIs(t, base, n, before, false, size);
    OrderIs(t, n, before, false);
    if Room(|base|, n, size) {
      TrailKidsMiss(t, Extend(base, n), n, |n.children|, before, size);
    }
  }

  lemma {:induction false} TrailKidsMiss(t: Tree, text: string, n: Node, k: nat, before: bool, size: nat)
    requires t.Valid() && n in t.nodes && k <= |n.children| && !TrailKids(t, text, n, k, before, false, size).ok
    ensures |TrailKids(t, text, n, k, before, false, size).log| < |OrderKids(t, n, k, before, false)|
    decreases |Below(t, n)|, 0, k
  {
    hide Tree.Valid, Order, OrderKids, Trail, TrailKids, Below;
    TrailIs(t, text, n, before, false, size);
    if k > 0 {
      TrailNext(t, text, n, k - 1, before, false, size);
      OrderNext(t, n, k - 1, before, false);
      if TrailKids(t, text, n, k - 1, before, false, size).ok {
        TrailMisses(t, text, n.children[k - 1], before, size);
        TrailKidsLead(t, text, n, k - 1, before, false, size);
      } else {
        TrailKidsMiss(t, text, n, k - 1, before, size);
      }
    }
  }

  /** Every call sees the spelling of its entry, with room for its null. */
  ghost predicate Told(t: Tree, base: string, silent: bool, n: Node, log: seq<Visit>, size: nat)
    requires t.Valid() && n in t.nodes
    reads t, t.nodes
  {
    && Spelled(t, base, silent, n, log)
    && (forall i :: 0 <= i < |log| ==> |log[i].text| < size)
    && (silent ==> forall i :: 0 <= i < |log| ==> log[i].node != n)
  }

  lemma ToldLoud(t: Tree, base: string, n: Node, kids: Walked, before: bool, onlyAdded: bool, size: nat)
    requires t.Valid() && n in t.nodes && Told(t, Extend(base, n), true, n, kids.log, size) && |Extend(base, n)| < size
    ensures Told(t, base, false, n, Emitted(n, Extend(base, n), before, onlyAdded, kids).log, size)
  {
    hide Tree.Valid, Extend;
    SelfBelow(t, n);
    forall m | m in Below(t, n)
      ensures Spell(t, base, false, n, m) == Spell(t, Extend(base, n), true, n, m)
    {
      SpellLoud(t, base, n, m);
    }
  }

  lemma ToldMore(t: Tree, text: string, n: Node, c: Node, done: Walked, more: Walked, size: nat)
    requires t.Valid() && n in t.nodes && c in n.children && c in t.nodes
    requires Told(t, text, true, n, done.log, size) && Told(t, text, false, c, more.log, size)
    ensures Told(t, text, true, n, Then(done, more).log, size)
  {
    hide Tree.Valid, Spell;
    SpellSelf(t, text, n);
    SpelledMore(t, text, true, n, c, done.log, more.log);
  }

  lemma SpellSelf(t: Tree, base: string, n: Node)
    requires t.Valid() && n in t.nodes
    ensures Spell(t, base, true, n, n) == base && Spell(t, base, false, n, n) == Extend(base, n)
  {
  }

  lemma ToldNothing(t: Tree, base: string, silent: bool, n: Node, size: nat)
    requires t.Valid() && n in t.nodes
    ensures Told(t, base, silent, n, [], size)
  {
  }

  lemma {:induction false} TrailTells(t: Tree, base: string, n: Node, before: bool, onlyAdded: bool, size: nat)
    requires t.Valid() && n in t.nodes && |base| < size
    ensures Told(t, base, false, n, Trail(t, base, n, before, onlyAdded, size).log, size)
    decreases |Below(t, n)|, 1, 0
  {
    hide Tree.Valid, Trail, TrailKids, Told, Below, Emitted;
    TrailIs(t, base, n, before, onlyAdded, size);
    if Room(|base|, n, size) {
      TrailKidsTell(t, Extend(base, n), n, |n.children|, before, onlyAdded, size);
      ToldLoud(t, base, n, TrailKids(t, Extend(base, n), n, |n.children|, before, onlyAdded, size), before, onlyAdded, size);
    } else {
      ToldNothing(t, base, false, n, size);
    }
  }

  lemma {:induction false} TrailKidsTell(t: Tree, text: string, n: Node, k: nat, before: bool, onlyAdded: bool, size: nat)
    requires t.Valid() && n in t.nodes && k <= |n.children| && |text| < size
    ensures Told(t, text, true, n, TrailKids(t, text, n, k, before, onlyAdded, size).log, size)
    decreases |Below(t, n)|, 0, k
  {
    hide Tree.Valid, Trail, TrailKids, Told, Below, Then;
    if k == 0 {
      TrailIs(t, text, n, before, onlyAdded, size);
      ToldNothing(t, text, true, n, size);
    } else {
      TrailNext(t, text, n, k - 1, before, onlyAdded, size);
      TrailKidsTell(t, text, n, k - 1, before, onlyAdded, size);
      TrailTells(t, text, n.children[k - 1], before, onlyAdded, size);
      ToldMore(t, text, n, n.children[k - 1], TrailKids(t, text, n, k - 1, before, onlyAdded, size),
               Trail(t, text, n.children[k - 1], before, onlyAdded, size), size);
    }
  }

  // ------------------------------------------------------------ when it is complete

  ghost predicate FitsKids(t: Tree, text: string, n: Node, k: nat, size: nat)
    requires t.Valid() && n in t.nodes && k <= |n.children|
    reads t, t.nodes
  {
    forall i :: 0 <= i < k ==> n.children[i] in t.nodes && Fits(t, text, false, n.children[i], size)
  }

  /** What lies below an entry fits exactly when what lies at and below its children does. */
  lemma FitsAll(t: Tree, text: string, n: Node, size: nat)
    requires t.Valid() && n in t.nodes
    ensures FitsKids(t, text, n, |n.children|, size) <==> Fits(t, text, true, n, size)
  {
    hide Tree.Valid, Spell, LengthBefore;
    SpellSelf(t, text, n);
    if FitsKids(t, text, n, |n.children|, size) {
      forall m | m in Below(t, n) && m != n
        ensures Room(LengthBefore(t, text, true, n, m), m, size)
      {
        var c := BelowChild(t, n, m);
        FitsChild(t, text, true, n, c, m, size);
      }
    }
    if Fits(t, text, true, n, size) {
      forall i | 0 <= i < |n.children|
        ensures n.children[i] in t.nodes && Fits(t, text, false, n.children[i], size)
      {
        var c := n.children[i];
        ChildBelow(t, n, c);
        forall m | m in Below(t, c) ensures Room(LengthBefore(t, text, false, c, m), m, size) {
          FitsChild(t, text, true, n, c, m, size);
        }
      }
    }
  }

  /** An entry and what lies below it. */
  lemma FitsLoud(t: Tree, base: string, n: Node, size: nat)
    requires t.Valid() && n in t.nodes
    ensures Fits(t, base, false, n, size) <==> Room(|base|, n, size) && Fits(t, Extend(base, n), true, n, size)
  {
    hide Tree.Valid, Extend, Spell;
    SelfBelow(t, n);
    forall m | m in Below(t, n) && m != n
      ensures LengthBefore(t, base, false, n, m) == LengthBefore(t, Extend(base, n), true, n, m)
    {
      SpellLoud(t, base, n, m);
    }
    assert LengthBefore(t, base, false, n, n) == |base|;
  }

  /** The walk comes to its end exactly when no entry is refused. */
  lemma {:induction false} TrailFits(t: Tree, base: string, n: Node, before: bool, onlyAdded: bool, size: nat)
    requires t.Valid() && n in t.nodes
    ensures Trail(t, base, n, before, onlyAdded, size).ok <==> Fits(t, base, false, n, size)
    decreases |Below(t, n)|, 1, 0
  {
    hide Tree.Valid, Trail, TrailKids, Fits, FitsKids, Below;
    TrailIs(t, base, n, before, onlyAdded, size);
    FitsLoud(t, base, n, size);
    FitsAll(t, Extend(base, n), n, size);
    TrailKidsFit(t, Extend(base, n), n, |n.children|, before, onlyAdded, size);
  }

  lemma {:induction false} TrailKidsFit(t: Tree, text: string, n: Node, k: nat, before: bool, onlyAdded: bool, size: nat)
    requires t.Valid() && n in t.nodes && k <= |n.children|
    ensures TrailKids(t, text, n, k, before, onlyAdded, size).ok <==> FitsKids(t, text, n, k, size)
    decreases |Below(t, n)|, 0, k
  {
    hide Tree.Valid, Trail, TrailKids, Fits, Below;
    TrailIs(t, text, n, before, onlyAdded, size);
    if k > 0 {
      TrailNext(t, text, n, k - 1, before, onlyAdded, size);
      TrailKidsFit(t, text, n, k - 1, before, onlyAdded, size);
      TrailFits(t, text, n.children[k - 1], before, onlyAdded, size);
    }
  }

  // ------------------------------------------------------------------ the methods

  /** Writes the name of an entry after what the buffer holds; false when it is refused. */
  method Descend(n: Node, a: array<char>, off: nat, size: nat, len0: nat, ghost base: string) returns (ok: bool, len: nat)
    requires off + size <= a.Length && len0 < size && a[off..off + len0] == base
    modifies a
    ensures a[..off + len0] == old(a[..off + len0])
    ensures ok <==> Room(len0, n, size)
    ensures !ok ==> a[..] == old(a[..])
    ensures ok ==> len0 <= len < size && a[off..off + len] == Extend(base, n) && len == |Extend(base, n)|
  {
    len := len0;
    if |n.name| > 0 {
      if len + |n.name| + 2 > size {
        return false, len;
      }
      var part := (if len > 0 || n.slash then "/" else "") + n.name;
      ghost var b := a[..];
      CopyIn(a, off + len, part);
      assert a[..off + len0] == b[..off + len0];
      assert a[off..off + len0 + |part|] == b[off..off + len0] + part;
      assert base + part == Extend(base, n);
      len := len + |part|;
    }
    ok := true;
  }

  /** The walk over the children of an entry whose text is in the buffer. */
  method WalkChildren(t: Tree, n: Node, a: array<char>, off: nat, size: nat, len: nat, before: bool, onlyAdded: bool)
    returns (rc: int, log: seq<Visit>)
    requires t.Valid() && n in t.nodes
    requires off + size <= a.Length && len < size
    modifies a
    ensures a[..off + len] == old(a[..off + len])
    ensures rc == 0 || rc == -ENAMETOOLONG
    ensures Walked(rc == 0, log) == TrailKids(t, old(a[off..off + len]), n, |n.children|, before, onlyAdded, size)
    decreases |Below(t, n)|, 0
  {
    hide Tree.Valid, Below, Extend, Trail, TrailKids;
    ghost var hold := a[..off + len];
    ghost var base := a[off..off + len];
    log, rc := [], 0;
    TrailIs(t, base, n, before, onlyAdded, size);
    var k := 0;
    while k < |n.children|
      invariant k <= |n.children| && rc == 0
      invariant a[..off + len] == hold
      invariant Walked(true, log) == TrailKids(t, base, n, k, before, onlyAdded, size)
    {
      TrailNext(t, base, n, k, before, onlyAdded, size);
      assert a[off..off + len] == hold[off..];
      var sub;
      rc, sub := DoForEach(t, n.children[k], a, off, size, len, before, onlyAdded, false);
      log := log + sub;
      k := k + 1;
      if rc != 0 {
        TrailStops(t, base, n, k, before, onlyAdded, size);
        return;
      }
    }
  }

  /** After a refusal nothing more is walked. */
  lemma {:induction false} TrailStops(t: Tree, text: string, n: Node, k: nat, before: bool, onlyAdded: bool, size: nat)
    requires t.Valid() && n in t.nodes && k <= |n.children|
    requires !TrailKids(t, text, n, k, before, onlyAdded, size).ok
    ensures TrailKids(t, text, n, |n.children|, before, onlyAdded, size) == TrailKids(t, text, n, k, before, onlyAdded, size)
    decreases |n.children| - k
  {
    hide Tree.Valid, Trail, TrailKids;
    if k < |n.children| {
      TrailNext(t, text, n, k, before, onlyAdded, size);
      TrailStops(t, text, n, k + 1, before, onlyAdded, size);
    }
  }

  /**
   The walk with a path buffer. Its calls are those of `Trail`, and it comes to
   its end exactly when no entry is refused. Nothing before the starting text
   changes, and the text of the first entry, once written, stays.
   */
  method DoForEach(t: Tree, n: Node, a: array<char>, off: nat, size: nat, len0: nat, before: bool, onlyAdded: bool, silent: bool)
    returns (rc: int, log: seq<Visit>)
    requires t.Valid() && n in t.nodes
    requires off + size <= a.Length && len0 < size
    modifies a
    ensures a[..off + len0] == old(a[..off + len0])
    ensures rc == 0 || rc == -ENAMETOOLONG
    ensures var base := old(a[off..off + len0]);
            && Walked(rc == 0, log) == (if silent then TrailKids(t, base, n, |n.children|, before, onlyAdded, size)
                                        else Trail(t, base, n, before, onlyAdded, size))
            && (rc == 0 <==> Fits(t, base, silent, n, size))
            && Told(t, base, silent, n, log, size)
    ensures var base := old(a[off..off + len0]);
            var text := Extend(base, n);
            && (!silent && Room(len0, n, size) ==> |text| < size && a[off..off + |text|] == text)
            && (!silent && !Room(len0, n, size) ==> a[..] == old(a[..]) && log == [])
    decreases |Below(t, n)|, 1
  {
    hide Tree.Valid, Below, Extend, Fits, Told, Trail, TrailKids;
    ghost var keep := a[..off + len0];
    ghost var base := a[off..off + len0];
    if silent {
      rc, log := WalkChildren(t, n, a, off, size, len0, before, onlyAdded);
      TrailKidsTell(t, base, n, |n.children|, before, onlyAdded, size);
      TrailKidsFit(t, base, n, |n.children|, before, onlyAdded, size);
      FitsAll(t, base, n, size);
      return;
    }
    TrailIs(t, base, n, before, onlyAdded, size);
    TrailTells(t, base, n, before, onlyAdded, size);
    TrailFits(t, base, n, before, onlyAdded, size);
    var ok, len := Descend(n, a, off, size, len0, base);
    if !ok {
      return -ENAMETOOLONG, [];
    }
    assert a[..off + len][..off + len0] == keep;
    var emit := !onlyAdded || n.added;
    var text := a[off..off + len];
    if emit && before {
      a[off + len] := NUL;
    }
    ghost var hold := a[..off + len];
    assert hold[..off + len0] == keep && hold[off..] == text;
    assert a[off..off + len] == hold[off..];
    rc, log := WalkChildren(t, n, a, off, size, len, before, onlyAdded);
    assert a[..off + len0] == hold[..off + len0] && a[off..off + len] == hold[off..];
    if emit && before {
      log := [Visit(n, text)] + log;
    } else if emit && rc == 0 {
      a[off + len] := NUL;
      assert a[..off + len] == hold;
      assert a[off..off + len] == hold[off..] && a[..off + len0] == hold[..off + len0];
      text := a[off..off + len];
      log := log + [Visit(n, text)];
    }
  }
}
