/**
 Digests of file lists (src/cert/digest.c, src/cert/signature-name.c): what
 the maker writes and what the checker accepts. The hash of a file, by the
 path that is opened, is the parameter `hash`.
 */
module Digest {
  import opened Options

  // ------------------------------------------------------------------- hash text

  datatype Algorithm = SHA224 | SHA256 | SHA384 | SHA512

  /** Length of a hash in bytes. */
  function HashLength(a: Algorithm): nat {
    match a
    case SHA224 => 28
    case SHA256 => 32
    case SHA384 => 48
    case SHA512 => 64
  }

  /** The algorithm is deduced from the length of the text of the hash. */
  function AlgorithmOf(n: nat): Option<Algorithm> {
    if n == 56 then Some(SHA224)
    else if n == 64 then Some(SHA256)
    else if n == 96 then Some(SHA384)
    else if n == 128 then Some(SHA512)
    else None
  }

  predicate IsByte(c: char) {
    c as int < 256
  }

  predicate IsHex(c: char) {
    '0' <= c <= '9' || 'a' <= c <= 'f'
  }

  function HexDigit(v: nat): (c: char)
    requires v < 16
    ensures IsHex(c)
  {
    if v <= 9 then ('0' as int + v) as char else ('a' as int - 10 + v) as char
  }

  lemma HexDigitInjective(v: nat, w: nat)
    requires v < 16 && w < 16 && HexDigit(v) == HexDigit(w)
    ensures v == w
  {
  }

  predicate Bytes(s: seq<char>) {
    forall i :: 0 <= i < |s| ==> IsByte(s[i])
  }

  /** Two digits for each byte. */
  function Hex(s: seq<char>): (h: string)
    requires Bytes(s)
    ensures |h| == 2 * |s| && forall i :: 0 <= i < |h| ==> IsHex(h[i])
  {
    if s == [] then []
    else [HexDigit(s[0] as int / 16), HexDigit(s[0] as int % 16)] + Hex(s[1..])
  }

  /** Distinct hashes have distinct texts. */
  lemma {:induction false} HexInjective(s: seq<char>, t: seq<char>)
    requires Bytes(s) && Bytes(t) && Hex(s) == Hex(t)
    ensures s == t
    decreases |s|
  {
    assert |s| == |t|;
    if s != [] {
      var a, b := s[0] as int, t[0] as int;
      assert Hex(s)[0] == HexDigit(a / 16) && Hex(t)[0] == HexDigit(b / 16);
      assert Hex(s)[1] == HexDigit(a % 16) && Hex(t)[1] == HexDigit(b % 16);
      HexDigitInjective(a / 16, b / 16);
      HexDigitInjective(a % 16, b % 16);
      assert Hex(s)[2..] == Hex(s[1..]) && Hex(t)[2..] == Hex(t[1..]);
      HexInjective(s[1..], t[1..]);
      assert s == [s[0]] + s[1..] && t == [t[0]] + t[1..];
    }
  }

  lemma HexFrom(s: seq<char>, n: nat)
    requires Bytes(s) && n < |s|
    ensures Hex(s[n..]) == [HexDigit(s[n] as int / 16), HexDigit(s[n] as int % 16)] + Hex(s[n + 1..])
  {
    assert s[n..][1..] == s[n + 1..];
  }

  lemma HexEnd(s: seq<char>)
    ensures s[|s|..] == [] && Hex([]) == []
  {
  }

  /** Expands the bytes at the head of a buffer into their text, in place and backwards. */
  method ExpandHex(value: array<char>, hashlen: nat)
    requires 2 * hashlen < value.Length && Bytes(value[..hashlen])
    modifies value
    ensures value[..2 * hashlen] == Hex(old(value[..hashlen])) && value[2 * hashlen] == '\0'
  {
    hide Hex;
    ghost var raw := value[..hashlen];
    HexEnd(raw);
    var n, idx: nat := hashlen, 2 * hashlen;
    value[idx] := '\0';
    while n > 0
      invariant n <= hashlen && idx == 2 * n
      invariant value[..n] == raw[..n]
      invariant value[idx..2 * hashlen] == Hex(raw[n..]) && value[2 * hashlen] == '\0'
    {
      n := n - 1;
      var high := value[n] as int;
      assert value[n] == value[..n + 1][n] == raw[n] && IsByte(raw[n]);
      ghost var tail := value[idx..2 * hashlen];
      idx := idx - 2;
      value[idx + 1] := HexDigit(high % 16);
      value[idx] := HexDigit(high / 16);
      HexFrom(raw, n);
      assert value[idx..2 * hashlen] == [HexDigit(high / 16), HexDigit(high % 16)] + tail;
    }
    assert raw[0..] == raw;
  }

  // ------------------------------------------------------------- signature names

  datatype Signature = Plain | Author | Distributor

  const PREFIX := "signature-"
  const EXTENSION := ".p7"

  /** The file name of a path. */
  function Base(s: string): string {
    if '/' !in s then s else Base(s[1..])
  }

  /** Is the name that of a signature, by whom? */
  function KindOf(s: string): Signature {
    var b := Base(s);
    var n := |b| - |EXTENSION|;
    if n >= |PREFIX| && b[n..] == EXTENSION && b[..|PREFIX|] == PREFIX then
      if b[|PREFIX|..n] == "author" then Author else Distributor
    else Plain
  }

  lemma {:induction false} BaseIs(s: string, k: nat)
    requires k <= |s| && '/' !in s[k..] && (k > 0 ==> s[k - 1] == '/')
    ensures Base(s) == s[k..]
    decreases k
  {
    if k > 0 {
      assert s[k - 1] in s;
      assert s[1..][k - 1..] == s[k..];
      if k > 1 { assert s[1..][k - 2] == s[k - 1]; }
      BaseIs(s[1..], k - 1);
    }
  }

  /** Recognises the names of signatures. */
  method SignatureType(path: string) returns (kind: Signature)
    ensures kind == KindOf(path)
  {
    kind := Plain;
    if |path| >= |EXTENSION| && path[|path| - |EXTENSION|..] == EXTENSION {
      var posext: nat := |path| - |EXTENSION|;
      var posbeg: nat := posext;
      while posbeg > 0 && path[posbeg - 1] != '/'
        invariant posbeg <= posext && '/' !in path[posbeg..]
      {
        posbeg := posbeg - 1;
        assert path[posbeg..] == [path[posbeg]] + path[posbeg + 1..];
      }
      BaseIs(path, posbeg);
      var b := path[posbeg..];
      assert b[posext - posbeg..] == path[posext..];
      if posext - posbeg >= |PREFIX| && path[posbeg..posbeg + |PREFIX|] == PREFIX {
        assert b[..|PREFIX|] == path[posbeg..posbeg + |PREFIX|];
        posbeg := posbeg + |PREFIX|;
        assert b[|PREFIX|..|b| - |EXTENSION|] == path[posbeg..posext];
        kind := if path[posbeg..posext] == "author" then Author else Distributor;
      } else {
        assert |b| - |EXTENSION| >= |PREFIX| ==> b[..|PREFIX|] == path[posbeg..posbeg + |PREFIX|];
      }
    } else {
      NoExtension(path);
    }
  }

  lemma {:induction false} BaseEnds(s: string)
    ensures |Base(s)| <= |s| && Base(s) == s[|s| - |Base(s)|..] && '/' !in Base(s)
  {
    if '/' in s {
      BaseEnds(s[1..]);
      var k := |s| - |Base(s)|;
      assert s[1..][k - 1..] == s[k..];
    }
  }

  lemma NoExtension(s: string)
    requires |s| < |EXTENSION| || s[|s| - |EXTENSION|..] != EXTENSION
    ensures KindOf(s) == Plain
  {
    BaseEnds(s);
    var b := Base(s);
    var n := |b| - |EXTENSION|;
    if n >= 0 {
      assert b[n..] == s[|s| - |EXTENSION|..];
    }
  }

  /** The name made for a signer is recognised as such. */
  lemma MadeNameRecognised(dir: string, name: string)
    requires '/' !in name && (dir != "" ==> dir[|dir| - 1] == '/')
    ensures KindOf(dir + PREFIX + name + EXTENSION) == if name == "author" then Author else Distributor
  {
    var b := PREFIX + name + EXTENSION;
    var s := dir + PREFIX + name + EXTENSION;
    assert s == dir + b && s[|dir|..] == b && '/' !in b;
    BaseIs(s, |dir|);
    var n := |b| - |EXTENSION|;
    assert b[n..] == EXTENSION && b[..|PREFIX|] == PREFIX && b[|PREFIX|..n] == name;
  }

  /** Signatures are the files named signature-<name>.p7, the author's that of the name author; all others are plain. */
  lemma SignatureNames(dir: string, b: string)
    requires '/' !in b && (dir != "" ==> dir[|dir| - 1] == '/')
    ensures KindOf(dir + b) == Author <==> b == "signature-author.p7"
    ensures KindOf(dir + b) != Plain <==> exists name: string :: b == "signature-" + name + ".p7"
  {
    var s := dir + b;
    assert s[|dir|..] == b;
    BaseIs(s, |dir|);
    var n := |b| - 3;
    if KindOf(s) != Plain {
      var name := b[10..n];
      assert b == b[..10] + name + b[n..];
      assert b == "signature-" + name + ".p7";
    }
    if name: string :| b == "signature-" + name + ".p7" {
      assert b[n..] == ".p7" && b[..10] == "signature-" && b[10..n] == name;
    }
    assert "signature-" + "author" + ".p7" == "signature-author.p7";
    if b == "signature-author.p7" { assert b[n..] == ".p7" && b[..10] == "signature-" && b[10..n] == "author"; }
  }

  /** Two lower-case digits for each byte, the high one first. */
  lemma HexWritten(b: char, c: char)
    requires IsByte(b) && IsByte(c)
    ensures var digits := "0123456789abcdef";
            Hex([b, c]) == [digits[b as int / 16], digits[b as int % 16], digits[c as int / 16], digits[c as int % 16]]
  {
    assert [b, c][1..] == [c] && [c][1..] == [];
    DigitIs(b as int / 16);
    DigitIs(b as int % 16);
    DigitIs(c as int / 16);
    DigitIs(c as int % 16);
    assert Hex([c]) == [HexDigit(c as int / 16), HexDigit(c as int % 16)] + Hex([]);
  }

  lemma DigitIs(v: nat)
    requires v < 16
    ensures HexDigit(v) == "0123456789abcdef"[v]
  {
  }

  /** The length of a text tells the algorithm. */
  lemma TextLengths()
    ensures 2 * HashLength(SHA224) == 56 && 2 * HashLength(SHA256) == 64 && 2 * HashLength(SHA384) == 96 && 2 * HashLength(SHA512) == 128
    ensures AlgorithmOf(56) == Some(SHA224) && AlgorithmOf(64) == Some(SHA256) && AlgorithmOf(96) == Some(SHA384) && AlgorithmOf(128) == Some(SHA512)
  {
  }
}
