/**
 Allocation of application identifiers in a bitmap of 32-bit words
 (src/utils/manage-afid.c). The words refine a set of identifiers; the scan
 that skips full words returns the least free one.
 */
module Afid {

  const MIN := 1
  const MAX := 1999
  /** Number of words. */
  const WORDS := 63

  type Word = w: int | 0 <= w < 0x1_0000_0000

  const FULL: Word := 0xffff_ffff

  function Pow2(k: nat): (p: nat)
    ensures p > 0
  {
    if k == 0 then 1 else 2 * Pow2(k - 1)
  }

  /** Bit `s` of a word: shift right and mask. */
  predicate Bit(w: nat, s: nat) {
    (w / Pow2(s)) % 2 == 1
  }

  /** The word with bit `s` set: or with a shifted one. */
  function SetBit(w: nat, s: nat): nat {
    if Bit(w, s) then w else w + Pow2(s)
  }

  function Index(id: int): int {
    (id - MIN) / 32
  }

  function Shift(id: int): int {
    (id - MIN) % 32
  }

  // ----------------------------------------------------------- arithmetic of bits

  lemma Halves(w: nat, s: nat)
    ensures Bit(w, s + 1) <==> Bit(w / 2, s)
  {
    DivDiv(w, Pow2(s));
  }

  lemma DivDiv(w: nat, p: nat)
    requires p > 0
    ensures w / (2 * p) == (w / 2) / p
  {
    var q, r := (w / 2) / p, (w / 2) % p;
    assert w == 2 * (q * p + r) + w % 2;
    assert w == q * (2 * p) + (2 * r + w % 2);
    assert 0 <= 2 * r + w % 2 < 2 * p;
    Quotient(w, 2 * p, q, 2 * r + w % 2);
  }

  lemma Quotient(w: nat, d: nat, q: nat, r: nat)
    requires d > 0 && r < d && w == q * d + r
    ensures w / d == q
  {
    var n := w / d;
    assert n > q ==> n * d >= (q + 1) * d;
    assert n < q ==> (n + 1) * d <= q * d;
  }

  /** Setting a bit above the lowest is setting it in the half. */
  lemma SetBitHalf(w: nat, s: nat)
    requires s > 0
    ensures SetBit(w, s) / 2 == SetBit(w / 2, s - 1) && SetBit(w, s) % 2 == w % 2
  {
    Halves(w, s - 1);
    assert Pow2(s) == 2 * Pow2(s - 1);
  }

  lemma SetBitZero(w: nat)
    ensures SetBit(w, 0) / 2 == w / 2 && Bit(SetBit(w, 0), 0)
  {
  }

  /** Setting one bit sets that one and no other. */
  lemma {:induction false} SetBitIs(w: nat, s: nat, k: nat)
    ensures Bit(SetBit(w, s), k) <==> Bit(w, k) || k == s
    decreases k
  {
    hide Bit, SetBit;
    var v := SetBit(w, s);
    if s == 0 {
      SetBitZero(w);
      if k > 0 {
        Halves(w, k - 1);
        Halves(v, k - 1);
      }
    } else {
      SetBitHalf(w, s);
      if k > 0 {
        Halves(w, k - 1);
        Halves(v, k - 1);
        SetBitIs(w / 2, s - 1, k - 1);
      } else {
        LowBit(w);
        LowBit(v);
      }
    }
  }

  lemma LowBit(w: nat)
    ensures Bit(w, 0) <==> w % 2 == 1
  {
  }

  lemma {:induction false} SetBitFits(w: nat, s: nat, n: nat)
    requires s < n && w < Pow2(n)
    ensures SetBit(w, s) < Pow2(n)
    decreases n
  {
    if s > 0 {
      SetBitHalf(w, s);
      SetBitFits(w / 2, s - 1, n - 1);
    }
  }

  /** All the bits set is the full word, and nothing else is. */
  lemma {:induction false} AllBits(w: nat, n: nat)
    requires w < Pow2(n)
    ensures w == Pow2(n) - 1 <==> forall k :: 0 <= k < n ==> Bit(w, k)
    decreases n
  {
    if n > 0 {
      AllBits(w / 2, n - 1);
      assert w == 2 * (w / 2) + w % 2;
      if forall k :: 0 <= k < n ==> Bit(w, k) {
        assert Bit(w, 0);
        forall k | 0 <= k < n - 1 ensures Bit(w / 2, k) {
          assert Bit(w, k + 1);
          Halves(w, k);
        }
      }
      if w == Pow2(n) - 1 {
        forall k | 0 <= k < n ensures Bit(w, k) {
          if k > 0 { Halves(w, k - 1); assert Bit(w / 2, k - 1); }
        }
      }
    }
  }

  lemma Pow2Of32()
    ensures Pow2(32) == 0x1_0000_0000
  {
    assert Pow2(8) == 256;
    assert Pow2(16) == 65536;
    assert Pow2(24) == 16777216;
  }

  // -------------------------------------------------------------------- allocator

  class Manager {
    var initDone: bool
    const words: array<Word>
    /** Identifiers handed out since the bitmap was last rebuilt. */
    ghost var issued: set<int>

    ghost predicate Valid()
      reads this, words
    {
      words.Length == WORDS && issued <= Taken()
    }

    predicate Test(id: int)
      requires words.Length == WORDS && MIN <= id <= MAX
      reads words
    {
      Bit(words[Index(id)], Shift(id))
    }

    /** The set the words stand for. */
    ghost function Taken(): set<int>
      requires words.Length == WORDS
      reads this, words
    {
      set id | MIN <= id <= MAX && Test(id)
    }

    constructor ()
      ensures Valid() && !initDone && Taken() == {} && issued == {} && fresh(words)
    {
      initDone := false;
      words := new Word[WORDS](i => 0);
      issued := {};
    }

    /** Sets one identifier and no other. */
    method Set(id: int)
      requires words.Length == WORDS && MIN <= id <= MAX
      modifies words
      ensures Taken() == old(Taken()) + {id}
    {
      hide Bit, SetBit;
      Pow2Of32();
      SetBitFits(words[Index(id)], Shift(id), 32);
      forall k: nat ensures Bit(SetBit(words[Index(id)], Shift(id)), k) <==> Bit(words[Index(id)], k) || k == Shift(id) {
        SetBitIs(words[Index(id)], Shift(id), k);
      }
      words[Index(id)] := SetBit(words[Index(id)], Shift(id));
      forall x | MIN <= x <= MAX
        ensures Test(x) <==> old(Test(x)) || x == id
      {
        if Index(x) == Index(id) && Shift(x) == Shift(id) { assert x == id; }
      }
    }

    /** Rebuilds the bitmap from the identifiers found in the unit files. */
    method Update(found: seq<int>)
      requires words.Length == WORDS
      modifies this, words
      ensures Valid() && issued == {} && initDone == old(initDone)
      ensures Taken() == set id | id in found && MIN <= id <= MAX
    {
      hide Bit;
      issued := {};
      for i := 0 to WORDS
        invariant forall j :: 0 <= j < i ==> words[j] == 0
        invariant issued == {} && initDone == old(initDone)
      {
        words[i] := 0;
      }
      forall id | MIN <= id <= MAX ensures !Test(id) { NoBit(Shift(id)); }
      for k := 0 to |found|
        invariant Taken() == set id | id in found[..k] && MIN <= id <= MAX
        invariant issued == {} && initDone == old(initDone)
      {
        assert found[..k + 1] == found[..k] + [found[k]];
        if MIN <= found[k] <= MAX {
          Set(found[k]);
        }
      }
      assert found[..|found|] == found;
    }

    static lemma NoBit(s: nat)
      ensures !Bit(0, s)
    {
      Quotient(0, Pow2(s), 0, 0);
    }

    /** All the identifiers of a full word are taken. */
    lemma FullWord(id: int, x: int)
      requires words.Length == WORDS && MIN <= id <= MAX && MIN <= x <= MAX && Index(x) == Index(id)
      requires words[Index(id)] == FULL
      ensures Test(x)
    {
      hide Bit;
      Pow2Of32();
      AllBits(FULL, 32);
    }

    /** The least free identifier, or -1 exactly when there is none. */
    method FirstFree() returns (afid: int)
      requires words.Length == WORDS
      ensures afid == -1 || MIN <= afid <= MAX
      ensures afid == -1 <==> forall x :: MIN <= x <= MAX ==> x in Taken()
      ensures afid != -1 ==> afid !in Taken() && forall x :: MIN <= x < afid ==> x in Taken()
    {
      hide Bit;
      afid := MIN;
      while afid <= MAX && words[Index(afid)] == FULL
        invariant MIN <= afid <= MAX + 32 && Shift(afid) == 0
        invariant forall x :: MIN <= x < afid && x <= MAX ==> Test(x)
      {
        forall x | afid <= x < afid + 32 && x <= MAX ensures Test(x) { FullWord(afid, x); }
        afid := afid + 32;
      }
      while afid <= MAX && Test(afid)
        invariant MIN <= afid <= MAX + 32
        invariant forall x :: MIN <= x < afid && x <= MAX ==> Test(x)
      {
        afid := afid + 1;
      }
      if afid > MAX {
        afid := -1;
      } else {
        assert afid !in Taken();
      }
    }

    /** The identifiers in range among those found. */
    static ghost function Known(found: seq<int>): set<int> {
      set id | id in found && MIN <= id <= MAX
    }

    static ghost predicate Full(taken: set<int>) {
      forall x :: MIN <= x <= MAX ==> x in taken
    }

    /** What is taken when an identifier is chosen: what is known, or what a new scan finds when that is full. */
    static ghost function Base(taken: set<int>, known: bool, scan: seq<int>, again: seq<int>): set<int> {
      var first := if known then taken else Known(scan);
      if Full(first) then Known(again) else first
    }

    /**
     Hands out the least identifier that is free; `scan` and `again` are what the
     files hold when they are read, with the outcome of reading them.
     */
    method GetNew(scan: (seq<int>, int), again: (seq<int>, int)) returns (afid: int, ghost rebuilt: bool)
      requires Valid()
      modifies this, words
      ensures Valid() && initDone
      ensures afid >= 0 ==> MIN <= afid <= MAX && afid in issued
      ensures var base := Base(old(Taken()), old(initDone), scan.0, again.0);
              && (afid >= 0 ==> afid !in base && (forall x :: MIN <= x < afid ==> x in base) && Taken() == base + {afid})
              && (afid < 0 ==> Full(base) || (!old(initDone) && scan.1 < 0) || again.1 < 0)
      ensures !rebuilt && afid >= 0 ==>
                && afid !in old(Taken()) && Taken() == old(Taken()) + {afid}
                && afid !in old(issued) && issued == old(issued) + {afid}
      ensures !rebuilt ==> afid >= 0
      ensures rebuilt ==> !old(initDone) || Full(old(Taken()))
      ensures rebuilt ==> issued <= {afid}
    {
      hide Test;
      rebuilt := false;
      if !initDone {
        initDone := true;
        Update(scan.0);
        rebuilt := true;
        if scan.1 < 0 {
          return scan.1, true;
        }
      }
      afid := FirstFree();
      if afid < 0 {
        Update(again.0);
        rebuilt := true;
        if again.1 < 0 {
          return again.1, true;
        }
        afid := FirstFree();
      }
      if afid >= 0 {
        Set(afid);
        issued := issued + {afid};
      }
    }

    /** No rebuild happens after step `i`, up to and including step `j`. */
    static ghost predicate Undisturbed(rebuilds: seq<bool>, i: int, j: int) {
      forall k :: i < k <= j && 0 <= k < |rebuilds| ==> !rebuilds[k]
    }

    /** Any sequence of allocations: identifiers are distinct as long as the bitmap is not rebuilt. */
    method Serve(scans: seq<((seq<int>, int), (seq<int>, int))>) returns (ids: seq<int>, ghost rebuilds: seq<bool>)
      requires Valid()
      modifies this, words
      ensures |ids| == |rebuilds| == |scans|
      ensures forall i, j :: 0 <= i < j < |ids| && Undisturbed(rebuilds, i, j) && ids[i] >= 0 ==> ids[i] != ids[j]
    {
      hide Test;
      ids, rebuilds := [], [];
      for k := 0 to |scans|
        invariant Valid() && |ids| == |rebuilds| == k
        invariant forall i :: 0 <= i < k && Undisturbed(rebuilds, i, k - 1) && ids[i] >= 0 ==> ids[i] in issued
        invariant forall i, j :: 0 <= i < j < k && Undisturbed(rebuilds, i, j) && ids[i] >= 0 ==> ids[i] != ids[j]
      {
        ghost var before := rebuilds;
        var id;
        ghost var r;
        id, r := GetNew(scans[k].0, scans[k].1);
        ids, rebuilds := ids + [id], rebuilds + [r];
        forall i, j | 0 <= i < j <= k && Undisturbed(rebuilds, i, j)
          ensures Undisturbed(before, i, j) && (j == k ==> !r && Undisturbed(before, i, k - 1))
        {
          assert forall m :: 0 <= m < k ==> rebuilds[m] == before[m];
          assert rebuilds[k] == r;
        }
        forall i, j | 0 <= i < j < k && Undisturbed(rebuilds, i, j)
          ensures Undisturbed(before, i, j)
        {
        }
      }
    }
  }

  /** The identifiers there are, one bit each. */
  lemma RangeIs()
    ensures MIN == 1 && MAX == 1999 && 32 * (WORDS - 1) < 1999 <= 32 * WORDS
  {
  }
}
