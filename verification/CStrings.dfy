/** Null-terminated strings inside character buffers. */
module CStrings {

  const NUL := '\0'

  /** The C string that starts at `p`. */
  function CStr(s: seq<char>, p: nat): string
    requires p <= |s|
    decreases |s| - p
  {
    if p == |s| || s[p] == NUL then "" else [s[p]] + CStr(s, p + 1)
  }

  /** There is a terminating null at or after `p`. */
  ghost predicate Ends(s: seq<char>, p: nat) {
    exists q :: p <= q < |s| && s[q] == NUL
  }

  /** A C string is the slice up to its null. */
  lemma {:induction false} CStrSlice(s: seq<char>, p: nat)
    requires p <= |s|
    ensures NUL !in CStr(s, p)
    ensures var n := |CStr(s, p)|;
            && p + n <= |s| && s[p..p + n] == CStr(s, p)
            && (p + n == |s| || s[p + n] == NUL)
    ensures Ends(s, p) ==> p + |CStr(s, p)| < |s|
    decreases |s| - p
  {
    if p == |s| || s[p] == NUL {
    } else {
      CStrSlice(s, p + 1);
      assert forall q :: p <= q < |s| && s[q] == NUL ==> p + 1 <= q;
    }
  }

  /** A null-free slice followed by a null is the C string. */
  lemma {:induction false} CStrIs(s: seq<char>, p: nat, q: nat)
    requires p <= q < |s| && s[q] == NUL
    requires forall i :: p <= i < q ==> s[i] != NUL
    ensures CStr(s, p) == s[p..q]
    decreases q - p
  {
    if p < q {
      CStrIs(s, p + 1, q);
    }
  }

  /** Buffers that agree from `p` on hold the same C string there. */
  lemma {:induction false} CStrAgree(s: seq<char>, t: seq<char>, p: nat)
    requires p <= |s| == |t|
    requires forall i :: p <= i < |s| ==> s[i] == t[i]
    ensures CStr(s, p) == CStr(t, p)
    decreases |s| - p
  {
    if p < |s| && s[p] != NUL {
      CStrAgree(s, t, p + 1);
    }
  }

  lemma NulStays(s: seq<char>, t: seq<char>, p: nat)
    requires |s| == |t| && Ends(s, p)
    requires forall i :: p <= i < |s| ==> s[i] == t[i]
    ensures Ends(t, p)
  {
    var q :| p <= q < |s| && s[q] == NUL;
    assert t[q] == NUL;
  }
}
