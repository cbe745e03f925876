/** What may be missing. */
module Options {
  datatype Option<+T> = None | Some(value: T)
}

/** The error numbers the system gives, in its own names. */
module Errors {
  const ENOENT := 2
  const E2BIG := 7
  const EBADF := 9
  const ENOMEM := 12
  const EEXIST := 17
  const EINVAL := 22
  const ENAMETOOLONG := 36
  const ENOTEMPTY := 39
  const ENODATA := 61
  const ENOKEY := 126
}

module Limits {
  const PATH_MAX := 4096
}

module Sets {
  /** A subset has no more elements. */
  lemma {:induction false} SubsetCard<T>(a: set<T>, b: set<T>)
    requires a <= b
    ensures |a| <= |b|
  {
    if a != {} {
      var x :| x in a;
      SubsetCard(a - {x}, b - {x});
    }
  }
}

/** Texts cut at a character, and written into buffers. */
module TextLines {
  /** Length of the text before a character, or of all of it. */
  function UpTo(s: string, c: char): (n: nat)
    ensures n <= |s| && c !in s[..n] && (n < |s| ==> s[n] == c)
  {
    if s == "" || s[0] == c then 0 else 1 + UpTo(s[1..], c)
  }

  lemma {:induction false} UpToIs(a: string, c: char, b: string)
    requires c !in a
    ensures UpTo(a + [c] + b, c) == |a|
  {
    if a == "" {
      assert a + [c] + b == [c] + b;
    } else {
      assert (a + [c] + b)[1..] == a[1..] + [c] + b;
      UpToIs(a[1..], c, b);
    }
  }

  lemma {:induction false} UpToAll(s: string, c: char)
    requires c !in s
    ensures UpTo(s, c) == |s|
  {
    if s != "" { UpToAll(s[1..], c); }
  }

  /** Length of the first line, its newline left out. */
  function LineLength(t: string): (n: nat)
    ensures n <= |t| && '\n' !in t[..n] && (n < |t| ==> t[n] == '\n')
  {
    UpTo(t, '\n')
  }

  lemma LineLengthIs(a: string, b: string)
    requires '\n' !in a
    ensures LineLength(a + "\n" + b) == |a|
  {
    UpToIs(a, '\n', b);
  }

  /** Copies characters into a buffer. */
  method CopyIn(buffer: array<char>, offset: nat, s: string)
    requires offset + |s| <= buffer.Length
    modifies buffer
    ensures buffer[..] == old(buffer[..offset]) + s + old(buffer[offset + |s|..])
  {
    ghost var b := buffer[..];
    for i := 0 to |s|
      invariant buffer[..] == b[..offset] + s[..i] + b[offset + i..]
    {
      buffer[offset + i] := s[i];
    }
  }
}
