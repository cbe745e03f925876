/**
 The client side of the protocol (src/afmpkg/afmpkg-client.c): a message is
 built in a buffer, line by line. What an allocation holds before it is
 written is the parameter `junk`.
 */
module Client {
  import opened Errors
  import opened Options
  import opened Request
  import opened TextLines
  import opened Wire

  datatype Phase = Idle | Started | Complete

  datatype Once = RootDir | TransId | RedpakId

  const BUFFER0_SIZE := 4050
  const SIZE_LIMIT := 0x1_0000_0000_0000_0000
  const ITOALEN := 25
  const INT_MAX := 0x7fff_ffff

  // ---------------------------------------------------------------- the buffer

  /** The text built so far, the room for it, and whether the room is still the initial one. */
  datatype Room = Room(text: string, size: nat, initial: bool)

  function Junk(n: nat, junk: nat -> char): string {
    seq(n, i requires 0 <= i => junk(i))
  }

  /** The least doubling of a size that holds a position, or None if that overflows. */
  function Doubled(size: nat, pos: nat): (r: Option<nat>)
    requires size > 0
    ensures r.Some? ==> r.value > pos && r.value >= size
    decreases pos + 1 - size
  {
    if pos < size then Some(size)
    else if 2 * size >= SIZE_LIMIT then None
    else Doubled(2 * size, pos)
  }

  /**
   A line put after the text. Leaving the initial buffer does not copy it:
   the text so far is replaced by whatever the allocation holds.
   */
  function PutLine(b: Room, line: string, junk: nat -> char): (r: Option<Room>)
    requires b.size > 0
    ensures r.Some? ==> |r.value.text| == |b.text| + |line| + 1 < r.value.size
  {
    var pos := |b.text| + |line| + 1;
    if pos < b.size then Some(b.(text := b.text + line + "\n"))
    else
      var size := Doubled(b.size, pos);
      if size == None then None
      else Some(Room((if b.initial then Junk(|b.text|, junk) else b.text) + line + "\n", size.value, false))
  }

  function PutLines(b: Room, lines: seq<string>, junk: nat -> char): (r: Option<Room>)
    requires b.size > 0
    ensures r.Some? ==> r.value.size > 0
  {
    if lines == [] then Some(b)
    else
      var n := |lines| - 1;
      var c := PutLines(b, lines[..n], junk);
      if c == None then None else PutLine(c.value, lines[n], junk)
  }

  /** While the text fits, it is what was put. */
  lemma {:induction false} PutLinesFits(b: Room, lines: seq<string>, junk: nat -> char)
    requires b.size > 0 && |b.text| + |Text(lines)| < b.size
    ensures PutLines(b, lines, junk) == Some(b.(text := b.text + Text(lines)))
  {
    if lines == [] {
      assert b.text + Text(lines) == b.text;
    } else {
      var n := |lines| - 1;
      PutLinesFits(b, lines[..n], junk);
      assert b.text + Text(lines) == b.text + Text(lines[..n]) + lines[n] + "\n";
    }
  }

  /** Once the initial buffer is left, the text only grows. */
  lemma {:induction false} PutLinesAfterGrowth(b: Room, lines: seq<string>, junk: nat -> char)
    requires b.size > 0 && !b.initial && PutLines(b, lines, junk).Some?
    ensures PutLines(b, lines, junk).value.text == b.text + Text(lines)
    ensures !PutLines(b, lines, junk).value.initial
  {
    if lines == [] {
      assert b.text + Text(lines) == b.text;
    } else {
      var n := |lines| - 1;
      PutLinesAfterGrowth(b, lines[..n], junk);
      assert b.text + Text(lines) == b.text + Text(lines[..n]) + lines[n] + "\n";
    }
  }

  lemma {:induction false} PutLinesConcat(b: Room, a: seq<string>, c: seq<string>, junk: nat -> char)
    requires b.size > 0
    ensures PutLines(b, a + c, junk) ==
            var r := PutLines(b, a, junk); if r == None then None else PutLines(r.value, c, junk)
    decreases |c|
  {
    if c == [] {
      assert a + c == a;
    } else {
      var n := |c| - 1;
      assert (a + c)[..|a + c| - 1] == a + c[..n];
      PutLinesConcat(b, a, c[..n], junk);
    }
  }

  /** The room after one line more, and that a failure stays one. */
  lemma PutLinesPrefix(b: Room, lines: seq<string>, k: nat, junk: nat -> char)
    requires b.size > 0 && k < |lines|
    ensures PutLines(b, [], junk) == Some(b) && lines[..0] == []
    ensures var r := PutLines(b, lines[..k], junk);
            PutLines(b, lines[..k + 1], junk) == if r == None then None else PutLine(r.value, lines[k], junk)
    ensures PutLines(b, lines[..k + 1], junk) == None ==> PutLines(b, lines, junk) == None
  {
    assert lines[..k + 1][..k] == lines[..k] && lines[..k + 1][k] == lines[k];
    assert lines == lines[..k + 1] + lines[k + 1..];
    PutLinesConcat(b, lines[..k + 1], lines[k + 1..], junk);
  }

  const FRESH := Room("", BUFFER0_SIZE, true)

  /** A text that outgrows the initial buffer begins with what the allocation held. */
  lemma {:induction false} GrowthLoses(lines: seq<string>, junk: nat -> char)
    requires lines != [] && |lines[0]| + 1 < BUFFER0_SIZE <= |Text(lines)|
    requires PutLines(FRESH, lines, junk).Some?
    ensures var r := PutLines(FRESH, lines, junk).value; !r.initial && r.text != "" && r.text[0] == junk(0)
  {
    hide Doubled;
    var n := |lines| - 1;
    var init := lines[..n];
    TextOne(lines[0]);
    assert lines == [lines[0]] + lines[1..];
    if n == 0 {
      assert false;
    } else if |Text(init)| >= BUFFER0_SIZE {
      GrowthLoses(init, junk);
    } else {
      PutLinesFits(FRESH, init, junk);
      assert FRESH.text + Text(init) == Text(init);
      assert Text(init) != "";
    }
  }

  /** A message leaves intact, whatever allocations hold, exactly when it fits the initial buffer. */
  lemma IntactIff(m: Message)
    ensures (forall junk :: Written(m, junk)) <==> |Text(Lines(m))| < 4050
  {
    hide PutLines, Text, Opening, Details, FileLines;
    if |Text(Lines(m))| < BUFFER0_SIZE {
      forall junk ensures Written(m, junk) {
        PutLinesFits(FRESH, Lines(m), junk);
        assert FRESH.text + Text(Lines(m)) == Text(Lines(m));
      }
    } else {
      var junk: nat -> char := i => '?';
      if Written(m, junk) {
        StartsWithBegin(m);
        GrowthLoses(Lines(m), junk);
        assert false;
      }
    }
  }

  function LongFile(): string {
    seq(BUFFER0_SIZE, i => 'f')
  }

  /** A message with one long file name is not sent intact. */
  lemma LongMessageLost()
    ensures var m := Message(Add, "p", 1, 1, None, None, None, [LongFile()]);
            exists junk :: !Written(m, junk)
  {
    hide Text, Written, OpeningOf, Details;
    var m := Message(Add, "p", 1, 1, None, None, None, [LongFile()]);
    var before, line := Opening(m) + Details(m), Line("FILE", LongFile());
    assert m.files[..0] == [] && FileLines(m.files) == [line];
    TextConcat(before + [line], [Line("END", Word(m.op))]);
    TextConcat(before, [line]);
    TextOne(line);
    assert |Text(Lines(m))| >= BUFFER0_SIZE;
    IntactIff(m);
  }

  /** The text put into a fresh client is the message. */
  ghost predicate Written(m: Message, junk: nat -> char) {
    var r := PutLines(FRESH, Lines(m), junk);
    r.Some? && r.value.text == Text(Lines(m))
  }

  lemma StartsWithBegin(m: Message)
    ensures Lines(m) != [] && |Lines(m)[0]| + 1 < BUFFER0_SIZE
    ensures Text(Lines(m)) != "" && Text(Lines(m))[0] == 'B'
  {
    hide Text, Details, FileLines, Decimal;
    var lines := Lines(m);
    assert lines[0] == Line("BEGIN", Word(m.op));
    assert lines == [lines[0]] + lines[1..];
    TextConcat([lines[0]], lines[1..]);
    TextOne(lines[0]);
  }

  // ------------------------------------------------------------------- numbers

  function Power10(k: nat): nat {
    if k == 0 then 1 else 10 * Power10(k - 1)
  }

  lemma {:induction false} DecimalLength(n: nat, k: nat)
    requires k > 0 && n < Power10(k)
    ensures 1 <= |Decimal(n)| <= k
    decreases k
  {
    if n >= 10 { DecimalLength(n / 10, k - 1); }
  }

  /** Prints a number at the end of a scratch buffer. */
  method Itoa(value: nat, scratch: array<char>) returns (p: nat)
    requires value <= INT_MAX && scratch.Length == ITOALEN
    modifies scratch
    ensures p < ITOALEN && scratch[p..ITOALEN - 1] == Decimal(value) && scratch[ITOALEN - 1] == '\0'
  {
    hide Decimal;
    DecimalShort(value);
    DecimalLast(value);
    scratch[ITOALEN - 1] := '\0';
    p := PutDigit(scratch, ITOALEN - 1, value % 10);
    var rest: nat := value / 10;
    while rest != 0
      invariant 0 < p < ITOALEN && scratch[ITOALEN - 1] == '\0'
      invariant Decimal(value) == DecimalOrNone(rest) + scratch[p..ITOALEN - 1]
    {
      DecimalLast(rest);
      p := PutDigit(scratch, p, rest % 10);
      rest := rest / 10;
    }
  }

  /** Writes a digit before what is already written. */
  method PutDigit(scratch: array<char>, at: nat, d: nat) returns (p: nat)
    requires 0 < at < ITOALEN == scratch.Length && d < 10
    modifies scratch
    ensures p == at - 1 && scratch[ITOALEN - 1] == old(scratch[ITOALEN - 1])
    ensures scratch[p..ITOALEN - 1] == [DigitChar(d)] + old(scratch[at..ITOALEN - 1])
  {
    p := at - 1;
    scratch[p] := DigitChar(d);
  }

  ghost function DecimalOrNone(n: nat): string {
    if n == 0 then "" else Decimal(n)
  }

  lemma DecimalLast(n: nat)
    ensures Decimal(n) == DecimalOrNone(n / 10) + [DigitChar(n % 10)]
  {
  }

  lemma DecimalShort(n: nat)
    requires n <= INT_MAX
    ensures |Decimal(n)| <= 10
  {
    hide Decimal;
    assert Power10(10) == 10_000_000_000;
    DecimalLength(n, 10);
  }

  // ------------------------------------------------------------------ the client

  class Builder {
    const buffer0: array<char>
    var buffer: array<char>
    var length: nat
    var operation: Operation
    var state: Phase
    var memo: set<Once>

    ghost predicate Valid()
      reads this, buffer
    {
      buffer0.Length == BUFFER0_SIZE && buffer.Length > 0 && length < buffer.Length
    }

    ghost function View(): (r: Room)
      requires Valid()
      reads this, buffer
      ensures r.size > 0
    {
      Room(buffer[..length], buffer.Length, buffer == buffer0)
    }

    constructor ()
      ensures Valid() && View() == FRESH && state == Idle && memo == {}
      ensures fresh(buffer)
    {
      buffer0 := new char[BUFFER0_SIZE];
      operation := Add;
      state, memo, length := Idle, {}, 0;
      new;
      buffer := buffer0;
    }

    /** Doubles the room until it holds a position. */
    method Grow(pos: nat, junk: nat -> char) returns (ok: bool)
      requires Valid() && pos >= buffer.Length
      modifies this`buffer
      ensures Valid() && (buffer == old(buffer) || fresh(buffer))
      ensures ok <==> Doubled(old(buffer.Length), pos).Some?
      ensures !ok ==> buffer == old(buffer)
      ensures ok ==>
        var was := old(View());
        View() == Room(if was.initial then Junk(length, junk) else was.text, Doubled(was.size, pos).value, false)
    {
      var size := buffer.Length;
      while pos >= size
        invariant size > 0 && size >= buffer.Length && Doubled(size, pos) == Doubled(buffer.Length, pos)
        decreases pos - size
      {
        if 2 * size >= SIZE_LIMIT {
          return false;
        }
        size := 2 * size;
      }
      var ptr;
      if buffer == buffer0 {
        ptr := new char[size](i requires 0 <= i => junk(i));
      } else {
        var was, n := buffer, buffer.Length;
        ptr := new char[size](i requires 0 <= i reads was => if i < was.Length then was[i] else junk(i));
      }
      buffer := ptr;
      return true;
    }

    /** Puts a line. */
    method Put(key: string, val: string, junk: nat -> char) returns (rc: int)
      requires Valid()
      modifies this`buffer, this`length, buffer
      ensures Valid() && (buffer == old(buffer) || fresh(buffer))
      ensures state != Started ==> rc == -EINVAL && View() == old(View())
      ensures state == Started ==>
        var r := PutLine(old(View()), Line(key, val), junk);
        if r.Some? then rc == 0 && View() == r.value else rc == -EINVAL && View() == old(View())
    {
      hide Doubled;
      if state != Started {
        return -EINVAL;
      }
      var pos, fpos: nat := length, length + 2 + |val| + |key|;
      if fpos >= buffer.Length {
        var ok := Grow(fpos, junk);
        if !ok {
          return -EINVAL;
        }
      }
      ghost var head := buffer[..pos];
      var line := Line(key, val) + "\n";
      ghost var tail := buffer[pos + |line|..];
      CopyIn(buffer, pos, line);
      assert (head + line + tail)[..pos + |line|] == head + line;
      length := fpos;
      assert head + line == head + Line(key, val) + "\n";
      rc := 0;
    }

    /** Puts a line that a message holds at most once. */
    method PutOnce(key: string, val: string, once: Once, junk: nat -> char) returns (rc: int)
      requires Valid()
      modifies this`buffer, this`length, this`memo, buffer
      ensures Valid() && (buffer == old(buffer) || fresh(buffer))
      ensures state != Started || once in old(memo) ==> rc == -EINVAL && View() == old(View()) && memo == old(memo)
      ensures state == Started && once !in old(memo) ==>
        var r := PutLine(old(View()), Line(key, val), junk);
        if r.Some? then rc == 0 && View() == r.value && memo == old(memo) + {once}
        else rc == -EINVAL && View() == old(View()) && memo == old(memo)
    {
      if once in memo {
        rc := -EINVAL;
      } else {
        rc := Put(key, val, junk);
        if rc == 0 {
          memo := memo + {once};
        }
      }
    }

    method PutNumber(key: string, value: nat, junk: nat -> char) returns (rc: int)
      requires Valid() && value <= INT_MAX
      modifies this`buffer, this`length, buffer
      ensures Valid() && (buffer == old(buffer) || fresh(buffer))
      ensures state != Started ==> rc == -EINVAL && View() == old(View())
      ensures state == Started ==>
        var r := PutLine(old(View()), Line(key, Decimal(value)), junk);
        if r.Some? then rc == 0 && View() == r.value else rc == -EINVAL && View() == old(View())
    {
      var scratch := new char[ITOALEN];
      var p := Itoa(value, scratch);
      rc := Put(key, scratch[p..ITOALEN - 1], junk);
    }

    /** Starts a message. */
    method Begin(op: Operation, package: string, index: nat, count: nat, junk: nat -> char) returns (rc: int)
      requires Valid() && index <= INT_MAX && count <= INT_MAX
      modifies this, buffer
      ensures Valid() && (buffer == old(buffer) || fresh(buffer))
      ensures state == Started && memo == {} && operation == op
      ensures var r := PutLines(old(View()).(text := ""), OpeningOf(op, package, index, count), junk);
              if r.Some? then rc == 0 && View() == r.value else rc == -EINVAL
    {
      ghost var b := View().(text := "");
      length, operation, state, memo := 0, op, Started, {};
      assert View() == b;
      rc := PutOpening(op, package, index, count, junk);
    }

    method PutOpening(op: Operation, package: string, index: nat, count: nat, junk: nat -> char) returns (rc: int)
      requires Valid() && index <= INT_MAX && count <= INT_MAX && state == Started
      modifies this`buffer, this`length, buffer
      ensures Valid() && (buffer == old(buffer) || fresh(buffer))
      ensures var r := PutLines(old(View()), OpeningOf(op, package, index, count), junk);
              if r.Some? then rc == 0 && View() == r.value else rc == -EINVAL
    {
      hide PutLines, PutLine, Line, Decimal, Word, View, Valid;
      ghost var lines := OpeningOf(op, package, index, count);
      ghost var b := View();
      PutLinesPrefix(b, lines, 0, junk);
      PutLinesPrefix(b, lines, 1, junk);
      PutLinesPrefix(b, lines, 2, junk);
      PutLinesPrefix(b, lines, 3, junk);
      assert lines[..4] == lines;
      rc := Put("BEGIN", Word(op), junk);
      if rc != 0 { return; }
      rc := Put("PACKAGE", package, junk);
      if rc != 0 { return; }
      rc := PutNumber("INDEX", index, junk);
      if rc != 0 { return; }
      rc := PutNumber("COUNT", count, junk);
    }

    /** Ends the message, which is then followed by a null. */
    method End(junk: nat -> char) returns (rc: int)
      requires Valid()
      modifies this`buffer, this`length, this`state, buffer
      ensures Valid() && (buffer == old(buffer) || fresh(buffer)) && state == Complete
      ensures old(state) != Started ==> rc == -EINVAL && View() == old(View())
      ensures old(state) == Started ==>
        var r := PutLine(old(View()), Line("END", Word(operation)), junk);
        if r.Some? then rc == 0 && View() == r.value && buffer[length] == '\0'
        else rc == -EINVAL && View() == old(View())
    {
      rc := Put("END", Word(operation), junk);
      state := Complete;
      if rc == 0 {
        buffer[length] := '\0';
      }
    }
  }
}
