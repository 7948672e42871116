/** Stream cursors: how they are built from the clock and the append counter
    (internal/stream/buffered.go) and their hexadecimal text form (internal/stream/cursor.go). */
module Cursors {
  import opened Basics

  type Cursor = uint64

  const MAX_CURSOR: Cursor := TWO_64 - 1

  /** Two's complement increment of the `int32` append counter. */
  function NextIndex(index: int32): int32 {
    if index == TWO_31 - 1 then -TWO_31 else index + 1
  }

  /** The low 32 bits of a clock reading in milliseconds. */
  function LowBits(millis: int): uint32 {
    millis % TWO_32
  }

  /** `uint64(millis) << 32 | uint64(index)`: the shift leaves the low half empty, so a non-negative
      index is added to it, while the sign extension of a negative one overwrites the whole high half. */
  function MakeCursor(millis: int, index: int32): Cursor {
    if index >= 0 then LowBits(millis) * TWO_32 + index else TWO_64 + index
  }

  /** The two halves of a cursor: clock and counter, or all ones and the counter's low bits. */
  lemma CursorHalves(millis: int, index: int32)
    ensures var c := MakeCursor(millis, index);
            && c / 0x1_0000_0000 == (if index >= 0 then millis % 0x1_0000_0000 else 0xFFFF_FFFF)
            && c % 0x1_0000_0000 == (if index >= 0 then index else 0x1_0000_0000 + index)
  {
    if index >= 0 {
      ModUnique(MakeCursor(millis, index), TWO_32, LowBits(millis), index);
    } else {
      ModUnique(MakeCursor(millis, index), TWO_32, TWO_32 - 1, TWO_32 + index);
    }
  }

  /** What one append needs of the one before it for its cursor to be larger. */
  predicate Grows(t1: int, t2: int, index: int32) {
    NextIndex(index) < 0 || (index >= 0 && LowBits(t1) <= LowBits(t2))
  }

  /** Exactly when an append gets a larger cursor than the append before it: the counter has gone
      negative (the clock no longer matters), or it is non-negative and the low half of the clock
      did not fall. The one step where the counter returns to zero always breaks the order. */
  lemma CursorGrowsIff(t1: int, t2: int, index: int32)
    ensures MakeCursor(t1, index) < MakeCursor(t2, NextIndex(index))
       <==> Grows(t1, t2, index)
  {
    if index >= 0 && NextIndex(index) >= 0 {
      if LowBits(t1) <= LowBits(t2) {
      } else {
        assert LowBits(t1) >= LowBits(t2) + 1;
      }
    }
  }

  /** The cursors of a run of appends made at the given clock readings. */
  function RunCursors(times: seq<int>, index: int32): (cs: seq<Cursor>)
    ensures |cs| == |times|
  {
    if times == [] then [] else [MakeCursor(times[0], index)] + RunCursors(times[1..], NextIndex(index))
  }

  ghost predicate Increasing(cs: seq<Cursor>) {
    forall i, j :: 0 <= i < j < |cs| ==> cs[i] < cs[j]
  }

  /** The counter after `n` more appends. */
  function IndexAt(index: int32, n: nat): int32 {
    if n == 0 then index else NextIndex(IndexAt(index, n - 1))
  }

  /** The counter runs through the 32-bit integers and starts again. */
  lemma {:induction false} IndexAtWraps(index: int32, n: nat)
    ensures IndexAt(index, n) == (index + TWO_31 + n) % TWO_32 - TWO_31
  {
    if n == 0 {
      ModWrap(index + TWO_31, TWO_32);
    } else {
      IndexAtWraps(index, n - 1);
      var a := index + TWO_31 + n - 1;
      if a % TWO_32 == TWO_32 - 1 {
        ModUnique(a + 1, TWO_32, a / TWO_32 + 1, 0);
      } else {
        ModUnique(a + 1, TWO_32, a / TWO_32, a % TWO_32 + 1);
      }
    }
  }

  lemma {:induction false} IndexShift(index: int32, n: nat)
    ensures IndexAt(NextIndex(index), n) == IndexAt(index, n + 1)
  {
    if n > 0 {
      IndexShift(index, n - 1);
    }
  }

  lemma {:induction false} RunCursorsAt(times: seq<int>, index: int32)
    ensures forall i :: 0 <= i < |times| ==> RunCursors(times, index)[i] == MakeCursor(times[i], IndexAt(index, i))
  {
    if times != [] {
      RunCursorsAt(times[1..], NextIndex(index));
      forall i | 0 < i < |times|
        ensures RunCursors(times, index)[i] == MakeCursor(times[i], IndexAt(index, i))
      {
        IndexShift(index, i - 1);
        assert RunCursors(times, index)[i] == RunCursors(times[1..], NextIndex(index))[i - 1];
      }
    }
  }

  /** A sequence increases exactly when each element is below the next. */
  lemma {:induction false} IncreasingIff(cs: seq<Cursor>)
    ensures Increasing(cs) <==> forall i :: 0 <= i < |cs| - 1 ==> cs[i] < cs[i + 1]
  {
    if |cs| > 1 {
      var init := cs[..|cs| - 1];
      IncreasingIff(init);
      if forall i :: 0 <= i < |cs| - 1 ==> cs[i] < cs[i + 1] {
        forall i | 0 <= i < |init| - 1
          ensures init[i] < init[i + 1]
        {
          assert cs[i] < cs[i + 1];
        }
        assert cs[|cs| - 2] < cs[|cs| - 2 + 1];
        forall i | 0 <= i < |init|
          ensures cs[i] < cs[|cs| - 1]
        {
          assert init[i] <= init[|init| - 1];
        }
      }
    }
  }

  /** The same for one step of a run. */
  lemma RunStepIff(times: seq<int>, index: int32, i: nat)
    requires i + 1 < |times|
    ensures RunCursors(times, index)[i] < RunCursors(times, index)[i + 1] <==> Grows(times[i], times[i + 1], IndexAt(index, i))
  {
    hide RunCursors, MakeCursor, Grows;
    RunCursorsAt(times, index);
    CursorGrowsIff(times[i], times[i + 1], IndexAt(index, i));
  }

  /** Exactly when a whole run's cursors increase, for any start of the counter and any length: at
      every step the counter has gone negative, or it is non-negative and the low half of the clock
      did not fall. */
  lemma RunIncreasesIff(times: seq<int>, index: int32)
    ensures Increasing(RunCursors(times, index))
       <==> forall i :: 0 <= i < |times| - 1 ==> Grows(times[i], times[i + 1], IndexAt(index, i))
  {
    hide RunCursors, Increasing, Grows;
    var cs := RunCursors(times, index);
    IncreasingIff(cs);
    forall i | 0 <= i < |times| - 1
      ensures cs[i] < cs[i + 1] <==> Grows(times[i], times[i + 1], IndexAt(index, i))
    {
      RunStepIff(times, index, i);
    }
  }

  /** On a fresh buffer, up to the overflow of the counter, a clock that does not go back and stays in
      one window of 2^32 milliseconds is enough. */
  lemma SteadyClockIncreases(times: seq<int>)
    requires forall i, j :: 0 <= i < j < |times| ==> times[i] <= times[j]
    requires forall i :: 0 <= i < |times| ==> times[i] / TWO_32 == times[0] / TWO_32
    requires |times| <= TWO_31 + 1
    ensures Increasing(RunCursors(times, 0))
  {
    hide RunCursors, Grows, IndexAt;
    RunIncreasesIff(times, 0);
    forall i | 0 <= i < |times| - 1
      ensures Grows(times[i], times[i + 1], IndexAt(0, i))
    {
      assert times[i] / TWO_32 == times[0] / TWO_32;
      SteadyStep(times[i], times[i + 1], i);
    }
  }

  lemma SteadyStep(t1: int, t2: int, i: nat)
    requires t1 <= t2 && t1 / TWO_32 == t2 / TWO_32 && i < TWO_31
    ensures Grows(t1, t2, IndexAt(0, i))
  {
    hide IndexAt;
    IndexAtWraps(0, i);
    ModWrap(TWO_31 + i, TWO_32);
    assert t1 == t1 / TWO_32 * TWO_32 + LowBits(t1) && t2 == t2 / TWO_32 * TWO_32 + LowBits(t2);
  }

  /** The order breaks at every wrap of the clock's window, each 49.7 days, while the counter is not
      negative. */
  lemma WindowBreaksOrder(t: int, index: int32)
    requires t % TWO_32 == TWO_32 - 1 && 0 <= index < TWO_31 - 1
    ensures !Increasing(RunCursors([t, t + 1], index))
  {
    hide RunCursors, Increasing;
    var times := [t, t + 1];
    RunIncreasesIff(times, index);
    assert (t + 1) % TWO_32 == 0 by {
      assert t + 1 == (t / TWO_32 + 1) * TWO_32;
    }
    assert !Grows(times[0], times[0 + 1], IndexAt(index, 0));
  }

  /** No run of more than 2^32 appends keeps the order, whatever the clock does. */
  lemma LongRunsBreakOrder(times: seq<int>)
    requires |times| > TWO_32
    ensures !Increasing(RunCursors(times, 0))
  {
    hide RunCursors, Increasing, IndexAt;
    RunIncreasesIff(times, 0);
    var last := TWO_32 - 1;
    IndexAtWraps(0, last);
    assert (0 + TWO_31 + last) % TWO_32 == TWO_31 - 1;
    IndexAtWraps(0, last + 1);
    assert (0 + TWO_31 + last + 1) % TWO_32 == TWO_31;
    assert !Grows(times[last], times[last + 1], IndexAt(0, last));
  }

  // ---------------------------------------------------------------- text form

  function HexDigit(d: nat): char
    requires d < 16
  {
    "0123456789abcdef"[d]
  }

  /** Digits are accepted in either case. */
  function HexValue(c: char): Option<nat> {
    if '0' <= c <= '9' then Some(c as int - '0' as int)
    else if 'a' <= c <= 'f' then Some(c as int - 'a' as int + 10)
    else if 'A' <= c <= 'F' then Some(c as int - 'A' as int + 10)
    else None
  }

  function Pow16(n: nat): (p: nat)
    ensures p > 0
  {
    if n == 0 then 1 else 16 * Pow16(n - 1)
  }

  function HexDigits(v: nat, n: nat): (s: string)
    ensures |s| == n
  {
    if n == 0 then "" else HexDigits(v / 16, n - 1) + [HexDigit(v % 16)]
  }

  /** `%016x`. */
  function Format(c: Cursor): string {
    HexDigits(c, 16)
  }

  /** The number written by a string of hexadecimal digits, if it is one. */
  function HexNumber(s: string): Option<nat> {
    if s == "" then Some(0)
    else
      var high := HexNumber(s[..|s| - 1]);
      var low := HexValue(s[|s| - 1]);
      if high.Some? && low.Some? then Some(16 * high.value + low.value) else None
  }

  /** `strconv.ParseUint(s, 16, 64)`: rejects the empty string, any other character and a value that
      does not fit in 64 bits. */
  function ParseCursor(s: string): Option<Cursor> {
    var n := HexNumber(s);
    if s == "" || n.None? || n.value >= TWO_64 then None else Some(n.value)
  }

  lemma DigitReads(d: nat)
    requires d < 16
    ensures HexValue(HexDigit(d)) == Some(d)
  {
  }

  lemma {:induction false} HexDigitsRead(v: nat, n: nat)
    ensures HexNumber(HexDigits(v, n)) == Some(v % Pow16(n))
  {
    hide HexValue, HexDigit;
    if n > 0 {
      HexDigitsRead(v / 16, n - 1);
      DigitReads(v % 16);
      SplitDigit(v, Pow16(n - 1));
      var s := HexDigits(v, n);
      assert s == HexDigits(v / 16, n - 1) + [HexDigit(v % 16)];
      assert s[..n - 1] == HexDigits(v / 16, n - 1);
    }
  }

  lemma SplitDigit(v: nat, p: nat)
    requires p > 0
    ensures v % (16 * p) == 16 * ((v / 16) % p) + v % 16
  {
    var q, r := (v / 16) / p, (v / 16) % p;
    assert v == 16 * (v / 16) + v % 16;
    assert v / 16 == q * p + r;
    assert v == q * (16 * p) + (16 * r + v % 16) by {
      assert 16 * (q * p) == q * (16 * p);
    }
    ModUnique(v, 16 * p, q, 16 * r + v % 16);
  }

  lemma Pow16Is64Bits()
    ensures Pow16(16) == TWO_64
  {
    assert Pow16(4) == 0x1_0000;
    assert Pow16(8) == 0x1_0000 * Pow16(4);
    assert Pow16(12) == 0x1_0000 * Pow16(8);
    assert Pow16(16) == 0x1_0000 * Pow16(12);
  }

  /** A cursor printed into a page link reads back as the same cursor. */
  lemma ParseFormat(c: Cursor)
    ensures ParseCursor(Format(c)) == Some(c)
  {
    HexDigitsRead(c, 16);
    Pow16Is64Bits();
    ModUnique(c, TWO_64, 0, c);
  }

  lemma DivDiv(v: nat, p: nat)
    requires p > 0
    ensures v / 16 / p == v / (16 * p)
  {
    var q, r := v / 16 / p, (v / 16) % p;
    assert v == 16 * (v / 16) + v % 16 && v / 16 == q * p + r;
    assert v == q * (16 * p) + (16 * r + v % 16) by {
      assert 16 * (q * p) == q * (16 * p);
    }
    ModUnique(v, 16 * p, q, 16 * r + v % 16);
  }

  lemma {:induction false} DigitAt(v: nat, n: nat, i: nat)
    requires i < n
    ensures HexDigits(v, n)[i] == "0123456789abcdef"[(v / Pow16(n - 1 - i)) % 16]
  {
    hide HexDigits, Pow16, HexDigit;
    if i < n - 1 {
      DigitAt(v / 16, n - 1, i);
      HigherDigit(v, n, i);
    } else {
      LastDigit(v, n);
    }
  }

  lemma HigherDigit(v: nat, n: nat, i: nat)
    requires i + 1 < n
    ensures HexDigits(v, n)[i] == HexDigits(v / 16, n - 1)[i]
    ensures v / 16 / Pow16(n - 1 - 1 - i) == v / Pow16(n - 1 - i)
  {
    hide HexDigit;
    DivDiv(v, Pow16(n - 2 - i));
  }

  lemma LastDigit(v: nat, n: nat)
    requires n > 0
    ensures HexDigits(v, n)[n - 1] == "0123456789abcdef"[v % 16] && v / Pow16(0) == v
  {
  }

  /** A printed cursor has 16 digits in lower case, the most significant first. */
  lemma FormatDigits(c: Cursor, i: nat)
    requires i < 16
    ensures |Format(c)| == 16 && Format(c)[i] == "0123456789abcdef"[(c / Pow16(15 - i)) % 16]
  {
    DigitAt(c, 16, i);
  }

  function Lower(s: string): (r: string)
    ensures |r| == |s|
    ensures forall i :: 0 <= i < |s| ==> r[i] == if 'A' <= s[i] <= 'F' then "abcdef"[s[i] as int - 'A' as int] else s[i]
  {
    seq(|s|, i requires 0 <= i < |s| => if 'A' <= s[i] <= 'F' then "abcdef"[s[i] as int - 'A' as int] else s[i])
  }

  lemma {:induction false} HexNumberIff(s: string, v: nat)
    ensures HexNumber(s) == Some(v) <==> v < Pow16(|s|) && Lower(s) == HexDigits(v, |s|)
  {
    hide HexValue, HexDigit, Lower;
    if s != "" {
      var init, x := s[..|s| - 1], s[|s| - 1];
      var low := HexDigits(v, |s|);
      HexNumberIff(init, v / 16);
      assert Lower(s) == Lower(init) + Lower([x]);
      assert low[..|s| - 1] == HexDigits(v / 16, |s| - 1) && low[|s| - 1] == HexDigit(v % 16);
      HexValueIff(x, v % 16);
      if HexNumber(s) == Some(v) {
        assert HexNumber(init).Some?;
      }
      if Lower(s) == low {
        assert Lower(init) == Lower(s)[..|s| - 1] && Lower([x])[0] == Lower(s)[|s| - 1];
      }
    }
  }

  lemma HexValueIff(x: char, d: nat)
    requires d < 16
    ensures HexValue(x) == Some(d) <==> Lower([x])[0] == HexDigit(d)
    ensures HexValue(x).Some? ==> HexValue(x).value < 16
  {
  }

  /** Exactly which texts are read as a cursor: its digits in either case, with any number of leading
      zeros or without them. */
  lemma ParseCursorIff(s: string, c: Cursor)
    ensures ParseCursor(s) == Some(c) <==> s != "" && c < Pow16(|s|) && Lower(s) == HexDigits(c, |s|)
  {
    HexNumberIff(s, c);
  }

  /** Alphabetical order of two strings of the same length. */
  predicate TextLess(a: string, b: string)
    requires |a| == |b|
    decreases |a|
  {
    a != "" && (a[0] < b[0] || (a[0] == b[0] && TextLess(a[1..], b[1..])))
  }

  lemma {:induction false} TextLessAtEnd(a: string, b: string, x: char, y: char)
    requires |a| == |b|
    ensures TextLess(a + [x], b + [y]) <==> TextLess(a, b) || (a == b && x < y)
    decreases |a|
  {
    if a == "" {
      assert a + [x] == [x] && b + [y] == [y];
    } else {
      assert (a + [x])[1..] == a[1..] + [x];
      assert (b + [y])[1..] == b[1..] + [y];
      assert a == [a[0]] + a[1..] && b == [b[0]] + b[1..];
      TextLessAtEnd(a[1..], b[1..], x, y);
    }
  }

  lemma DigitsReadBack(v: nat, n: nat)
    requires v < Pow16(n)
    ensures HexNumber(HexDigits(v, n)) == Some(v)
  {
    HexDigitsRead(v, n);
    ModUnique(v, Pow16(n), 0, v);
  }

  lemma {:induction false} DigitOrder(v: nat, w: nat, n: nat)
    requires v < Pow16(n) && w < Pow16(n)
    ensures TextLess(HexDigits(v, n), HexDigits(w, n)) <==> v < w
  {
    if n > 0 {
      var vs, ws := HexDigits(v / 16, n - 1), HexDigits(w / 16, n - 1);
      DigitOrder(v / 16, w / 16, n - 1);
      DigitsReadBack(v / 16, n - 1);
      DigitsReadBack(w / 16, n - 1);
      assert vs == ws <==> v / 16 == w / 16;
      TextLessAtEnd(vs, ws, HexDigit(v % 16), HexDigit(w % 16));
      LastDigitOrder(v % 16, w % 16);
      DivOrder(v, w);
    }
  }

  lemma LastDigitOrder(d: nat, e: nat)
    requires d < 16 && e < 16
    ensures HexDigit(d) < HexDigit(e) <==> d < e
  {
  }

  lemma DivOrder(v: nat, w: nat)
    ensures v < w <==> v / 16 < w / 16 || (v / 16 == w / 16 && v % 16 < w % 16)
  {
  }

  /** The printed forms sort as text exactly as the cursors sort as numbers. */
  lemma FormatOrder(c: Cursor, d: Cursor)
    ensures TextLess(Format(c), Format(d)) <==> c < d
  {
    Pow16Is64Bits();
    DigitOrder(c, d, 16);
  }
}
