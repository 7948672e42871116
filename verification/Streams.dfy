/** The buffered stream of internal/stream/buffered.go: appends into a ring buffer and filtered
    queries in both directions. */
module Streams {
  import opened Basics
  import opened Cursors
  import opened RingBuffers
  import opened Selections

  datatype QueryResult<T> = QueryResult(items: seq<T>, firstCursor: Cursor, lastCursor: Cursor, hasMore: bool) {
    function Reversed(): QueryResult<T> {
      QueryResult(Reverse(items), lastCursor, firstCursor, hasMore)
    }
  }

  /** The part of a selection that fits in one answer of at most `count` items. */
  function Kept<T>(m: seq<Entry<T>>, count: int): (k: seq<Entry<T>>)
    ensures |k| == Min(|m|, Max(0, count)) && k <= m
  {
    m[..Min(|m|, Max(0, count))]
  }

  /** The cursor of an end of an answer; an empty answer repeats the cursor it was asked for. */
  function FirstCursor<T>(k: seq<Entry<T>>, c: Cursor): Cursor {
    if k == [] then c else k[0].cursor
  }

  function LastCursor<T>(k: seq<Entry<T>>, c: Cursor): Cursor {
    if k == [] then c else k[|k| - 1].cursor
  }

  /** What a query has to answer when `m` is everything it could list: the first `count` entries, the
      cursors at their ends, and whether some were left out. */
  function ResultOf<T>(m: seq<Entry<T>>, c: Cursor, count: int): QueryResult<T> {
    var k := Kept(m, count);
    QueryResult(Vals(k), FirstCursor(k, c), LastCursor(k, c), |k| < |m|)
  }

  class Buffered<T(0)> {
    const buf: RingBuf<Entry<T>>
    var index: int32

    ghost predicate Valid()
      reads this, buf
    {
      buf.Valid()
    }

    /** The retained entries, oldest first. */
    ghost function Entries(): seq<Entry<T>>
      requires Valid()
      reads this, buf, buf.buf
    {
      buf.Contents()
    }

    constructor (bufferSize: nat)
      ensures Valid() && fresh(buf) && fresh(buf.buf)
      ensures buf.buf.Length == bufferSize && index == 0 && Entries() == []
    {
      buf := new RingBuf(bufferSize);
      index := 0;
    }

    method Append(value: T, now: int)
      requires Valid() && buf.buf.Length > 0
      modifies this, buf, buf.buf
      ensures Valid()
      ensures index == NextIndex(old(index))
      ensures Entries() == LastN(old(Entries()) + [Entry(MakeCursor(now, old(index)), value)], buf.buf.Length)
    {
      var cursor := MakeCursor(now, index);
      index := NextIndex(index);
      buf.Add(Entry(cursor, value));
    }

    /** Binary search for the first entry whose cursor is not below the given one. */
    method LookupPos(cursor: Cursor) returns (i: nat, found: bool)
      requires Valid()
      ensures i <= buf.size
      ensures found <==> i < buf.size && Entries()[i].cursor == cursor
      ensures Ordered(Entries(), false) ==>
                forall j :: 0 <= j < buf.size ==> (Entries()[j].cursor < cursor <==> j < i)
    {
      i := 0;
      var j := buf.size;
      while i < j
        invariant 0 <= i <= j <= buf.size
        invariant Ordered(Entries(), false) ==> forall k :: 0 <= k < i ==> Entries()[k].cursor < cursor
        invariant Ordered(Entries(), false) ==> forall k :: j <= k < buf.size ==> cursor <= Entries()[k].cursor
      {
        var h := (i + j) / 2;
        if cursor > buf.Get(h).cursor {
          i := h + 1;
        } else {
          j := h;
        }
      }
      found := i < buf.size && cursor == buf.Get(i).cursor;
    }

    /** On a buffer with increasing cursors the result is the first `count` entries that pass the
        filter among those strictly after the cursor (strictly before it, newest first, when going
        backward), the cursors of the two end entries, and whether more such entries exist. */
    method Find(forward: bool, cursor: Cursor, count: int, p: T -> bool) returns (res: QueryResult<T>)
      requires Valid()
      ensures Ordered(Entries(), false) ==>
                res == ResultOf(Matching(Listing(Entries(), !forward), p, !forward, cursor), cursor, count)
    {
      hide Matching, ResultOf, Ordered, SplitsAt, Listing;
      var pos, found := LookupPos(cursor);
      var i: int := pos;
      if !forward {
        i := i - 1;
      } else if found {
        i := i + 1;
      }
      if Ordered(Entries(), false) {
        SearchSplits(Entries(), forward, cursor, pos, found);
      }
      res := Scan(forward, i, cursor, count, p);
    }

    /** The iteration of a query, from position `from` to the end of the buffer in its direction. */
    method Scan(forward: bool, from: int, cursor: Cursor, count: int, p: T -> bool) returns (res: QueryResult<T>)
      requires Valid()
      requires if forward then 0 <= from <= buf.size else -1 <= from < buf.size
      ensures var list := Listing(Entries(), !forward);
              SplitsAt(list, !forward, cursor, if forward then from else buf.size - 1 - from) ==>
                res == ResultOf(Matching(list, p, !forward, cursor), cursor, count)
    {
      hide Matching, ResultOf, SplitsAt;
      ghost var list := Listing(Entries(), !forward);
      ghost var k: nat := if forward then from else buf.size - 1 - from;
      ghost var split := SplitsAt(list, !forward, cursor, k);
      if split {
        NothingYet(list, p, !forward, cursor, count, k);
      }
      res := QueryResult([], cursor, cursor, false);
      var i := from;
      while 0 <= i < buf.size
        invariant -1 <= i <= buf.size && k == if forward then i else buf.size - 1 - i
        invariant split ==> Scanned(list, p, !forward, cursor, count, k, res)
        decreases |list| - k
      {
        var it := buf.Get(i);
        assert it == list[k];
        if split {
          ScanStep(list, p, !forward, cursor, count, k, res);
        }
        if p(it.val) {
          if |res.items| >= count {
            res := res.(hasMore := true);
            return;
          }
          res := Accept(res, it);
        }
        i := if forward then i + 1 else i - 1;
        k := k + 1;
      }
      assert list[..k] == list;
    }

    method Query(cursor: Cursor, count: int, p: T -> bool) returns (res: QueryResult<T>)
      requires Valid()
      ensures Ordered(Entries(), false) ==>
                res == ResultOf(Matching(Entries(), p, false, cursor), cursor, count)
    {
      res := Find(true, cursor, count, p);
    }

    method QueryBackward(cursor: Cursor, count: int, p: T -> bool) returns (res: QueryResult<T>)
      requires Valid()
      ensures Ordered(Entries(), false) ==>
                res == ResultOf(Reverse(Matching(Entries(), p, true, cursor)), cursor, count)
    {
      res := Find(false, cursor, count, p);
      MatchingReverse(Entries(), p, true, cursor);
    }
  }

  ghost predicate SplitsAt<T>(list: seq<Entry<T>>, desc: bool, c: Cursor, k: int) {
    forall j :: 0 <= j < |list| ==> (Beyond(desc, c, list[j].cursor) <==> k <= j)
  }

  /** The position found by the search, adjusted for the direction, splits the listing at the cursor. */
  lemma SearchSplits<T>(entries: seq<Entry<T>>, forward: bool, cursor: Cursor, pos: nat, found: bool)
    requires Ordered(entries, false) && pos <= |entries|
    requires forall j :: 0 <= j < |entries| ==> (entries[j].cursor < cursor <==> j < pos)
    requires found <==> pos < |entries| && entries[pos].cursor == cursor
    ensures SplitsAt(Listing(entries, !forward), !forward, cursor,
                     if !forward then |entries| - pos else if found then pos + 1 else pos)
  {
  }

  /** State of the scan once `k` positions of the listing lie behind it. */
  ghost predicate Scanned<T>(list: seq<Entry<T>>, p: T -> bool, desc: bool, c: Cursor, count: int, k: int,
                             res: QueryResult<T>)
  {
    && 0 <= k <= |list|
    && (forall j :: k <= j < |list| ==> Beyond(desc, c, list[j].cursor))
    && !res.hasMore
    && res == ResultOf(Matching(list[..k], p, desc, c), c, count)
  }

  lemma NothingYet<T>(list: seq<Entry<T>>, p: T -> bool, desc: bool, c: Cursor, count: int, k: nat)
    requires k <= |list| && SplitsAt(list, desc, c, k)
    ensures Matching(list[..k], p, desc, c) == []
    ensures Scanned(list, p, desc, c, count, k, QueryResult([], c, c, false))
  {
    NothingBeyond(list[..k], p, desc, c);
  }

  /** The answer after the scan has accepted one more entry. */
  function Accept<T>(res: QueryResult<T>, it: Entry<T>): QueryResult<T> {
    QueryResult(res.items + [it.val], if res.items == [] then it.cursor else res.firstCursor, it.cursor, res.hasMore)
  }

  lemma ResultGrows<T>(m: seq<Entry<T>>, it: Entry<T>, c: Cursor, count: int)
    requires |m| < count
    ensures ResultOf(m + [it], c, count) == Accept(ResultOf(m, c, count), it)
  {
    assert Kept(m, count) == m && Kept(m + [it], count) == m + [it];
    assert Vals(m + [it]) == Vals(m) + [it.val];
  }

  lemma ResultFull<T>(m: seq<Entry<T>>, more: seq<Entry<T>>, c: Cursor, count: int)
    requires |m| == Max(0, count) && more != []
    ensures ResultOf(m + more, c, count) == ResultOf(m, c, count).(hasMore := true)
  {
    assert Kept(m + more, count) == m == Kept(m, count);
  }

  /** One more position of the listing adds its entry to the selection or leaves it as it was. */
  lemma MatchingStep<T>(list: seq<Entry<T>>, p: T -> bool, desc: bool, c: Cursor, k: nat)
    requires k < |list| && Beyond(desc, c, list[k].cursor)
    ensures Matching(list[..k + 1], p, desc, c)
         == Matching(list[..k], p, desc, c) + if p(list[k].val) then [list[k]] else []
  {
    assert list[..k + 1][..k] == list[..k];
  }

  lemma SelectionGoesOn<T>(list: seq<Entry<T>>, p: T -> bool, desc: bool, c: Cursor, k: nat)
    returns (more: seq<Entry<T>>)
    requires k < |list| && Beyond(desc, c, list[k].cursor) && p(list[k].val)
    ensures more != [] && Matching(list, p, desc, c) == Matching(list[..k], p, desc, c) + more
  {
    MatchingStep(list, p, desc, c, k);
    MatchingConcat(list[..k + 1], list[k + 1..], p, desc, c);
    assert list == list[..k + 1] + list[k + 1..];
    more := [list[k]] + Matching(list[k + 1..], p, desc, c);
  }

  /** What looking at one more entry of the listing does to the answer. */
  lemma ScanStep<T>(list: seq<Entry<T>>, p: T -> bool, desc: bool, c: Cursor, count: int, k: nat, res: QueryResult<T>)
    requires k < |list| && Scanned(list, p, desc, c, count, k, res)
    ensures !p(list[k].val) ==> Scanned(list, p, desc, c, count, k + 1, res)
    ensures p(list[k].val) && |res.items| < count ==> Scanned(list, p, desc, c, count, k + 1, Accept(res, list[k]))
    ensures p(list[k].val) && |res.items| >= count ==>
              res.(hasMore := true) == ResultOf(Matching(list, p, desc, c), c, count)
  {
    hide Matching;
    var it, m := list[k], Matching(list[..k], p, desc, c);
    MatchingStep(list, p, desc, c, k);
    if !p(it.val) {
      assert m + [] == m;
    } else if |res.items| < count {
      ResultGrows(m, it, c, count);
    } else {
      var more := SelectionGoesOn(list, p, desc, c, k);
      ResultFull(m, more, c, count);
    }
  }

  /** What a query answers, in plain terms: `m` are the entries that pass the filter on the given side of
      the cursor, oldest first when going forward and newest first when going backward. The answer has
      the first `count` of them, the cursors of its two ends, and says whether some were left out. */
  lemma AnswerMeans<T>(entries: seq<Entry<T>>, p: T -> bool, forward: bool, c: Cursor, count: int) returns (m: seq<Entry<T>>)
    requires Ordered(entries, false)
    ensures forall e :: e in m <==> e in entries && p(e.val) && if forward then c < e.cursor else e.cursor < c
    ensures forall i, j :: 0 <= i < j < |m| ==> if forward then m[i].cursor < m[j].cursor else m[j].cursor < m[i].cursor
    ensures var res := ResultOf(Matching(Listing(entries, !forward), p, !forward, c), c, count);
            var n := if count <= 0 then 0 else if count < |m| then count else |m|;
            && |res.items| == n && (forall i :: 0 <= i < n ==> res.items[i] == m[i].val)
            && res.firstCursor == (if n == 0 then c else m[0].cursor)
            && res.lastCursor == (if n == 0 then c else m[n - 1].cursor)
            && (res.hasMore <==> n < |m|)
  {
    hide Matching;
    m := SelectionMeans(entries, p, !forward, c, !forward);
  }

  /** The buffer after any number of appends holds the newest entries of the whole log. */
  ghost function AppendAll<T>(log: seq<Entry<T>>, capacity: nat): seq<Entry<T>> {
    if log == [] then [] else LastN(AppendAll(log[..|log| - 1], capacity) + [log[|log| - 1]], capacity)
  }

  lemma {:induction false} BufferIsLogTail<T>(log: seq<Entry<T>>, capacity: nat)
    requires capacity > 0
    ensures AppendAll(log, capacity) == LastN(log, capacity)
  {
    if log != [] {
      BufferIsLogTail(log[..|log| - 1], capacity);
      LastNAppend(log[..|log| - 1], log[|log| - 1], capacity);
      assert log == log[..|log| - 1] + [log[|log| - 1]];
    }
  }

  /** Exactly when the binary search can rely on the buffer after a whole run of appends, of any
      length: only the entries still held count, and each of them must have been stamped with a larger
      cursor than the one before it. */
  lemma BufferOrderedIff<T>(log: seq<Entry<T>>, times: seq<int>, index: int32, capacity: nat)
    requires capacity > 0 && |log| == |times|
    requires forall i :: 0 <= i < |log| ==> log[i].cursor == RunCursors(times, index)[i]
    ensures Ordered(AppendAll(log, capacity), false)
       <==> forall i :: Max(0, |log| - capacity) <= i < |log| - 1 ==> Grows(times[i], times[i + 1], IndexAt(index, i))
  {
    hide RunCursors, Grows, IndexAt, AppendAll, Ordered, Increasing;
    var k, all := Max(0, |log| - capacity), RunCursors(times, index);
    BufferIsLogTail(log, capacity);
    assert LastN(log, capacity) == log[k..];
    OrderedIsIncreasing(log[k..], all[k..]);
    IncreasingIff(all[k..]);
    forall i | k <= i < |log| - 1
      ensures all[k..][i - k] < all[k..][i - k + 1] <==> Grows(times[i], times[i + 1], IndexAt(index, i))
    {
      RunStepIff(times, index, i);
    }
    HeldSteps(all[k..], times, index, k);
  }

  lemma OrderedIsIncreasing<T>(list: seq<Entry<T>>, cs: seq<Cursor>)
    requires |cs| == |list| && forall i :: 0 <= i < |cs| ==> cs[i] == list[i].cursor
    ensures Ordered(list, false) <==> Increasing(cs)
  {
  }

  lemma HeldSteps(cs: seq<Cursor>, times: seq<int>, index: int32, k: nat)
    requires k + |cs| == |times|
    requires forall i :: k <= i < |times| - 1 ==> (cs[i - k] < cs[i - k + 1] <==> Grows(times[i], times[i + 1], IndexAt(index, i)))
    ensures (forall j :: 0 <= j < |cs| - 1 ==> cs[j] < cs[j + 1])
       <==> forall i :: k <= i < |times| - 1 ==> Grows(times[i], times[i + 1], IndexAt(index, i))
  {
    if forall i :: k <= i < |times| - 1 ==> Grows(times[i], times[i + 1], IndexAt(index, i)) {
      forall j | 0 <= j < |cs| - 1
        ensures cs[j] < cs[j + 1]
      {
        assert Grows(times[k + j], times[k + j + 1], IndexAt(index, k + j));
      }
    }
    if forall j :: 0 <= j < |cs| - 1 ==> cs[j] < cs[j + 1] {
      forall i | k <= i < |times| - 1
        ensures Grows(times[i], times[i + 1], IndexAt(index, i))
      {
        assert cs[i - k] < cs[i - k + 1];
      }
    }
  }
}
