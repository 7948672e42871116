/** The live follower of dns-server/internal/dns_server_http.go: it remembers the cursor of the last
    entry it delivered and polls the buffer for newer ones, while entries keep being appended and
    old ones fall out of the ring. A poll may happen at any time and its write may fail. */
module Followers {
  import opened Basics
  import opened Cursors
  import opened Selections
  import opened Streams

  const BATCH: nat := 1000

  /** What a poll fetches: the first entries that pass the filter among the retained newer ones. */
  ghost function Batch<T>(entries: seq<Entry<T>>, p: T -> bool, cursor: Cursor): seq<Entry<T>> {
    Kept(Matching(entries, p, false, cursor), BATCH)
  }

  /** Where a follower starts: at the newest entry, or at the very end when there is none. */
  function StartCursor<T>(entries: seq<Entry<T>>): Cursor {
    if entries == [] then MAX_CURSOR else entries[|entries| - 1].cursor
  }

  class Follower<T(0)> {
    const st: Buffered<T>
    const filter: T -> bool
    var cursor: Cursor

    constructor (st: Buffered<T>, filter: T -> bool)
      requires st.Valid()
      ensures this.st == st && this.filter == filter
      ensures Ordered(st.Entries(), false) && StartCursor(st.Entries()) < MAX_CURSOR ==> cursor == StartCursor(st.Entries())
      ensures st.Entries() == [] ==> cursor == MAX_CURSOR
    {
      var anything: T -> bool := _ => true;
      var res := st.QueryBackward(MAX_CURSOR, 1, anything);
      ghost var e := st.Entries();
      if e != [] && Ordered(e, false) && StartCursor(e) < MAX_CURSOR {
        NewestFirst(e, anything);
      }
      this.st, this.filter, cursor := st, filter, res.firstCursor;
    }

    /** One poll. `delivered` says whether the write to the client would succeed. */
    method Poll(delivered: bool) returns (items: seq<T>)
      requires st.Valid()
      modifies this
      ensures Ordered(st.Entries(), false) ==>
                var batch := Batch(st.Entries(), filter, old(cursor));
                && items == Vals(batch)
                && cursor == if delivered then LastCursor(batch, old(cursor)) else old(cursor)
    {
      var res := st.Query(cursor, BATCH, filter);
      items := res.items;
      if |items| > 0 && delivered {
        cursor := res.lastCursor;
      }
    }
  }

  /** What a poll fetches, in plain terms: the first 1000 of the retained newer entries that pass the
      filter, oldest first; the cursor moves forward when there is any. */
  lemma BatchMeans<T>(entries: seq<Entry<T>>, p: T -> bool, cursor: Cursor) returns (m: seq<Entry<T>>)
    requires Ordered(entries, false)
    ensures forall e :: e in m <==> e in entries && p(e.val) && cursor < e.cursor
    ensures forall i, j :: 0 <= i < j < |m| ==> m[i].cursor < m[j].cursor
    ensures Batch(entries, p, cursor) == if |m| <= 1000 then m else m[..1000]
    ensures m != [] ==> cursor < LastCursor(Batch(entries, p, cursor), cursor)
  {
    hide Matching;
    m := SelectionMeans(entries, p, false, cursor, false);
    if m != [] {
      var batch := Batch(entries, p, cursor);
      assert m[|batch| - 1] == batch[|batch| - 1] && m[|batch| - 1] in m;
    }
  }

  /** A follower starts behind everything that is already there, and only just: its first poll delivers
      nothing, and the newest entry is the one it starts at. */
  lemma StartsAtNewest<T>(entries: seq<Entry<T>>, p: T -> bool)
    requires Ordered(entries, false) && entries != []
    ensures Batch(entries, p, StartCursor(entries)) == []
    ensures exists e :: e in entries && e.cursor == StartCursor(entries)
  {
    var last := entries[|entries| - 1];
    assert last in entries;
    NothingBeyond(entries, p, false, StartCursor(entries));
  }

  lemma NewestFirst<T>(entries: seq<Entry<T>>, p: T -> bool)
    requires entries != [] && p(entries[|entries| - 1].val) && StartCursor(entries) < MAX_CURSOR
    ensures FirstCursor(Kept(Reverse(Matching(entries, p, true, MAX_CURSOR)), 1), MAX_CURSOR) == StartCursor(entries)
  {
  }

  // ------------------------------------------------------------ whole runs

  datatype Event<T> = Appended(entry: Entry<T>) | Polled(delivered: bool)

  /** The whole log since the process started, the follower's cursor, and what it has delivered. */
  datatype State<T> = State(log: seq<Entry<T>>, cursor: Cursor, sent: seq<Entry<T>>)

  ghost function Step<T>(s: State<T>, e: Event<T>, capacity: nat, p: T -> bool): State<T> {
    match e
    case Appended(entry) => s.(log := s.log + [entry])
    case Polled(delivered) =>
      var batch := Batch(LastN(s.log, capacity), p, s.cursor);
      if delivered then State(s.log, LastCursor(batch, s.cursor), s.sent + batch) else s
  }

  /** An appended entry has a larger cursor than every entry before it. */
  ghost predicate Allowed<T>(s: State<T>, e: Event<T>) {
    e.Appended? ==> s.log != [] ==> s.log[|s.log| - 1].cursor < e.entry.cursor
  }

  ghost function Run<T>(s: State<T>, events: seq<Event<T>>, capacity: nat, p: T -> bool): State<T> {
    if events == [] then s
    else Step(Run(s, events[..|events| - 1], capacity, p), events[|events| - 1], capacity, p)
  }

  ghost predicate AllowedRun<T>(s: State<T>, events: seq<Event<T>>, capacity: nat, p: T -> bool) {
    forall i :: 0 <= i < |events| ==> Allowed(Run(s, events[..i], capacity, p), events[i])
  }

  /** The matching entries newer than the follower's cursor that have already fallen out of the ring. */
  ghost function Overwritten<T>(s: State<T>, capacity: nat, p: T -> bool): seq<Entry<T>> {
    Matching(s.log[..|s.log| - |LastN(s.log, capacity)|], p, false, s.cursor)
  }

  /** How many such entries the delivering polls of a run stepped over. */
  ghost function Skipped<T>(s: State<T>, events: seq<Event<T>>, capacity: nat, p: T -> bool): nat {
    if events == [] then 0
    else
      var before, e := Run(s, events[..|events| - 1], capacity, p), events[|events| - 1];
      Skipped(s, events[..|events| - 1], capacity, p)
      + if e.Polled? && e.delivered && Batch(LastN(before.log, capacity), p, before.cursor) != []
        then |Overwritten(before, capacity, p)| else 0
  }

  /** The matching log entries after `from` up to and including `to`. */
  ghost function Between<T>(log: seq<Entry<T>>, p: T -> bool, from: Cursor, to: Cursor): seq<Entry<T>> {
    var m := Select(log, p);
    var a, b := Cut(m, false, from), Cut(m, false, to);
    if a <= b then m[a..b] else []
  }

  ghost predicate Sane<T>(s: State<T>, from: Cursor) {
    && Ordered(s.log, false)
    && s.log != []
    && from <= s.cursor <= s.log[|s.log| - 1].cursor
  }

  /** What a run has delivered, compared with what it should have: never anything out of order,
      repeated or filtered out, and complete exactly as long as nothing was skipped. */
  ghost predicate Faithful<T>(s: State<T>, from: Cursor, p: T -> bool, skipped: nat) {
    var due := Between(s.log, p, from, s.cursor);
    && Ordered(s.sent, false)
    && (forall e :: e in s.sent ==> e in due)
    && |due| == |s.sent| + skipped
    && (skipped == 0 ==> s.sent == due)
  }

  lemma CutMonotone<T>(m: seq<Entry<T>>, lo: Cursor, hi: Cursor)
    requires Ordered(m, false) && lo <= hi
    ensures Cut(m, false, lo) <= Cut(m, false, hi)
  {
    CutSeparates(m, false, lo);
    CutSeparates(m, false, hi);
  }

  lemma AppendKeeps<T>(s: State<T>, entry: Entry<T>, from: Cursor, p: T -> bool)
    requires Sane(s, from) && s.log[|s.log| - 1].cursor < entry.cursor
    ensures Sane(s.(log := s.log + [entry]), from)
    ensures Between(s.log + [entry], p, from, s.cursor) == Between(s.log, p, from, s.cursor)
  {
    hide Cut;
    var m, log' := Select(s.log, p), s.log + [entry];
    SelectOrdered(s.log, p, false);
    assert log'[..|log'| - 1] == s.log;
    if p(entry.val) {
      assert Select(log', p) == m + [entry];
      CutOfLonger(m, entry, from);
      CutOfLonger(m, entry, s.cursor);
    }
  }

  lemma CutOfLonger<T>(m: seq<Entry<T>>, e: Entry<T>, c: Cursor)
    requires c < e.cursor
    ensures Cut(m + [e], false, c) == Cut(m, false, c)
  {
    assert (m + [e])[..|m|] == m;
  }

  /** The matching entries newer than the cursor are those already overwritten and those still held. */
  lemma NewerSplits<T>(s: State<T>, capacity: nat, p: T -> bool)
    requires Ordered(s.log, false)
    ensures var m := Select(s.log, p);
            m[Cut(m, false, s.cursor)..] == Overwritten(s, capacity, p) + Matching(LastN(s.log, capacity), p, false, s.cursor)
  {
    hide Cut, Matching, Select, Ordered;
    var kept := LastN(s.log, capacity);
    var gone := s.log[..|s.log| - |kept|];
    assert s.log == gone + kept;
    MatchingConcat(gone, kept, p, false, s.cursor);
    MatchingIsTail(s.log, p, false, s.cursor);
  }

  /** A poll delivers exactly the next stretch of matching entries, after those already overwritten. */
  lemma PollDelivers<T>(s: State<T>, from: Cursor, capacity: nat, p: T -> bool)
    requires Sane(s, from)
    requires Batch(LastN(s.log, capacity), p, s.cursor) != []
    ensures var batch := Batch(LastN(s.log, capacity), p, s.cursor);
            && s.cursor <= LastCursor(batch, s.cursor) <= s.log[|s.log| - 1].cursor
            && Between(s.log, p, from, LastCursor(batch, s.cursor))
               == Between(s.log, p, from, s.cursor) + Overwritten(s, capacity, p) + batch
  {
    hide Cut, Matching, Select, Overwritten, LastN;
    var m, held := Select(s.log, p), Matching(LastN(s.log, capacity), p, false, s.cursor);
    var lost, batch := Overwritten(s, capacity, p), Kept(held, BATCH);
    NewerSplits(s, capacity, p);
    SelectOrdered(s.log, p, false);
    var b := Cut(m, false, s.cursor);
    StretchOf(m, b, lost, held, |batch|);
    StretchCut(m, from, s.cursor, b + |lost| + |batch| - 1);
    NewestBounds(s.log, p, b + |lost| + |batch| - 1);
  }

  lemma NewestBounds<T>(log: seq<Entry<T>>, p: T -> bool, i: nat)
    requires Ordered(log, false) && i < |Select(log, p)|
    ensures log != [] && Select(log, p)[i].cursor <= log[|log| - 1].cursor
  {
    hide Select;
    SelectMember(log, p, Select(log, p)[i]);
    var k :| 0 <= k < |log| && log[k] == Select(log, p)[i];
    assert k < |log| - 1 ==> Beyond(false, log[k].cursor, log[|log| - 1].cursor);
  }

  lemma StretchCut<T>(m: seq<Entry<T>>, from: Cursor, to: Cursor, i: nat)
    requires Ordered(m, false) && from <= to && Cut(m, false, to) <= i < |m|
    ensures to < m[i].cursor
    ensures var a, b := Cut(m, false, from), Cut(m, false, to);
            && a <= b <= Cut(m, false, m[i].cursor) == i + 1
            && m[a..i + 1] == m[a..b] + m[b..i + 1]
  {
    hide Cut;
    CutMonotone(m, from, to);
    CutJustAfter(m, i);
    CutSeparates(m, false, to);
    assert Beyond(false, to, m[i].cursor);
  }

  lemma StretchOf<T>(m: seq<T>, b: nat, lost: seq<T>, held: seq<T>, r: nat)
    requires b <= |m| && m[b..] == lost + held && 0 < r <= |held|
    ensures b + |lost| + r <= |m|
    ensures m[b..b + |lost| + r] == lost + held[..r]
    ensures m[b + |lost| + r - 1] == held[r - 1]
  {
    assert m[b..][|lost| + r - 1] == held[r - 1];
    assert m[b..b + |lost| + r] == m[b..][..|lost| + r];
  }

  lemma CutJustAfter<T>(m: seq<Entry<T>>, i: nat)
    requires Ordered(m, false) && i < |m|
    ensures Cut(m, false, m[i].cursor) == i + 1
  {
    CutSeparates(m, false, m[i].cursor);
    if i + 1 < |m| {
      assert Beyond(false, m[i].cursor, m[i + 1].cursor);
    }
  }

  lemma SentGrows<T>(s: State<T>, from: Cursor, capacity: nat, p: T -> bool, skipped: nat)
    requires Sane(s, from) && Faithful(s, from, p, skipped)
    requires Batch(LastN(s.log, capacity), p, s.cursor) != []
    ensures Faithful(Step(s, Polled(true), capacity, p), from, p, skipped + |Overwritten(s, capacity, p)|)
  {
    hide Cut, Matching, Select;
    var batch := Batch(LastN(s.log, capacity), p, s.cursor);
    var due, due' := Between(s.log, p, from, s.cursor), Between(s.log, p, from, LastCursor(batch, s.cursor));
    var lost := Overwritten(s, capacity, p);
    PollDelivers(s, from, capacity, p);
    SelectOrdered(s.log, p, false);
    assert Ordered(due', false);
    forall i, j | 0 <= i < j < |s.sent + batch|
      ensures (s.sent + batch)[i].cursor < (s.sent + batch)[j].cursor
    {
      if j < |s.sent| {
      } else if i >= |s.sent| {
        var x, y := |due| + |lost| + i - |s.sent|, |due| + |lost| + j - |s.sent|;
        assert due'[x] == batch[i - |s.sent|] && due'[y] == batch[j - |s.sent|];
      } else {
        assert s.sent[i] in due;
        var x :| 0 <= x < |due| && due[x] == s.sent[i];
        var y := |due| + |lost| + j - |s.sent|;
        assert due'[x] == due[x] && due'[y] == batch[j - |s.sent|];
      }
    }
  }

  lemma AllowedPrefix<T>(s: State<T>, events: seq<Event<T>>, capacity: nat, p: T -> bool)
    requires events != [] && AllowedRun(s, events, capacity, p)
    ensures AllowedRun(s, events[..|events| - 1], capacity, p)
    ensures Allowed(Run(s, events[..|events| - 1], capacity, p), events[|events| - 1])
  {
    var init := events[..|events| - 1];
    forall i | 0 <= i < |init|
      ensures Allowed(Run(s, init[..i], capacity, p), init[i])
    {
      assert init[..i] == events[..i];
      assert Allowed(Run(s, events[..i], capacity, p), events[i]);
    }
  }

  /** Every run of appends and polls, some failing, from a start on a non-empty buffer. */
  lemma {:induction false} FollowerIsFaithful<T>(s: State<T>, events: seq<Event<T>>, capacity: nat, p: T -> bool)
    requires s.log != [] && Ordered(s.log, false) && s.cursor == StartCursor(s.log) && s.sent == []
    requires AllowedRun(s, events, capacity, p)
    ensures Sane(Run(s, events, capacity, p), s.cursor)
    ensures Faithful(Run(s, events, capacity, p), s.cursor, p, Skipped(s, events, capacity, p))
  {
    hide Faithful, Sane, Between, Overwritten, Batch;
    if events == [] {
      StartsFaithful(s, p);
    } else {
      var init, e := events[..|events| - 1], events[|events| - 1];
      AllowedPrefix(s, events, capacity, p);
      FollowerIsFaithful(s, init, capacity, p);
      StepKeeps(Run(s, init, capacity, p), e, s.cursor, capacity, p, Skipped(s, init, capacity, p));
    }
  }

  lemma StartsFaithful<T>(s: State<T>, p: T -> bool)
    requires s.log != [] && Ordered(s.log, false) && s.cursor == StartCursor(s.log) && s.sent == []
    ensures Sane(s, s.cursor) && Faithful(s, s.cursor, p, 0)
  {
  }

  lemma StepKeeps<T>(s: State<T>, e: Event<T>, from: Cursor, capacity: nat, p: T -> bool, skipped: nat)
    requires Sane(s, from) && Faithful(s, from, p, skipped) && Allowed(s, e)
    ensures Sane(Step(s, e, capacity, p), from)
    ensures Faithful(Step(s, e, capacity, p), from, p, skipped +
              if e.Polled? && e.delivered && Batch(LastN(s.log, capacity), p, s.cursor) != []
              then |Overwritten(s, capacity, p)| else 0)
  {
    hide Between, Overwritten, Batch;
    if e.Appended? {
      AppendKeeps(s, e.entry, from, p);
    } else if e.delivered {
      if Batch(LastN(s.log, capacity), p, s.cursor) != [] {
        PollDelivers(s, from, capacity, p);
        SentGrows(s, from, capacity, p, skipped);
      } else {
        assert s.sent + [] == s.sent;
      }
    }
  }

  /** While no more entries than the ring holds are newer than the cursor, nothing is overwritten. */
  lemma RoomMeansNothingLost<T>(s: State<T>, capacity: nat, p: T -> bool)
    requires Ordered(s.log, false)
    requires |s.log| - Cut(s.log, false, s.cursor) <= capacity
    ensures Overwritten(s, capacity, p) == []
  {
    CutSeparates(s.log, false, s.cursor);
    NothingBeyond(s.log[..|s.log| - |LastN(s.log, capacity)|], p, false, s.cursor);
  }

  /** Completeness of a run, exactly: it has delivered every matching entry from its start up to its
      cursor if and only if no delivering poll came after a matching entry had been overwritten. */
  lemma CompleteIff<T>(s: State<T>, events: seq<Event<T>>, capacity: nat, p: T -> bool)
    requires s.log != [] && Ordered(s.log, false) && s.cursor == StartCursor(s.log) && s.sent == []
    requires AllowedRun(s, events, capacity, p)
    ensures var r := Run(s, events, capacity, p);
            r.sent == Between(r.log, p, s.cursor, r.cursor) <==> Skipped(s, events, capacity, p) == 0
  {
    hide Between, Run, Skipped, AllowedRun;
    FollowerIsFaithful(s, events, capacity, p);
  }

  /** At every poll the ring still holds everything newer than the cursor. */
  ghost predicate RoomyRun<T>(s: State<T>, events: seq<Event<T>>, capacity: nat, p: T -> bool) {
    forall i :: 0 <= i < |events| && events[i].Polled? ==>
      var r := Run(s, events[..i], capacity, p);
      |r.log| - Cut(r.log, false, r.cursor) <= capacity
  }

  lemma RoomyPrefix<T>(s: State<T>, events: seq<Event<T>>, capacity: nat, p: T -> bool)
    requires events != [] && RoomyRun(s, events, capacity, p)
    ensures RoomyRun(s, events[..|events| - 1], capacity, p)
  {
    hide Run;
    var init := events[..|events| - 1];
    forall i | 0 <= i < |init| && init[i].Polled?
      ensures var r := Run(s, init[..i], capacity, p); |r.log| - Cut(r.log, false, r.cursor) <= capacity
    {
      assert events[..i] == init[..i] && events[i] == init[i];
    }
  }

  lemma {:induction false} RoomyRunSkipsNothing<T>(s: State<T>, events: seq<Event<T>>, capacity: nat, p: T -> bool)
    requires s.log != [] && Ordered(s.log, false) && s.cursor == StartCursor(s.log) && s.sent == []
    requires AllowedRun(s, events, capacity, p) && RoomyRun(s, events, capacity, p)
    ensures Skipped(s, events, capacity, p) == 0
  {
    hide Run, Faithful, Overwritten, Batch, AllowedRun;
    if events != [] {
      var init, e := events[..|events| - 1], events[|events| - 1];
      AllowedPrefix(s, events, capacity, p);
      RoomyPrefix(s, events, capacity, p);
      RoomyRunSkipsNothing(s, init, capacity, p);
      FollowerIsFaithful(s, init, capacity, p);
      if e.Polled? {
        RoomMeansNothingLost(Run(s, init, capacity, p), capacity, p);
      }
    }
  }

  /** A follower that connects while the buffer is empty starts at the largest cursor and never
      delivers anything, whatever is appended later. */
  lemma {:induction false} EmptyStartIsDeaf<T>(s: State<T>, events: seq<Event<T>>, capacity: nat, p: T -> bool)
    requires s.log == [] && s.cursor == StartCursor(s.log) && s.sent == []
    ensures Run(s, events, capacity, p).sent == [] && Run(s, events, capacity, p).cursor == MAX_CURSOR
  {
    if events != [] {
      EmptyStartIsDeaf(s, events[..|events| - 1], capacity, p);
      var before := Run(s, events[..|events| - 1], capacity, p);
      NothingBeyond(LastN(before.log, capacity), p, false, MAX_CURSOR);
    }
  }
}
