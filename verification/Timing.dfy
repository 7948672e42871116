/** The end-to-end guarantee from what can be seen of the answers alone: when each entry is cached it dies
    no later than the records of its own answer, and no later answer to the same question cuts a record
    short that an earlier one still needs. Only the question itself counts; answers to other questions
    may come, overlap and be cached in any way. */
module Timing {
  import opened Basics
  import opened Addresses
  import opened Clocks
  import opened Messages
  import opened CacheModel
  import opened Hosts
  import opened Store
  import opened Chains
  import opened Routes
  import opened Service
  import opened EndToEnd

  /** `kept`, cached now for an answer processed at `at`, is served no longer than the records of that
      answer stay live, route timeout included. */
  predicate InTime(u: Setup, kept: seq<Record>, answer: seq<Record>, name: string, at: int, now: int) {
    Cacheable(u.w, kept) && Selected(answer, name) != [] ==>
      now + MinTTL(u.w, kept) * SECOND <= RecordExpiry(answer, name, at) + u.routeTimeout
  }

  /** The records of a new answer replace none that is needed longer: by the served entry of the
      question, or by another answer to it on its way into the cache. One resolution of a question at a
      time, from the cache miss to the caching, is enough for this, and so are answers whose records
      never expire earlier than those of the answer before. */
  ghost predicate CutsNothing(u: Setup, s: State, q: Question, answer: seq<Record>) {
    var expiry := RecordExpiry(answer, q.name, s.now);
    forall ip :: ip in Selected(answer, q.name) ==>
      && (ServesUnder(s, q, ip) ==> s.cache[q].expires <= expiry + u.routeTimeout)
      && forall id :: IsAnswered(s, id) && s.pending[id].q == q && ip in Selected(s.pending[id].answered.value.answer, q.name) ==>
           ExpiryOf(s, id) <= expiry
  }

  /** When the records of a processed answer expire. */
  ghost function ExpiryOf(s: State, id: nat): int
    requires IsAnswered(s, id)
  {
    RecordExpiry(s.pending[id].answered.value.answer, s.pending[id].q.name, s.pending[id].answered.value.at)
  }

  /** The hypothesis about a step, for one question. */
  ghost predicate TimelyStep(u: Setup, s: State, e: Event, q: Question) {
    match e
    case Keep(id, msg) =>
      IsAnswered(s, id) && s.pending[id].q == q ==>
        InTime(u, msg.answer, s.pending[id].answered.value.answer, q.name, s.pending[id].answered.value.at, s.now)
    case Answer(id, msg, _, _) =>
      id in s.pending && s.pending[id].q == q ==> CutsNothing(u, s, q, msg.answer)
    case Reconcile(_, timeout, _, _) => u.routeTimeout <= timeout
    case _ => true
  }

  // ------------------------------------------------------------ invariant of one question

  ghost predicate HasRecord(store: map<Key, DNSRecord>, q: Question, ip: IPv4, until: int) {
    AddressKey(q, ip) in store && store[AddressKey(q, ip)].expires.Some? && until <= store[AddressKey(q, ip)].expires.value
  }

  /** While the entry is served, its addresses have records of the question that outlive it. */
  ghost predicate EntryOk(u: Setup, s: State, q: Question) {
    Serves(s.cache, q, s.now) ==>
      forall ip :: ip in Selected(s.cache[q].msg.answer, q.name) ==>
        HasRecord(s.store, q, ip, s.cache[q].expires - u.routeTimeout)
  }

  /** Until its records time out, a processed answer has them all. */
  ghost predicate AnswerOk(u: Setup, s: State, id: nat)
    requires IsAnswered(s, id)
  {
    s.now <= ExpiryOf(s, id) + u.routeTimeout ==>
      forall ip :: ip in Selected(s.pending[id].answered.value.answer, s.pending[id].q.name) ==>
        HasRecord(s.store, s.pending[id].q, ip, ExpiryOf(s, id))
  }

  ghost predicate Timely(u: Setup, s: State, q: Question) {
    && Proper(u, q) && (forall id :: id in s.pending ==> Proper(u, s.pending[id].q))
    && EntryOk(u, s, q)
    && (forall id :: IsAnswered(s, id) && s.pending[id].q == q ==> AnswerOk(u, s, id))
  }

  /** A state in which nothing is in progress and the question is not cached is a possible beginning. */
  lemma NothingIsTimely(u: Setup, s: State, q: Question)
    requires Proper(u, q) && s.pending == map[] && !Serves(s.cache, q, s.now)
    ensures Timely(u, s, q)
  {
  }

  /** What a step does to the records of a question it does not answer. */
  lemma RecordStays(u: Setup, s: State, e: Event, s': State, q: Question, ip: IPv4, until: int)
    requires Step(u, s, e, s') && TimelyStep(u, s, e, q) && Proper(u, q)
    requires forall id :: id in s.pending ==> Proper(u, s.pending[id].q)
    requires HasRecord(s.store, q, ip, until)
    requires s'.now <= until + u.routeTimeout
    requires e.Answer? && s.pending[e.id].q == q && ip in Selected(e.msg.answer, q.name) ==>
               until <= RecordExpiry(e.msg.answer, q.name, s.now)
    ensures HasRecord(s'.store, q, ip, until)
  {
    hide Selected, Reconciles, Sorted, RecordExpiry, Applied, Reached, Adds, Deletes, Honest, RoutesFor, PutInto;
    match e
    case Answer(id, msg, _, _) =>
      RecordingKeeps(u, s.store, s.pending[id].q, msg.answer, s.now, q, ip, until);
    case Reconcile(_, _, _, _) => SweepKeepsRecord(u, s, e, s', q, ip, until);
    case _ =>
  }

  lemma SweepKeepsRecord(u: Setup, s: State, e: Event, s': State, q: Question, ip: IPv4, until: int)
    requires e.Reconcile? && Step(u, s, e, s') && u.routeTimeout <= e.timeout
    requires HasRecord(s.store, q, ip, until) && s'.now <= until + u.routeTimeout
    ensures HasRecord(s'.store, q, ip, until)
  {
    hide FoundLive, Pass;
    var k := AddressKey(q, ip);
    assert !ExpiredAt(s.store[k], e.timeout, e.rec.mid);
    assert k in s'.store && s'.store[k] == s.store[k];
  }

  /** Processing a reply leaves the records of every other question alone. */
  lemma RecordingKeeps(u: Setup, store: map<Key, DNSRecord>, o: Question, answer: seq<Record>, now: int,
                       q: Question, ip: IPv4, until: int)
    requires Proper(u, q) && Proper(u, o) && HasRecord(store, q, ip, until)
    requires o == q && ip in Selected(answer, q.name) ==> until <= RecordExpiry(answer, q.name, now)
    ensures HasRecord(Processed(store, o, answer, now), q, ip, until)
  {
    hide Selected, Sorted, RecordExpiry;
    SortedSame(Selected(answer, o.name));
    if o != q && Normalize(o.name) == Normalize(q.name) {
      NormalizeInjective(o.name, q.name);
    }
  }

  lemma JustRecorded(store: map<Key, DNSRecord>, q: Question, answer: seq<Record>, now: int)
    ensures forall ip :: ip in Selected(answer, q.name) ==>
              HasRecord(Processed(store, q, answer, now), q, ip, RecordExpiry(answer, q.name, now))
  {
    hide Selected, Sorted, RecordExpiry;
    SortedSame(Selected(answer, q.name));
  }

  lemma EntryStays(u: Setup, s: State, e: Event, s': State, q: Question)
    requires Timely(u, s, q) && Step(u, s, e, s') && TimelyStep(u, s, e, q)
    ensures EntryOk(u, s', q)
  {
    if e.Keep? && s.pending[e.id].q == q && Cacheable(u.w, e.msg.answer) {
      KeptIsOk(u, s, e, s', q);
    } else if Serves(s'.cache, q, s'.now) {
      OldEntry(u, s, e, s', q);
      forall ip | ip in Selected(s'.cache[q].msg.answer, q.name)
        ensures HasRecord(s'.store, q, ip, s'.cache[q].expires - u.routeTimeout)
      {
        if e.Answer? && s.pending[e.id].q == q && ip in Selected(e.msg.answer, q.name) {
          EntryNotCutShort(u, s, e, s', q, ip);
        }
        RecordStays(u, s, e, s', q, ip, s.cache[q].expires - u.routeTimeout);
      }
    }
  }

  lemma EntryNotCutShort(u: Setup, s: State, e: Event, s': State, q: Question, ip: IPv4)
    requires Step(u, s, e, s') && TimelyStep(u, s, e, q) && ServesUnder(s, q, ip)
    requires e.Answer? && s.pending[e.id].q == q && ip in Selected(e.msg.answer, q.name)
    ensures s.cache[q].expires <= RecordExpiry(e.msg.answer, q.name, s.now) + u.routeTimeout
  {
    hide RecordExpiry, Reconciles, Processed, Applied, Reached, Adds, Deletes, Honest, RoutesFor, Sorted, PutInto, InTime, Selected;
    assert CutsNothing(u, s, q, e.msg.answer);
  }

  lemma OldEntry(u: Setup, s: State, e: Event, s': State, q: Question)
    requires Step(u, s, e, s') && Serves(s'.cache, q, s'.now)
    requires !(e.Keep? && s.pending[e.id].q == q && Cacheable(u.w, e.msg.answer))
    ensures Serves(s.cache, q, s.now) && s'.cache[q] == s.cache[q]
  {
    hide Selected, Reconciles, Processed, Applied, Reached, Adds, Deletes, Honest, RoutesFor, Sorted, Cacheable, MinTTL;
  }

  lemma KeptIsOk(u: Setup, s: State, e: Event, s': State, q: Question)
    requires Timely(u, s, q) && Step(u, s, e, s') && TimelyStep(u, s, e, q)
    requires e.Keep? && s.pending[e.id].q == q && Cacheable(u.w, e.msg.answer)
    ensures EntryOk(u, s', q)
  {
    hide Selected, MinTTL, RecordExpiry, Cacheable;
    var a := s.pending[e.id].answered.value;
    SelectedIgnoresTtl(a.answer, e.msg.answer, q.name);
    TtlIsPositive(u.w, e.msg.answer);
    assert AnswerOk(u, s, e.id);
  }

  lemma AnswerStays(u: Setup, s: State, e: Event, s': State, q: Question, id: nat)
    requires Timely(u, s, q) && Step(u, s, e, s') && TimelyStep(u, s, e, q)
    requires IsAnswered(s', id) && s'.pending[id].q == q
    ensures AnswerOk(u, s', id)
  {
    hide RecordExpiry, Selected, Step, EntryOk;
    var from := if e.Share? && e.id == id then e.from else id;
    if e.Answer? && e.id == id {
      NewAnswer(u, s, e, s');
    } else {
      OldAnswer(u, s, e, s', id, from);
      assert AnswerOk(u, s, from);
      if s'.now <= ExpiryOf(s, from) + u.routeTimeout {
        forall ip | ip in Selected(s.pending[from].answered.value.answer, q.name)
          ensures HasRecord(s'.store, q, ip, ExpiryOf(s, from))
        {
          AnsweredRecordStays(u, s, e, s', q, from, ip);
        }
      }
    }
  }

  lemma AnsweredRecordStays(u: Setup, s: State, e: Event, s': State, q: Question, id: nat, ip: IPv4)
    requires Timely(u, s, q) && Step(u, s, e, s') && TimelyStep(u, s, e, q) && IsAnswered(s, id) && s.pending[id].q == q
    requires ip in Selected(s.pending[id].answered.value.answer, q.name) && HasRecord(s.store, q, ip, ExpiryOf(s, id))
    requires s'.now <= ExpiryOf(s, id) + u.routeTimeout
    ensures HasRecord(s'.store, q, ip, ExpiryOf(s, id))
  {
    hide RecordExpiry, Reconciles, Processed, Applied, Reached, Adds, Deletes, Honest, RoutesFor, Sorted, PutInto, InTime, Selected;
    hide EntryOk, AnswerOk, HasRecord;
    if e.Answer? && s.pending[e.id].q == q {
      assert CutsNothing(u, s, q, e.msg.answer);
    }
    RecordStays(u, s, e, s', q, ip, ExpiryOf(s, id));
  }

  lemma OldAnswer(u: Setup, s: State, e: Event, s': State, id: nat, from: nat)
    requires Step(u, s, e, s') && IsAnswered(s', id) && !(e.Answer? && e.id == id)
    requires from == if e.Share? && e.id == id then e.from else id
    ensures IsAnswered(s, from) && s'.pending[id] == s.pending[from] && s.now <= s'.now
  {
    hide Selected, Reconciles, Processed, Applied, Reached, Adds, Deletes, Honest, RoutesFor, Sorted, PutInto;
  }

  lemma NewAnswer(u: Setup, s: State, e: Event, s': State)
    requires Step(u, s, e, s') && e.Answer?
    ensures IsAnswered(s', e.id) && AnswerOk(u, s', e.id)
  {
    hide Selected, Processed, Applied, Reached, Adds, Deletes, Honest, RoutesFor, Sorted, RecordExpiry;
    JustRecorded(s.store, s.pending[e.id].q, e.msg.answer, s.now);
  }

  lemma QuestionsStayProper(u: Setup, s: State, e: Event, s': State)
    requires Step(u, s, e, s') && forall id :: id in s.pending ==> Proper(u, s.pending[id].q)
    ensures forall id :: id in s'.pending ==> Proper(u, s'.pending[id].q)
  {
    hide Proper, Selected, Reconciles, Processed, Applied, Reached, Adds, Deletes, Honest, RoutesFor, Sorted, PutInto;
  }

  /** Every timely step keeps the invariant of the question, whatever goes on with other questions. */
  lemma StepKeepsTimely(u: Setup, s: State, e: Event, s': State, q: Question)
    requires Timely(u, s, q) && Step(u, s, e, s') && TimelyStep(u, s, e, q)
    ensures Timely(u, s', q)
  {
    hide Step, TimelyStep, EntryOk, AnswerOk;
    QuestionsStayProper(u, s, e, s');
    EntryStays(u, s, e, s', q);
    forall id | IsAnswered(s', id) && s'.pending[id].q == q
      ensures AnswerOk(u, s', id)
    {
      AnswerStays(u, s, e, s', q, id);
    }
  }

  // ------------------------------------------------------------ paths

  ghost predicate TimelyPath(u: Setup, states: seq<State>, events: seq<Event>, q: Question) {
    |states| == |events| + 1 && forall i :: 0 <= i < |events| ==> TimelyStep(u, states[i], events[i], q)
  }

  lemma {:induction false} PathKeepsTimely(u: Setup, states: seq<State>, events: seq<Event>, n: nat, q: Question)
    requires Path(u, states, events) && TimelyPath(u, states, events, q) && n < |states|
    requires Timely(u, states[0], q)
    ensures Timely(u, states[n], q)
  {
    hide Timely, Step, TimelyStep;
    if n > 0 {
      PathKeepsTimely(u, states, events, n - 1, q);
      assert Step(u, states[n - 1], events[n - 1], states[n - 1 + 1]);
      StepKeepsTimely(u, states[n - 1], events[n - 1], states[n], q);
    }
  }

  /** An address is safe when all the questions it is served under are timely. */
  lemma TimelyIsOk(u: Setup, s: State, ip: IPv4)
    requires forall q :: ServesUnder(s, q, ip) ==> Timely(u, s, q)
    ensures AddressOk(u, s, ip)
  {
    hide Selected;
    forall q | ServesUnder(s, q, ip)
      ensures Live(s.store, ip, u.routeTimeout, s.cache[q].expires)
    {
      assert Timely(u, s, q);
      assert HasRecord(s.store, q, ip, s.cache[q].expires - u.routeTimeout);
      assert AddressKey(q, ip) in s.store;
    }
  }

  /** One question alone: while it is served, every address its answer selects is live. */
  lemma ServedUnderIsLive(u: Setup, states: seq<State>, events: seq<Event>, n: nat, q: Question, ip: IPv4)
    requires Path(u, states, events) && TimelyPath(u, states, events, q) && n < |states|
    requires Timely(u, states[0], q) && ServesUnder(states[n], q, ip)
    ensures Live(states[n].store, ip, u.routeTimeout, states[n].now)
  {
    hide Selected, Path, TimelyPath;
    PathKeepsTimely(u, states, events, n, q);
    assert HasRecord(states[n].store, q, ip, states[n].cache[q].expires - u.routeTimeout);
    assert AddressKey(q, ip) in states[n].store;
  }

  // ------------------------------------------------------------ from the processing to the cache

  lemma {:induction false} TimeRises(u: Setup, states: seq<State>, events: seq<Event>, i: nat, j: nat)
    requires Path(u, states, events) && i <= j < |states|
    ensures states[i].now <= states[j].now
    decreases j - i
  {
    hide Reconciles, Processed, Applied, Reached, Adds, Deletes, RoutesFor, PutInto;
    if i < j {
      TimeRises(u, states, events, i, j - 1);
      assert Step(u, states[j - 1], events[j - 1], states[j - 1 + 1]);
    }
  }

  /** A processed answer stays with its resolution until that finishes. */
  lemma {:induction false} AnsweredUntilFinished(u: Setup, states: seq<State>, events: seq<Event>, i: nat, j: nat, id: nat)
    requires Path(u, states, events) && i <= j < |states| && IsAnswered(states[i], id)
    requires forall k :: i <= k < j ==> events[k] != Finish(id)
    ensures IsAnswered(states[j], id) && states[j].pending[id] == states[i].pending[id]
    decreases j - i
  {
    hide Step;
    if i < j {
      AnsweredUntilFinished(u, states, events, i, j - 1, id);
      assert Step(u, states[j - 1], events[j - 1], states[j - 1 + 1]);
      StillAnswered(u, states[j - 1], events[j - 1], states[j], id);
    }
  }

  lemma StillAnswered(u: Setup, s: State, e: Event, s': State, id: nat)
    requires Step(u, s, e, s') && e != Finish(id) && IsAnswered(s, id)
    ensures IsAnswered(s', id) && s'.pending[id] == s.pending[id]
  {
    hide Reconciles, Processed, PutInto, RoutesFor, Applied, Reached, Adds, Deletes, Honest, Sorted, Selected;
  }

  lemma AnsweredIsLive(u: Setup, s: State, id: nat, ip: IPv4)
    requires IsAnswered(s, id) && Timely(u, s, s.pending[id].q)
    requires ip in Selected(s.pending[id].answered.value.answer, s.pending[id].q.name)
    requires s.now <= ExpiryOf(s, id) + u.routeTimeout
    ensures Live(s.store, ip, u.routeTimeout, s.now)
  {
    hide Selected, RecordExpiry;
    assert AnswerOk(u, s, id);
    assert HasRecord(s.store, s.pending[id].q, ip, ExpiryOf(s, id));
    assert AddressKey(s.pending[id].q, ip) in s.store;
  }

  lemma PathLength(u: Setup, states: seq<State>, events: seq<Event>)
    requires Path(u, states, events)
    ensures |states| == |events| + 1
  {
  }

  /** Between processing and caching a route in place to a selected address stays in place, as long as
      the records of the answer have not timed out. */
  lemma AnsweredRoutesStay(u: Setup, states: seq<State>, events: seq<Event>, i: nat, j: nat, id: nat, r: Route)
    requires Path(u, states, events) && i <= j < |states| && IsAnswered(states[i], id)
    requires var q := states[i].pending[id].q;
             && Timely(u, states[0], q) && TimelyPath(u, states, events, q)
             && r.addr in Selected(states[i].pending[id].answered.value.answer, q.name)
    requires forall k :: i <= k < j ==> events[k] != Finish(id)
    requires states[j].now <= ExpiryOf(states[i], id) + u.routeTimeout
    requires InPlace(states[i], r)
    ensures InPlace(states[j], r)
  {
    hide Selected, RecordExpiry, Path, TimelyPath, Timely, InPlace, LongEnough, Live;
    var q := states[i].pending[id].q;
    PathLength(u, states, events);
    TimelyIsLongEnough(u, states, events, q);
    forall k | i < k <= j
      ensures Live(states[k].store, r.addr, u.routeTimeout, states[k].now)
    {
      PathKeepsTimely(u, states, events, k, q);
      AnsweredUntilFinished(u, states, events, i, k, id);
      TimeRises(u, states, events, k, j);
      AnsweredIsLive(u, states[k], id, r.addr);
    }
    LiveRoutesStay(u, states, events, i, j, r);
  }

  lemma TimelyIsLongEnough(u: Setup, states: seq<State>, events: seq<Event>, q: Question)
    requires TimelyPath(u, states, events, q)
    ensures forall k :: 0 <= k < |events| ==> LongEnough(u, events[k])
  {
    hide InTime, CutsNothing;
    forall k | 0 <= k < |events|
      ensures LongEnough(u, events[k])
    {
      assert TimelyStep(u, states[k], events[k], q);
    }
  }

  // ------------------------------------------------------------ end to end

  /** The questions are timely from the first state on. */
  ghost predicate AllTimely(u: Setup, states: seq<State>, events: seq<Event>, qs: set<Question>) {
    |states| > 0 && forall q :: q in qs ==> Timely(u, states[0], q) && TimelyPath(u, states, events, q)
  }

  /** End to end. An answer is processed (event `n`) and goes into the cache (event `m`) before its
      resolution finishes; a route to one of its addresses is in place after the processing, because
      the agent has just acknowledged it or because it was there before. Then the route is in the
      router's table at every later moment `j`, for as long as the cache keeps serving some answer that
      selects its address under one of the questions `qs`. Only these questions need be timely; anything
      else may happen in between. */
  lemma ProcessedRouteStays(u: Setup, states: seq<State>, events: seq<Event>, qs: set<Question>, n: nat, m: nat, j: nat, r: Route)
    requires Path(u, states, events) && AllTimely(u, states, events, qs) && n < m < j < |states|
    requires events[n].Answer? && events[n].id in states[n].pending && states[n].pending[events[n].id].q in qs
    requires r.addr in Selected(events[n].msg.answer, states[n].pending[events[n].id].q.name) && InPlace(states[n + 1], r)
    requires events[m].Keep? && events[m].id == events[n].id && Cacheable(u.w, events[m].msg.answer)
    requires forall k :: n < k < m ==> events[k] != Finish(events[n].id)
    requires forall k :: m + 1 < k <= j ==> exists q :: q in qs && ServesUnder(states[k], q, r.addr)
    ensures InPlace(states[j], r)
  {
    hide Selected, MinTTL, Cacheable, InPlace, TimelyPath, Timely, LongEnough, Live, Path, ServesUnder, Step;
    PathLength(u, states, events);
    var id := events[n].id;
    var q := states[n].pending[id].q;
    JustAnswered(u, states, events, n);
    AnsweredUntilFinished(u, states, events, n + 1, m, id);
    KeepIsInTime(u, states, events, m, q, r.addr);
    AnsweredRoutesStay(u, states, events, n + 1, m, id, r);
    KeepMovesNoRoute(u, states, events, m, r);
    TimelyIsLongEnough(u, states, events, q);
    forall k | m + 1 < k <= j
      ensures Live(states[k].store, r.addr, u.routeTimeout, states[k].now)
    {
      var o :| o in qs && ServesUnder(states[k], o, r.addr);
      ServedUnderIsLive(u, states, events, k, o, r.addr);
    }
    LiveRoutesStay(u, states, events, m + 1, j, r);
  }

  /** In particular for a route the agent acknowledges during the processing. */
  lemma AcknowledgedRouteStays(u: Setup, states: seq<State>, events: seq<Event>, qs: set<Question>, n: nat, k: nat, m: nat, j: nat)
    requires Path(u, states, events) && AllTimely(u, states, events, qs) && n < m < j < |states|
    requires events[n].Answer? && events[n].id in states[n].pending && states[n].pending[events[n].id].q in qs
    requires k < |events[n].calls| && events[n].calls[k].ok
    requires events[m].Keep? && events[m].id == events[n].id && Cacheable(u.w, events[m].msg.answer)
    requires forall x :: n < x < m ==> events[x] != Finish(events[n].id)
    requires forall x :: m + 1 < x <= j ==> exists q :: q in qs && ServesUnder(states[x], q, events[n].calls[k].route.addr)
    ensures InPlace(states[j], events[n].calls[k].route)
  {
    hide Selected, Cacheable, InPlace, AllTimely, ServesUnder, Step;
    assert Step(u, states[n], events[n], states[n + 1]);
    AcknowledgedIsThere(u, states[n], events[n], states[n + 1], k);
    ProcessedRouteStays(u, states, events, qs, n, m, j, events[n].calls[k].route);
  }

  lemma JustAnswered(u: Setup, states: seq<State>, events: seq<Event>, n: nat)
    requires Path(u, states, events) && n < |events| && events[n].Answer?
    ensures events[n].id in states[n].pending && IsAnswered(states[n + 1], events[n].id)
    ensures states[n + 1].pending[events[n].id]
         == Resolution(states[n].pending[events[n].id].q, Some(Answered(events[n].msg.answer, states[n].now)))
  {
    hide Reconciles, Processed, RoutesFor, Applied, Reached, Adds, Deletes, Honest, Sorted, Selected;
    assert Step(u, states[n], events[n], states[n + 1]);
  }

  lemma KeepIsInTime(u: Setup, states: seq<State>, events: seq<Event>, m: nat, q: Question, ip: IPv4)
    requires Path(u, states, events) && TimelyPath(u, states, events, q) && m < |events|
    requires events[m].Keep? && Cacheable(u.w, events[m].msg.answer) && IsAnswered(states[m], events[m].id)
    requires states[m].pending[events[m].id].q == q && ip in Selected(states[m].pending[events[m].id].answered.value.answer, q.name)
    ensures states[m].now <= ExpiryOf(states[m], events[m].id) + u.routeTimeout
  {
    hide Selected, RecordExpiry, MinTTL, Path;
    assert TimelyStep(u, states[m], events[m], q);
    TtlIsPositive(u.w, events[m].msg.answer);
  }

  lemma KeepMovesNoRoute(u: Setup, states: seq<State>, events: seq<Event>, m: nat, r: Route)
    requires Path(u, states, events) && m < |events| && events[m].Keep? && InPlace(states[m], r)
    ensures InPlace(states[m + 1], r)
  {
    hide PutInto;
    assert Step(u, states[m], events[m], states[m + 1]);
  }

  // ------------------------------------------------------------ one resolution at a time

  /** A resolution of the question starts only when no other one is in progress. */
  ghost predicate OneAtATime(s: State, e: Event, q: Question) {
    e.Ask? && e.q == q ==> forall id :: id in s.pending ==> s.pending[id].q != q
  }

  ghost predicate Alone(s: State, q: Question) {
    && (forall i, j :: i in s.pending && j in s.pending && s.pending[i].q == q && s.pending[j].q == q ==> i == j)
    && (forall id :: IsOpen(s, id) && s.pending[id].q == q ==> !Serves(s.cache, q, s.now))
  }

  lemma StepKeepsAlone(u: Setup, s: State, e: Event, s': State, q: Question)
    requires Alone(s, q) && Step(u, s, e, s') && OneAtATime(s, e, q)
    ensures Alone(s', q)
  {
    hide Reconciles, Processed, Applied, Reached, Adds, Deletes, Honest, RoutesFor, Sorted, Selected, MinTTL;
  }

  lemma AloneCutsNothing(u: Setup, s: State, e: Event, s': State, q: Question)
    requires Alone(s, q) && Step(u, s, e, s') && e.Answer? && s.pending[e.id].q == q
    ensures CutsNothing(u, s, q, e.msg.answer)
  {
    hide Processed, Applied, Reached, Adds, Deletes, Honest, RoutesFor, Sorted, Selected, RecordExpiry;
  }

  /** When its resolutions never overlap, a question needs only that what is cached is in time. */
  lemma {:induction false} OneAtATimeIsTimely(u: Setup, states: seq<State>, events: seq<Event>, q: Question, n: nat)
    requires Path(u, states, events) && n <= |events| && Alone(states[0], q)
    requires forall i :: 0 <= i < n ==> OneAtATime(states[i], events[i], q)
    requires forall i :: 0 <= i < n && !events[i].Answer? ==> TimelyStep(u, states[i], events[i], q)
    ensures Alone(states[n], q) && forall i :: 0 <= i < n ==> TimelyStep(u, states[i], events[i], q)
  {
    hide Alone, OneAtATime, Step, CutsNothing, InTime;
    if n > 0 {
      OneAtATimeIsTimely(u, states, events, q, n - 1);
      var s, e, s' := states[n - 1], events[n - 1], states[n - 1 + 1];
      assert Step(u, s, e, s') && OneAtATime(s, e, q);
      StepKeepsAlone(u, s, e, s', q);
      if e.Answer? && e.id in s.pending && s.pending[e.id].q == q {
        AloneCutsNothing(u, s, e, s', q);
      }
    }
  }

  // ------------------------------------------------------------ when an answer is in time

  predicate PositiveTtls(answer: seq<Record>) {
    forall i :: 0 <= i < |answer| ==> answer[i].ttl > 0
  }

  /** Positive TTLs, possibly lowered to other positive ones before caching, and a route timeout of at
      least the delay between the service's clock reading and the caching are enough. */
  lemma LoweredTtlsAreInTime(u: Setup, kept: seq<Record>, answer: seq<Record>, name: string, at: int, now: int)
    requires Retimed(answer, kept)
    requires forall i :: 0 <= i < |answer| ==> 0 < kept[i].ttl <= answer[i].ttl
    requires now - at <= u.routeTimeout
    ensures InTime(u, kept, answer, name, at, now)
  {
    hide ChainTtl, Selected, MinTTL;
    if Cacheable(u.w, kept) {
      MinTTLIsLeast(u.w, kept);
      ChainTtlFromRecord(answer, name);
      assert MinTTL(u.w, kept) <= Max(ChainTtl(answer, name), 1);
      assert MinTTL(u.w, kept) * SECOND <= Max(ChainTtl(answer, name), 1) * SECOND;
    }
  }

  /** In particular, when the TTLs are cached as they came. */
  lemma PositiveTtlsAreInTime(u: Setup, answer: seq<Record>, name: string, at: int, now: int)
    requires PositiveTtls(answer)
    requires now - at <= u.routeTimeout
    ensures InTime(u, answer, answer, name, at, now)
  {
    LoweredTtlsAreInTime(u, answer, answer, name, at, now);
  }
}
