/** The end-to-end guarantee is exact: an address is safe in a state if and only if nothing that can
    follow serves it without a live record, and otherwise an acknowledged route to it can be lost. Two
    runs show how the code gets into such a state: with a zero TTL, and with two overlapping
    resolutions of one question. */
module Coverage {
  import opened Basics
  import opened Addresses
  import opened Clocks
  import opened Messages
  import opened CacheModel
  import opened Hosts
  import opened Store
  import opened Chains
  import opened Routes
  import opened Service
  import opened EndToEnd
  import opened Timing

  /** However the system goes on, with steps covered for the address: while the cache serves an answer
      that selects the address, the address has a live record. */
  ghost predicate Safe(u: Setup, s: State, ip: IPv4) {
    forall states: seq<State>, events: seq<Event> ::
      Path(u, states, events) && CoveredPath(u, states, events, ip) && states[0] == s
      && ServesAddress(states[|events|], ip) ==>
        Live(states[|events|].store, ip, u.routeTimeout, states[|events|].now)
  }

  /** However the system goes on, with steps covered for the address: while the cache keeps serving the
      address, a route to it that is in place stays in place. */
  ghost predicate KeepsRoute(u: Setup, s: State, r: Route) {
    forall states: seq<State>, events: seq<Event> ::
      Path(u, states, events) && CoveredPath(u, states, events, r.addr) && states[0] == s
      && (forall k :: 0 <= k < |states| ==> ServesAddress(states[k], r.addr)) ==>
        InPlace(states[|events|], r)
  }

  /** An entry that outlives all records of one of its addresses. */
  ghost predicate Outlives(u: Setup, s: State, q: Question, ip: IPv4) {
    ServesUnder(s, q, ip) && !Live(s.store, ip, u.routeTimeout, s.cache[q].expires)
  }

  lemma NotOk(u: Setup, s: State, ip: IPv4) returns (q: Question)
    requires !AddressOk(u, s, ip)
    ensures Outlives(u, s, q, ip)
  {
    hide Selected, Live;
    q :| ServesUnder(s, q, ip) && !Live(s.store, ip, u.routeTimeout, s.cache[q].expires);
  }

  /** Waiting is enough to get to a state that serves the address without a live record. */
  lemma OutlivedExpires(u: Setup, s: State, q: Question, ip: IPv4) returns (states: seq<State>, events: seq<Event>)
    requires Outlives(u, s, q, ip)
    ensures Path(u, states, events) && CoveredPath(u, states, events, ip) && states[0] == s
    ensures events == [Tick(s.cache[q].expires)] && states[1] == s.(now := s.cache[q].expires)
    ensures ServesUnder(states[1], q, ip) && !Live(states[1].store, ip, u.routeTimeout, states[1].now)
  {
    hide Selected, Live;
    states, events := [s, s.(now := s.cache[q].expires)], [Tick(s.cache[q].expires)];
  }

  /** An address is safe for everything that can follow if and only if each served entry that selects
      it is outlived by a record of it. */
  lemma SafeIff(u: Setup, s: State, ip: IPv4)
    ensures AddressOk(u, s, ip) <==> Safe(u, s, ip)
  {
    hide Selected, Live, Step, CoveredStep, ServesAddress, ServesUnder;
    if AddressOk(u, s, ip) {
      forall states: seq<State>, events: seq<Event> |
        Path(u, states, events) && CoveredPath(u, states, events, ip) && states[0] == s
        && ServesAddress(states[|events|], ip)
        ensures Live(states[|events|].store, ip, u.routeTimeout, states[|events|].now)
      {
        ServedAtTheEnd(u, states, events, ip);
      }
    } else {
      var q := NotOk(u, s, ip);
      var states, events := OutlivedExpires(u, s, q, ip);
      ServedSomehow(states[1], q, ip);
      assert ServesAddress(states[|events|], ip);
    }
  }

  lemma ServedAtTheEnd(u: Setup, states: seq<State>, events: seq<Event>, ip: IPv4)
    requires Path(u, states, events) && CoveredPath(u, states, events, ip) && AddressOk(u, states[0], ip)
    requires ServesAddress(states[|events|], ip)
    ensures Live(states[|events|].store, ip, u.routeTimeout, states[|events|].now)
  {
    hide AddressOk, Step, CoveredStep, ServesAddress, Live;
    ServedAddressesAreLive(u, states, events, |events|, ip);
  }

  lemma ServedSomehow(s: State, q: Question, ip: IPv4)
    requires ServesUnder(s, q, ip)
    ensures ServesAddress(s, ip)
  {
  }

  /** The hypothesis about a step is exactly what is needed: when an answer is cached or recorded, the
      address is safe for everything that can follow if and only if the step is covered. */
  lemma CoveredIff(u: Setup, s: State, e: Event, s': State, ip: IPv4)
    requires AddressOk(u, s, ip) && Step(u, s, e, s') && (e.Keep? || e.Answer?)
    ensures CoveredStep(u, s, e, ip) <==> Safe(u, s', ip)
  {
    hide Safe;
    SafeIff(u, s', ip);
    if CoveredStep(u, s, e, ip) {
      StepKeepsAddressOk(u, s, e, s', ip);
    } else {
      UncoveredOutlives(u, s, e, s', ip);
    }
  }

  lemma UncoveredOutlives(u: Setup, s: State, e: Event, s': State, ip: IPv4)
    requires Step(u, s, e, s') && (e.Keep? || e.Answer?) && !CoveredStep(u, s, e, ip)
    ensures !AddressOk(u, s', ip)
  {
    hide Selected, Live, Processed, Adds, Deletes, Applied, Reached, Honest, MinTTL, Cacheable, RoutesFor, Sorted;
    if e.Keep? {
      TtlIsPositive(u.w, e.msg.answer);
      assert ServesUnder(s', s.pending[e.id].q, ip);
    } else {
      var q :| ServesUnder(s, q, ip) && !Live(s'.store, ip, u.routeTimeout, s.cache[q].expires);
      assert ServesUnder(s', q, ip);
    }
  }

  // ------------------------------------------------------------ a reconciliation in which every call succeeds

  lemma {:induction false} AddCalls(routes: set<Route>) returns (calls: seq<Call>)
    ensures Adds(calls) == AckedAdds(calls) == routes && Deletes(calls) == AckedDeletes(calls) == {} && Honest(calls)
  {
    calls := [];
    if r :| r in routes {
      var rest := AddCalls(routes - {r});
      CallsOfOne(rest, AddCall(r, true, true));
      calls := rest + [AddCall(r, true, true)];
    }
  }

  lemma {:induction false} PerfectCalls(adds: set<Route>, dels: set<Route>) returns (calls: seq<Call>)
    ensures Adds(calls) == adds && Deletes(calls) == dels && AllAcked(calls) && Honest(calls)
    decreases dels
  {
    if dels == {} {
      calls := AddCalls(adds);
    } else {
      var r :| r in dels;
      var rest := PerfectCalls(adds, dels - {r});
      CallsOfOne(rest, DeleteCall(r, true, true));
      calls := rest + [DeleteCall(r, true, true)];
    }
  }

  /** A reconciliation at one moment that reads the table truly and in which no call fails. */
  ghost predicate Perfect(s: State, e: Event) {
    e.Reconcile? && e.end == s.now && e.rec.defined == s.table && AllAcked(e.rec.calls)
  }

  /** There is one from any state, and the table is then exactly the desired set. */
  lemma PerfectReconcile(u: Setup, s: State, timeout: int, fixed: set<Route>) returns (e: Event, s': State)
    ensures Perfect(s, e) && e.timeout == timeout && e.fixed == fixed && Step(u, s, e, s')
    ensures s'.now == s.now && s'.cache == s.cache && s'.pending == s.pending
    ensures forall r :: r in s'.table <==> r in fixed || (r in s.routes && Live(s.store, r.addr, timeout, s.now))
  {
    hide Live, Honest, Applied, Reached, Adds, Deletes, AllAcked;
    var store' := map k | k in s.store && !ExpiredAt(s.store[k], timeout, s.now) :: s.store[k];
    SweptAtOnce(s.store, store', timeout, s.now);
    var live := set r | r in s.routes && Live(s.store, r.addr, timeout, s.now);
    var desired := live + fixed;
    var calls := PerfectCalls(desired - s.table, s.table - desired);
    s' := s.(store := store', routes := Applied(s.routes, calls), table := Reached(s.table, calls));
    var rec := Reconciliation(s.now, s.table, live, calls);
    e := Reconcile(rec, timeout, fixed, s.now);
    assert FoundLive(live, s.routes, store', timeout, s.now, s.now);
    PassExactly(s.table, live, fixed, s.table, s.routes, s'.table, s'.routes, calls);
  }

  lemma SweptAtOnce(before: map<Key, DNSRecord>, after: map<Key, DNSRecord>, extra: int, now: int)
    requires after == map k | k in before && !ExpiredAt(before[k], extra, now) :: before[k]
    ensures Swept(before, after, extra, now, now)
    ensures forall ip :: Live(after, ip, extra, now) <==> Live(before, ip, extra, now)
  {
    forall ip | Live(before, ip, extra, now)
      ensures Live(after, ip, extra, now)
    {
      var k :| k in before && k.ip == ip && !ExpiredAt(before[k], extra, now);
      assert k in after && after[k] == before[k];
    }
    forall ip | Live(after, ip, extra, now)
      ensures Live(before, ip, extra, now)
    {
      var k :| k in after && k.ip == ip && !ExpiredAt(after[k], extra, now);
      assert k in before && after[k] == before[k];
    }
  }

  /** Then a route is lost: after the entry's lifetime has passed and a reconciliation in which nothing
      fails, the cache still serves the address and its route is not in the router's table. Both steps
      are covered. */
  lemma OutlivedRouteIsLost(u: Setup, s: State, q: Question, r: Route, fixed: set<Route>)
    returns (states: seq<State>, events: seq<Event>)
    requires Outlives(u, s, q, r.addr) && r !in fixed
    ensures Path(u, states, events) && CoveredPath(u, states, events, r.addr) && states[0] == s
    ensures |events| == 2 && events[0] == Tick(s.cache[q].expires)
    ensures Perfect(states[1], events[1]) && events[1].timeout == u.routeTimeout && events[1].fixed == fixed
    ensures states[2].now == s.cache[q].expires && states[2].cache == s.cache
    ensures forall k :: 0 <= k < 3 ==> ServesUnder(states[k], q, r.addr)
    ensures r !in states[2].table
  {
    hide Selected, Live, AllAcked, Step;
    states, events := OutlivedExpires(u, s, q, r.addr);
    var e, s' := PerfectReconcile(u, states[1], u.routeTimeout, fixed);
    assert Step(u, states[0], events[0], states[0 + 1]);
    states, events := states + [s'], events + [e];
  }

  /** A route in place is kept by everything that can follow, for as long as its address is served, if
      and only if its address is safe. */
  lemma RouteKeptIff(u: Setup, s: State, r: Route)
    requires InPlace(s, r)
    ensures AddressOk(u, s, r.addr) <==> KeepsRoute(u, s, r)
  {
    hide Selected, Live, Step, CoveredStep, InPlace, ServesAddress, ServesUnder;
    if AddressOk(u, s, r.addr) {
      forall states: seq<State>, events: seq<Event> |
        Path(u, states, events) && CoveredPath(u, states, events, r.addr) && states[0] == s
        && (forall k :: 0 <= k < |states| ==> ServesAddress(states[k], r.addr))
        ensures InPlace(states[|events|], r)
      {
        RouteAtTheEnd(u, states, events, r);
      }
    } else {
      var q := NotOk(u, s, r.addr);
      LosesRoute(u, s, q, r);
    }
  }

  lemma RouteAtTheEnd(u: Setup, states: seq<State>, events: seq<Event>, r: Route)
    requires Path(u, states, events) && CoveredPath(u, states, events, r.addr) && AddressOk(u, states[0], r.addr)
    requires forall k :: 0 <= k < |states| ==> ServesAddress(states[k], r.addr)
    requires InPlace(states[0], r)
    ensures InPlace(states[|events|], r)
  {
    hide AddressOk, Step, CoveredStep, ServesAddress, InPlace;
    ServedRoutesStay(u, states, events, 0, |events|, r);
  }

  lemma LosesRoute(u: Setup, s: State, q: Question, r: Route)
    requires Outlives(u, s, q, r.addr)
    ensures !KeepsRoute(u, s, r)
  {
    hide Selected, Live, ServesUnder, Perfect, Step, CoveredStep;
    var states, events := OutlivedRouteIsLost(u, s, q, r, {});
    PathLength(u, states, events);
    forall k | 0 <= k < |states|
      ensures ServesAddress(states[k], r.addr)
    {
      ServedSomehow(states[k], q, r.addr);
    }
    assert !InPlace(states[|events|], r);
  }

  // ------------------------------------------------------------ the first processing of an answer

  function Empty(): State {
    State(0, map[], map[], {}, {}, map[])
  }

  function TheQuestion(u: Setup): Question {
    Question("a.", TYPE_A, u.qclass)
  }

  lemma IsProper(u: Setup)
    ensures Proper(u, TheQuestion(u))
  {
    assert Normalize("a.") == "a";
  }

  lemma ProcessedOne(store: map<Key, DNSRecord>, q: Question, answer: seq<Record>, now: int, ip: IPv4)
    requires Selected(answer, q.name) == [ip]
    ensures Processed(store, q, answer, now)
         == store[AddressKey(q, ip) := DNSRecord(AddressKey(q, ip), Some(RecordExpiry(answer, q.name, now)))]
  {
    hide Selected, RecordExpiry;
    assert Sorted([ip]) == [ip];
  }

  /** The answer to the first question in an empty system: its route is asked for and acknowledged. */
  lemma FirstAnswer(u: Setup, msg: Message, ip: IPv4, iface: string) returns (s: State, e: Event, s': State)
    requires Selected(msg.answer, "a.") == [ip]
    ensures var q, r := TheQuestion(u), Route(u.table, iface, ip);
            && s == Empty().(pending := map[0 := Resolution(q, None)])
            && e == Answer(0, msg, {iface}, [AddCall(r, true, true)]) && Step(u, s, e, s')
            && s'.now == 0 && s'.cache == map[] && s'.routes == s'.table == {r}
            && s'.pending == map[0 := Resolution(q, Some(Answered(msg.answer, 0)))]
            && s'.store == map[AddressKey(q, ip) := DNSRecord(AddressKey(q, ip), Some(RecordExpiry(msg.answer, "a.", 0)))]
  {
    hide Selected, RecordExpiry, Processed, Applied, Reached, Honest;
    var q, r := TheQuestion(u), Route(u.table, iface, ip);
    var c := AddCall(r, true, true);
    s, e := Empty().(pending := map[0 := Resolution(q, None)]), Answer(0, msg, {iface}, [c]);
    OneCall(c);
    OneRoute(u.table, iface, ip);
    ProcessedOne(map[], q, msg.answer, 0, ip);
    s' := s.(store := Processed(s.store, q, msg.answer, 0), routes := Applied({}, [c]), table := Reached({}, [c]),
             pending := map[0 := Resolution(q, Some(Answered(msg.answer, 0)))]);
    assert s.pending[0 := Resolution(q, Some(Answered(msg.answer, 0)))] == s'.pending;
  }

  lemma OneCall(c: Call)
    requires c.AddCall? && c.ok && c.took
    ensures Adds([c]) == {c.route} && Deletes([c]) == {} && Honest([c]) && AllAcked([c])
    ensures Applied({}, [c]) == Reached({}, [c]) == {c.route}
  {
    hide Adds, Deletes, AckedAdds, AckedDeletes, Applied, Reached;
    CallsOfOne([], c);
    AppliedOne(c);
    NoCalls();
    assert [] + [c] == [c];
  }

  lemma NoCalls()
    ensures Adds([]) == Deletes([]) == AckedAdds([]) == AckedDeletes([]) == {}
  {
  }

  lemma OneRoute(table: int, iface: string, ip: IPv4)
    ensures Sorted([ip]) == [ip] && RoutesFor(table, {iface}, [ip]) == {Route(table, iface, ip)}
  {
  }

  lemma NotLiveAfter(store: map<Key, DNSRecord>, k: Key, ip: IPv4, expiry: int, extra: int, now: int)
    requires store == map[k := DNSRecord(k, Some(expiry))] && now > expiry + extra
    ensures !Live(store, ip, extra, now)
  {
  }

  // ------------------------------------------------------------ a zero TTL

  const ALIAS_TTL: uint32 := 7200

  /** An alias kept for two hours to an address with TTL zero. */
  function ZeroTtlAnswer(ip: IPv4): seq<Record> {
    [Record("a.", Cname("b."), ALIAS_TTL), Record("b.", A(ip), 0)]
  }

  lemma ZeroTtlFacts(w: Width, ip: IPv4)
    ensures var answer := ZeroTtlAnswer(ip);
            MinTTL(w, answer) == ALIAS_TTL && Selected(answer, "a.") == [ip] && ChainTtl(answer, "a.") == 0
  {
    hide MinTTL, ChainTtl;
    var answer, first := ZeroTtlAnswer(ip), [Record("a.", Cname("b."), ALIAS_TTL)];
    assert answer[..1] == first && first[..0] == [];
    ZeroTtlLifetime(w, ip);
    assert Aliases(first) == map["a." := Alias("b.", ALIAS_TTL)] && Aliases(answer) == Aliases(first);
    assert Walk(Aliases(answer), "b.", {"a."}) == Chain(["b."], true);
    assert Walk(Aliases(answer), "a.", {}) == Chain(["a.", "b."], true);
    assert AddressesOf(first, "b.") == [];
    assert AddressesOf(answer, "b.") == AddressesOf(first, "b.") + [answer[1].data.ip];
    ChainTtlIsLeast(answer, "a.");
    assert answer[1].data.A?;
  }

  lemma ZeroTtlLifetime(w: Width, ip: IPv4)
    ensures MinTTL(w, ZeroTtlAnswer(ip)) == ALIAS_TTL
  {
    hide MinTTL;
    var answer := ZeroTtlAnswer(ip);
    MinTTLIsLeast(w, answer);
    assert answer[0].ttl == ALIAS_TTL && Usable(w, answer[0].ttl);
  }

  /** With the default route timeout of an hour: this answer is processed in an empty system, its route is
      acknowledged, and the answer is cached at once. Two hours later, after a reconciliation without any
      failure, the cache still serves the address while its route is gone. Only the caching is not covered. */
  lemma ZeroTtlLosesRoute(u: Setup, ip: IPv4, iface: string) returns (states: seq<State>, events: seq<Event>)
    requires u.routeTimeout == 3600 * SECOND
    ensures var q, r := TheQuestion(u), Route(u.table, iface, ip);
            && Path(u, states, events) && |events| == 5 && states[0] == Empty()
            && events[0] == Ask(0, q)
            && events[1].Answer? && events[1].id == 0 && events[1].msg.answer == ZeroTtlAnswer(ip)
            && events[1].calls == [AddCall(r, true, true)] && InPlace(states[2], r)
            && events[2] == Keep(0, events[1].msg)
            && events[3] == Tick(ALIAS_TTL * SECOND)
            && Perfect(states[4], events[4]) && events[4].timeout == u.routeTimeout
            && (forall i :: 0 <= i < 5 ==> (CoveredStep(u, states[i], events[i], ip) <==> i != 2))
            && states[5].now == ALIAS_TTL * SECOND && ServesUnder(states[5], q, ip) && r !in states[5].table
  {
    hide Selected, ChainTtl, MinTTL, Live, AllAcked, Processed, Applied, Reached, Adds, Deletes, Honest;
    var q, r, answer := TheQuestion(u), Route(u.table, iface, ip), ZeroTtlAnswer(ip);
    var msg := Message(1, [q], true, answer);
    ZeroTtlFacts(u.w, ip);
    IsProper(u);
    var s1, e, s2 := FirstAnswer(u, msg, ip, iface);
    var s3 := s2.(cache := map[q := Stored(msg, ALIAS_TTL * SECOND)]);
    NotLiveAfter(s3.store, AddressKey(q, ip), ip, SECOND, u.routeTimeout, ALIAS_TTL * SECOND);
    var rest, more := OutlivedRouteIsLost(u, s3, q, r, {});
    AskIsStep(u, Empty(), 0, q);
    assert Empty().pending[0 := Resolution(q, None)] == s1.pending;
    KeepIsStep(u, s2, 0, q, msg, ALIAS_TTL, s3);
    assert Path(u, [Empty(), s1, s2, s3], [Ask(0, q), e, Keep(0, msg)]) by {
      hide Step;
    }
    states, events := PathsJoin(u, [Empty(), s1, s2, s3], [Ask(0, q), e, Keep(0, msg)], rest, more);
  }

  // ------------------------------------------------------------ overlapping resolutions

  const LONG: uint32 := 7200
  const SHORT: uint32 := 5

  function OneAddress(ip: IPv4, ttl: uint32): seq<Record> {
    [Record("a.", A(ip), ttl)]
  }

  lemma OneAddressParts(ip: IPv4, ttl: uint32)
    ensures Aliases(OneAddress(ip, ttl)) == map[] && AddressesOf(OneAddress(ip, ttl), "a.") == [ip]
  {
    var answer, none: seq<Record> := OneAddress(ip, ttl), [];
    assert answer[..|answer| - 1] == none && answer[|answer| - 1] == Record("a.", A(ip), ttl);
    assert AddressesOf(none, "a.") == [];
  }

  lemma OneAddressFacts(w: Width, ip: IPv4, ttl: uint32)
    requires 0 < ttl <= LONG
    ensures var answer := OneAddress(ip, ttl);
            MinTTL(w, answer) == ttl && Selected(answer, "a.") == [ip] && ChainTtl(answer, "a.") == ttl
  {
    hide ChainTtl, AddressesOf, Aliases;
    var answer := OneAddress(ip, ttl);
    assert answer[..0] == [];
    OneAddressParts(ip, ttl);
    assert Walk(Aliases(answer), "a.", {}) == Chain(["a."], true);
    ChainTtlIsLeast(answer, "a.");
    assert answer[0].data.A?;
  }

  /** The state once the first answer has been processed. */
  function FirstState(u: Setup, msg: Message, ip: IPv4, iface: string): State {
    var q, r := TheQuestion(u), Route(u.table, iface, ip);
    State(0, map[], map[AddressKey(q, ip) := DNSRecord(AddressKey(q, ip), Some(LONG * SECOND))], {r}, {r},
          map[0 := Resolution(q, Some(Answered(msg.answer, 0)))])
  }

  /** The state once the second answer has been processed, with a given cache. */
  function SecondState(u: Setup, m0: Message, m1: Message, ip: IPv4, iface: string, cache: map<Question, Stored>): State {
    var q, r := TheQuestion(u), Route(u.table, iface, ip);
    State(0, cache, map[AddressKey(q, ip) := DNSRecord(AddressKey(q, ip), Some(SHORT * SECOND))], {r}, {r},
          map[0 := Resolution(q, Some(Answered(m0.answer, 0))), 1 := Resolution(q, Some(Answered(m1.answer, 0)))])
  }

  /** An answer whose route is believed already asks for nothing and replaces the record. */
  lemma SecondAnswer(u: Setup, s: State, q: Question, msg: Message, ip: IPv4, iface: string) returns (s': State)
    requires q == TheQuestion(u) && 1 in s.pending && s.pending[1] == Resolution(q, None)
    requires Selected(msg.answer, "a.") == [ip] && s.routes == {Route(u.table, iface, ip)}
    requires s.store.Keys == {AddressKey(q, ip)}
    ensures Step(u, s, Answer(1, msg, {iface}, []), s')
    ensures s' == s.(store := map[AddressKey(q, ip) := DNSRecord(AddressKey(q, ip), Some(RecordExpiry(msg.answer, "a.", s.now)))],
                     pending := s.pending[1 := Resolution(q, Some(Answered(msg.answer, s.now)))])
  {
    hide Selected, RecordExpiry, Processed, Applied, Reached;
    OneRoute(u.table, iface, ip);
    NothingAppliedYet();
    ProcessedOne(s.store, q, msg.answer, s.now, ip);
    s' := s.(store := Processed(s.store, q, msg.answer, s.now),
             pending := s.pending[1 := Resolution(q, Some(Answered(msg.answer, s.now)))]);
  }

  lemma AskIsStep(u: Setup, s: State, id: nat, q: Question)
    requires Proper(u, q) && id !in s.pending && !Serves(s.cache, q, s.now)
    ensures Step(u, s, Ask(id, q), s.(pending := s.pending[id := Resolution(q, None)]))
  {
  }

  lemma KeepIsStep(u: Setup, s: State, id: nat, q: Question, msg: Message, ttl: uint32, s': State)
    requires IsAnswered(s, id) && s.pending[id].q == q && s.pending[id].answered.value.answer == msg.answer
    requires MinTTL(u.w, msg.answer) == ttl <= LONG && s.cache.Keys <= {q}
    requires s' == s.(cache := map[q := Stored(msg, s.now + ttl * SECOND)])
    ensures Step(u, s, Keep(id, msg), s')
  {
    hide MinTTL;
    assert s.cache[q := Stored(msg, s.now + ttl * SECOND)] == s'.cache;
  }

  /** The first six steps, in no time. A second caller misses the cache after the first answer has been
      processed and before it is cached, so it starts a resolution of its own. */
  lemma OverlapBegins(u: Setup, m0: Message, m1: Message, ip: IPv4, iface: string) returns (states: seq<State>, events: seq<Event>)
    requires m0.answer == OneAddress(ip, LONG) && m1.answer == OneAddress(ip, SHORT)
    ensures var q, r := TheQuestion(u), Route(u.table, iface, ip);
            && Path(u, states, events) && |events| == 6
            && events == [Ask(0, q), Answer(0, m0, {iface}, [AddCall(r, true, true)]), Ask(1, q), Answer(1, m1, {iface}, []),
                          Keep(1, m1), Keep(0, m0)]
            && states[0] == Empty() && states[1].cache == map[] && states[1].pending == map[0 := Resolution(q, None)]
            && states[2] == FirstState(u, m0, ip, iface)
            && states[3] == states[2].(pending := states[2].pending[1 := Resolution(q, None)])
            && states[4] == SecondState(u, m0, m1, ip, iface, map[])
            && states[5] == SecondState(u, m0, m1, ip, iface, map[q := Stored(m1, SHORT * SECOND)])
            && states[6] == SecondState(u, m0, m1, ip, iface, map[q := Stored(m0, LONG * SECOND)])
  {
    hide Selected, ChainTtl, MinTTL, Live, Processed, Applied, Reached, Adds, Deletes, Honest, RoutesFor, Step, Proper;
    var q, r := TheQuestion(u), Route(u.table, iface, ip);
    OneAddressFacts(u.w, ip, LONG);
    OneAddressFacts(u.w, ip, SHORT);
    IsProper(u);
    var s1, e, s2 := FirstAnswer(u, m0, ip, iface);
    assert Empty().pending[0 := Resolution(q, None)] == s1.pending && s2 == FirstState(u, m0, ip, iface);
    var s3 := s2.(pending := s2.pending[1 := Resolution(q, None)]);
    var s4 := SecondAnswer(u, s3, q, m1, ip, iface);
    assert s4 == SecondState(u, m0, m1, ip, iface, map[]);
    var s5 := SecondState(u, m0, m1, ip, iface, map[q := Stored(m1, SHORT * SECOND)]);
    var s6 := SecondState(u, m0, m1, ip, iface, map[q := Stored(m0, LONG * SECOND)]);
    AskIsStep(u, Empty(), 0, q);
    AskIsStep(u, s2, 1, q);
    KeepIsStep(u, s4, 1, q, m1, SHORT, s5);
    KeepIsStep(u, s5, 0, q, m0, LONG, s6);
    states := [Empty(), s1, s2, s3, s4, s5, s6];
    events := [Ask(0, q), e, Ask(1, q), Answer(1, m1, {iface}, []), Keep(1, m1), Keep(0, m0)];
  }

  /** Which steps of the overlap are covered, and which are timely. */
  lemma OverlapHypotheses(u: Setup, states: seq<State>, m0: Message, m1: Message, ip: IPv4, iface: string)
    requires u.routeTimeout == 3600 * SECOND && |states| > 5
    requires m0.answer == OneAddress(ip, LONG) && m1.answer == OneAddress(ip, SHORT)
    requires states[1].cache == map[] && states[1].pending == map[0 := Resolution(TheQuestion(u), None)]
    requires states[2] == FirstState(u, m0, ip, iface)
    requires states[3] == states[2].(pending := states[2].pending[1 := Resolution(TheQuestion(u), None)])
    requires states[4] == SecondState(u, m0, m1, ip, iface, map[])
    requires states[5] == SecondState(u, m0, m1, ip, iface, map[TheQuestion(u) := Stored(m1, SHORT * SECOND)])
    ensures var q, calls := TheQuestion(u), [AddCall(Route(u.table, iface, ip), true, true)];
            && CoveredStep(u, states[1], Answer(0, m0, {iface}, calls), ip) && TimelyStep(u, states[1], Answer(0, m0, {iface}, calls), q)
            && CoveredStep(u, states[3], Answer(1, m1, {iface}, []), ip) && !TimelyStep(u, states[3], Answer(1, m1, {iface}, []), q)
            && CoveredStep(u, states[4], Keep(1, m1), ip) && TimelyStep(u, states[4], Keep(1, m1), q)
            && !CoveredStep(u, states[5], Keep(0, m0), ip) && TimelyStep(u, states[5], Keep(0, m0), q)
  {
    hide Selected, ChainTtl, MinTTL, Processed, Live;
    var q := TheQuestion(u);
    OneAddressFacts(u.w, ip, LONG);
    OneAddressFacts(u.w, ip, SHORT);
    var store := states[5].store;
    NotLiveAfter(store, AddressKey(q, ip), ip, SHORT * SECOND, u.routeTimeout, LONG * SECOND);
    LiveBefore(store, AddressKey(q, ip), SHORT * SECOND, u.routeTimeout, SHORT * SECOND);
    assert IsAnswered(states[3], 0) && ExpiryOf(states[3], 0) == LONG * SECOND && ip in Selected(m1.answer, "a.");
  }

  lemma LiveBefore(store: map<Key, DNSRecord>, k: Key, expiry: int, extra: int, now: int)
    requires store == map[k := DNSRecord(k, Some(expiry))] && now <= expiry + extra
    ensures Live(store, k.ip, extra, now)
  {
    assert k in store;
  }

  /** With the default route timeout of an hour, and without any failure: both answers are in time for
      themselves, but the second one cuts the record short that the first one needs, and the first one
      reaches the cache last. Two hours later the cache still serves the address while its route is gone. */
  lemma OverlapLosesRoute(u: Setup, ip: IPv4, iface: string) returns (states: seq<State>, events: seq<Event>)
    requires u.routeTimeout == 3600 * SECOND
    ensures var q, r := TheQuestion(u), Route(u.table, iface, ip);
            && Path(u, states, events) && |events| == 8 && states[0] == Empty()
            && events[0] == Ask(0, q)
            && events[1].Answer? && events[1].id == 0 && events[1].msg.answer == OneAddress(ip, LONG)
            && events[1].calls == [AddCall(r, true, true)] && InPlace(states[2], r)
            && events[2] == Ask(1, q)
            && events[3].Answer? && events[3].id == 1 && events[3].msg.answer == OneAddress(ip, SHORT) && events[3].calls == []
            && events[4] == Keep(1, events[3].msg)
            && events[5] == Keep(0, events[1].msg)
            && events[6] == Tick(LONG * SECOND)
            && Perfect(states[7], events[7]) && events[7].timeout == u.routeTimeout
            && (forall i :: 0 <= i < 8 ==> (CoveredStep(u, states[i], events[i], ip) <==> i != 5))
            && (forall i :: 0 <= i < 8 ==> (TimelyStep(u, states[i], events[i], q) <==> i != 3))
            && states[8].now == LONG * SECOND && ServesUnder(states[8], q, ip) && r !in states[8].table
  {
    hide Selected, Live, AllAcked, Step, FirstState, SecondState;
    var q, r := TheQuestion(u), Route(u.table, iface, ip);
    var m0, m1 := Message(1, [q], true, OneAddress(ip, LONG)), Message(2, [q], true, OneAddress(ip, SHORT));
    states, events := OverlapBegins(u, m0, m1, ip, iface);
    OverlapHypotheses(u, states, m0, m1, ip, iface);
    OverlapServes(u, m0, m1, ip, iface);
    var rest, more := OutlivedRouteIsLost(u, states[6], q, r, {});
    states, events := PathsJoin(u, states, events, rest, more);
  }

  lemma OverlapServes(u: Setup, m0: Message, m1: Message, ip: IPv4, iface: string)
    requires u.routeTimeout == 3600 * SECOND
    requires m0.answer == OneAddress(ip, LONG)
    ensures var s := SecondState(u, m0, m1, ip, iface, map[TheQuestion(u) := Stored(m0, LONG * SECOND)]);
            Outlives(u, s, TheQuestion(u), ip) && s.cache[TheQuestion(u)].expires == LONG * SECOND
    ensures InPlace(FirstState(u, m0, ip, iface), Route(u.table, iface, ip))
  {
    hide Selected, Live;
    OneAddressFacts(u.w, ip, LONG);
    var q := TheQuestion(u);
    var s := SecondState(u, m0, m1, ip, iface, map[q := Stored(m0, LONG * SECOND)]);
    NotLiveAfter(s.store, AddressKey(q, ip), ip, SHORT * SECOND, u.routeTimeout, LONG * SECOND);
  }
}
