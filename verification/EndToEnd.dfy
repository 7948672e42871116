/** The whole system as a state machine: questions on their way through service and cache, the
    passing of time, cache sweeps, and reconciliations with any configuration. Each step uses the
    functions and relations the components are proved against. Any number of resolutions, also of the
    same question, the clock and reconciliations may interleave in any way. */
module EndToEnd {
  import opened Basics
  import opened Addresses
  import opened Clocks
  import opened Messages
  import opened CacheModel
  import opened Hosts
  import opened Store
  import opened Chains
  import opened Routes
  import opened Service

  /** What stays fixed: the build's `int`, the routing table, a route timeout, and the one query class. */
  datatype Setup = Setup(w: Width, table: int, routeTimeout: int, qclass: nat)

  /** An answer the service has processed and when. */
  datatype Answered = Answered(answer: seq<Record>, at: int)

  /** A resolution that has missed the cache. */
  datatype Resolution = Resolution(q: Question, answered: Option<Answered>)

  datatype State = State(
    now: int,
    cache: map<Question, Stored>,
    store: map<Key, DNSRecord>,
    routes: set<Route>,
    table: set<Route>,
    pending: map<nat, Resolution>)

  datatype Event =
    | Tick(to: int)
    | Ask(id: nat, q: Question)                // a cache miss starts a resolution
    | Answer(id: nat, msg: Message, ifaces: set<string>, calls: seq<Call>)  // the service processes the reply
    | Share(id: nat, from: nat)                // a waiter gets the reply of another resolution of its question
    | Keep(id: nat, msg: Message)              // a reply goes into the cache
    | Finish(id: nat)
    | SweepCache(gone: set<Question>)
    | Reconcile(rec: Reconciliation, timeout: int, fixed: set<Route>, end: int)

  /** Address questions of one class with fully qualified names. */
  predicate Proper(u: Setup, q: Question) {
    q.qtype == TYPE_A && q.qclass == u.qclass && Qualified(q.name)
  }

  /** When the store's record of an answer processed at `at` expires, without the route timeout. */
  function RecordExpiry(answer: seq<Record>, name: string, at: int): int {
    at + Max(ChainTtl(answer, name), 1) * SECOND
  }

  function AddressKey(q: Question, ip: IPv4): Key {
    Key(Normalize(q.name), ip)
  }

  /** The same records with other TTLs. A reply handed to several waiters shares its records with them,
      and the override layer lowers TTLs in place, so what is cached may differ from what was processed. */
  ghost predicate Retimed(answer: seq<Record>, kept: seq<Record>) {
    |answer| == |kept| && forall i :: 0 <= i < |answer| ==> kept[i].name == answer[i].name && kept[i].data == answer[i].data
  }

  /** The store after the service has processed the reply to a question. */
  function Processed(store: map<Key, DNSRecord>, q: Question, answer: seq<Record>, now: int): map<Key, DNSRecord> {
    Recorded(store, Normalize(q.name), Sorted(Selected(answer, q.name)), RecordExpiry(answer, q.name, now))
  }

  ghost predicate IsOpen(s: State, id: nat) {
    id in s.pending && s.pending[id].answered.None?
  }

  ghost predicate IsAnswered(s: State, id: nat) {
    id in s.pending && s.pending[id].answered.Some?
  }

  ghost predicate Step(u: Setup, s: State, e: Event, s': State) {
    match e
    case Tick(to) => s.now <= to && s' == s.(now := to)
    case Ask(id, q) =>
      && Proper(u, q) && id !in s.pending && !Serves(s.cache, q, s.now)
      && s' == s.(pending := s.pending[id := Resolution(q, None)])
    case Answer(id, msg, ifaces, calls) =>
      && IsOpen(s, id) && Honest(calls)
      && var q := s.pending[id].q;
      && Adds(calls) == RoutesFor(u.table, ifaces, Sorted(Selected(msg.answer, q.name))) - s.routes && Deletes(calls) == {}
      && s' == s.(store := Processed(s.store, q, msg.answer, s.now),
                  routes := Applied(s.routes, calls), table := Reached(s.table, calls),
                  pending := s.pending[id := Resolution(q, Some(Answered(msg.answer, s.now)))])
    case Share(id, from) =>
      && IsOpen(s, id) && IsAnswered(s, from) && s.pending[from].q == s.pending[id].q
      && s' == s.(pending := s.pending[id := s.pending[from]])
    case Keep(id, msg) =>
      && IsAnswered(s, id) && Retimed(s.pending[id].answered.value.answer, msg.answer)
      && s' == s.(cache := PutInto(s.cache, u.w, s.pending[id].q, msg, s.now))
    case Finish(id) => id in s.pending && s' == s.(pending := s.pending - {id})
    case SweepCache(gone) =>
      && (forall q :: q in gone ==> !Serves(s.cache, q, s.now))
      && s' == s.(cache := s.cache - gone)
    case Reconcile(rec, timeout, fixed, end) =>
      && s.now <= end
      && s' == s.(now := end, store := s'.store, routes := s'.routes, table := s'.table)
      && Reconciles(rec, timeout, fixed, s.store, s'.store, s.now, end, s.table, s.routes, s'.table, s'.routes)
  }

  // ------------------------------------------------------------ served addresses

  /** The cache serves, under the question, an answer that selects the address. */
  ghost predicate ServesUnder(s: State, q: Question, ip: IPv4) {
    Serves(s.cache, q, s.now) && ip in Selected(s.cache[q].msg.answer, q.name)
  }

  ghost predicate ServesAddress(s: State, ip: IPv4) {
    exists q :: ServesUnder(s, q, ip)
  }

  /** While an answer that selects the address is served, the store has a record of the address that
      outlives the entry. */
  ghost predicate AddressOk(u: Setup, s: State, ip: IPv4) {
    forall q :: ServesUnder(s, q, ip) ==> Live(s.store, ip, u.routeTimeout, s.cache[q].expires)
  }

  /** The hypothesis about a step, for one address. What is cached is outlived by a record the store has
      now; what is recorded does not cut short a record that a served entry needs; and the route timeout
      of a reconciliation is not below the fixed one. Steps about other addresses are free. */
  ghost predicate CoveredStep(u: Setup, s: State, e: Event, ip: IPv4) {
    match e
    case Keep(id, msg) =>
      id in s.pending && Cacheable(u.w, msg.answer) && ip in Selected(msg.answer, s.pending[id].q.name) ==>
        Live(s.store, ip, u.routeTimeout, s.now + MinTTL(u.w, msg.answer) * SECOND)
    case Answer(id, msg, _, _) =>
      id in s.pending ==>
        forall q :: ServesUnder(s, q, ip) ==>
          Live(Processed(s.store, s.pending[id].q, msg.answer, s.now), ip, u.routeTimeout, s.cache[q].expires)
    case Reconcile(_, timeout, _, _) => u.routeTimeout <= timeout
    case _ => true
  }

  lemma TtlIsPositive(w: Width, answer: seq<Record>)
    ensures MinTTL(w, answer) * SECOND >= 0
  {
  }

  lemma LiveSurvivesSweep(before: map<Key, DNSRecord>, after: map<Key, DNSRecord>, timeout: int, start: int, mid: int,
                          ip: IPv4, extra: int, until: int)
    requires Swept(before, after, timeout, start, mid) && mid <= until && extra <= timeout
    requires Live(before, ip, extra, until)
    ensures Live(after, ip, extra, until)
  {
    var k :| k in before && k.ip == ip && !ExpiredAt(before[k], extra, until);
    assert k in after && after[k] == before[k];
  }

  /** Each covered step keeps the address safe. */
  lemma StepKeepsAddressOk(u: Setup, s: State, e: Event, s': State, ip: IPv4)
    requires AddressOk(u, s, ip) && Step(u, s, e, s') && CoveredStep(u, s, e, ip)
    ensures AddressOk(u, s', ip)
  {
    hide Selected, Live, Processed, Reconciles, Adds, Deletes, Applied, Reached, Honest, MinTTL, Cacheable, RoutesFor, Sorted;
    forall q | ServesUnder(s', q, ip)
      ensures Live(s'.store, ip, u.routeTimeout, s'.cache[q].expires)
    {
      if !(e.Keep? && q == s.pending[e.id].q && Cacheable(u.w, e.msg.answer)) {
        assert ServesUnder(s, q, ip);
        if e.Reconcile? {
          ReconcileKeepsLive(u, s, e, s', ip, s.cache[q].expires);
        }
      }
    }
  }

  lemma ReconcileKeepsLive(u: Setup, s: State, e: Event, s': State, ip: IPv4, until: int)
    requires e.Reconcile? && Step(u, s, e, s') && u.routeTimeout <= e.timeout && e.end <= until
    requires Live(s.store, ip, u.routeTimeout, until)
    ensures Live(s'.store, ip, u.routeTimeout, until)
  {
    hide Live, Swept, FoundLive, Pass;
    LiveSurvivesSweep(s.store, s'.store, e.timeout, s.now, e.rec.mid, ip, u.routeTimeout, until);
  }

  // ------------------------------------------------------------ paths

  /** Consecutive steps. */
  ghost predicate Path(u: Setup, states: seq<State>, events: seq<Event>) {
    |states| == |events| + 1 && forall i :: 0 <= i < |events| ==> Step(u, states[i], events[i], states[i + 1])
  }

  /** Every step of the path is covered for the address. */
  ghost predicate CoveredPath(u: Setup, states: seq<State>, events: seq<Event>, ip: IPv4) {
    |states| == |events| + 1 && forall i :: 0 <= i < |events| ==> CoveredStep(u, states[i], events[i], ip)
  }

  lemma {:induction false} PathKeepsAddressOk(u: Setup, states: seq<State>, events: seq<Event>, n: nat, ip: IPv4)
    requires Path(u, states, events) && CoveredPath(u, states, events, ip) && n < |states|
    requires AddressOk(u, states[0], ip)
    ensures AddressOk(u, states[n], ip)
  {
    hide AddressOk, Step, CoveredStep;
    if n > 0 {
      PathKeepsAddressOk(u, states, events, n - 1, ip);
      assert Step(u, states[n - 1], events[n - 1], states[n - 1 + 1]);
      StepKeepsAddressOk(u, states[n - 1], events[n - 1], states[n], ip);
    }
  }

  /** With an empty cache every address is safe, and so is one no entry serves. */
  lemma UnservedIsOk(u: Setup, s: State, ip: IPv4)
    requires !ServesAddress(s, ip)
    ensures AddressOk(u, s, ip)
  {
    hide Selected, Live;
  }

  lemma LiveEarlierAt(store: map<Key, DNSRecord>, ip: IPv4, extra: int, t1: int, t2: int)
    requires t1 <= t2 && Live(store, ip, extra, t2)
    ensures Live(store, ip, extra, t1)
  {
    LiveEarlier(store, extra, t1, t2);
  }

  lemma ServedIsLive(u: Setup, s: State, ip: IPv4)
    requires AddressOk(u, s, ip) && ServesAddress(s, ip)
    ensures Live(s.store, ip, u.routeTimeout, s.now)
  {
    hide Selected, Live;
    var q :| ServesUnder(s, q, ip);
    LiveEarlierAt(s.store, ip, u.routeTimeout, s.now, s.cache[q].expires);
  }

  /** From any state in which the address is safe, for instance because nothing that selects it is
      served: on every path covered for the address, whenever the cache can serve an answer that
      selects it, it has a record that has not timed out. Answers about other addresses may be cached
      and recorded in any way. */
  lemma ServedAddressesAreLive(u: Setup, states: seq<State>, events: seq<Event>, n: nat, ip: IPv4)
    requires Path(u, states, events) && CoveredPath(u, states, events, ip) && n < |states|
    requires AddressOk(u, states[0], ip) && ServesAddress(states[n], ip)
    ensures Live(states[n].store, ip, u.routeTimeout, states[n].now)
  {
    hide Path, CoveredPath, AddressOk, ServesAddress;
    PathKeepsAddressOk(u, states, events, n, ip);
    ServedIsLive(u, states[n], ip);
  }

  // ------------------------------------------------------------ routes

  /** Believed and in the router's table. */
  ghost predicate InPlace(s: State, r: Route) {
    r in s.routes && r in s.table
  }

  /** The route timeout of a reconciliation is not below the fixed one. */
  ghost predicate LongEnough(u: Setup, e: Event) {
    e.Reconcile? ==> u.routeTimeout <= e.timeout
  }

  /** One step: a route in place to an address that is live afterwards stays in place, whatever the
      agent makes of calls it does not acknowledge. */
  lemma LiveRouteSurvivesStep(u: Setup, s: State, e: Event, s': State, r: Route)
    requires Step(u, s, e, s') && LongEnough(u, e)
    requires InPlace(s, r) && Live(s'.store, r.addr, u.routeTimeout, s'.now)
    ensures InPlace(s', r)
  {
    hide Applied, Reached, Adds, Deletes, Honest, Reconciles, Live, Processed, RoutesFor, Sorted, Selected, PutInto;
    match e
    case Answer(_, _, _, calls) =>
      AddsKeep(s.routes, s.table, calls);
    case Reconcile(rec, timeout, fixed, end) =>
      LiveWithLonger(s'.store, r.addr, u.routeTimeout, timeout, end);
      LiveSurvivesReconcile(rec, timeout, fixed, s, s', end, r);
    case _ =>
  }

  lemma AddsKeep(routes: set<Route>, table: set<Route>, calls: seq<Call>)
    requires Deletes(calls) == {}
    ensures routes <= Applied(routes, calls) && table <= Reached(table, calls)
  {
    hide Applied, Adds, Deletes, AckedAdds, AckedDeletes;
    TakenAreCalls(calls);
    AppliedExactly(routes, calls);
    AppliedExactly(table, Taken(calls));
    AckedAreCalls(calls);
    AckedAreCalls(Taken(calls));
  }

  lemma LiveSurvivesReconcile(rec: Reconciliation, timeout: int, fixed: set<Route>, s: State, s': State, end: int, r: Route)
    requires Reconciles(rec, timeout, fixed, s.store, s'.store, s.now, end, s.table, s.routes, s'.table, s'.routes)
    requires InPlace(s, r) && Live(s'.store, r.addr, timeout, end)
    ensures InPlace(s', r)
  {
    hide Pass, Swept, Live;
    PassKeepsLive(rec.defined, rec.live, fixed, s.table, s.routes, s'.table, s'.routes, rec.calls, r);
  }

  lemma LiveWithLonger(contents: map<Key, DNSRecord>, ip: IPv4, extra: int, longer: int, now: int)
    requires extra <= longer
    ensures Live(contents, ip, extra, now) ==> Live(contents, ip, longer, now)
  {
  }

  /** A route acknowledged while an answer is processed is in place right after, and leads to one of
      the addresses the answer selects. */
  lemma AcknowledgedIsThere(u: Setup, s: State, e: Event, s': State, k: nat)
    requires Step(u, s, e, s') && e.Answer? && k < |e.calls| && e.calls[k].ok
    ensures InPlace(s', e.calls[k].route)
    ensures e.calls[k].route.addr in Selected(e.msg.answer, s.pending[e.id].q.name)
  {
    hide Adds, Deletes, AckedAdds, AckedDeletes, Applied, Honest, Selected, Sorted, Processed;
    TakenAreCalls(e.calls);
    AppliedExactly(s.routes, e.calls);
    AppliedExactly(s.table, Taken(e.calls));
    AckedAreCalls(e.calls);
    CallIsCounted(e.calls, k);
    assert e.calls[k].route in RoutesFor(u.table, e.ifaces, Sorted(Selected(e.msg.answer, s.pending[e.id].q.name)));
    SortedSame(Selected(e.msg.answer, s.pending[e.id].q.name));
  }

  /** A route in place stays in place for as long as its address is live. */
  lemma {:induction false} LiveRoutesStay(u: Setup, states: seq<State>, events: seq<Event>, i: nat, j: nat, r: Route)
    requires Path(u, states, events) && i <= j < |states|
    requires forall k :: i <= k < j ==> LongEnough(u, events[k])
    requires forall k :: i < k <= j ==> Live(states[k].store, r.addr, u.routeTimeout, states[k].now)
    requires InPlace(states[i], r)
    ensures InPlace(states[j], r)
    decreases j - i
  {
    hide Step, Live, InPlace, LongEnough;
    if i < j {
      LiveRoutesStay(u, states, events, i, j - 1, r);
      assert Step(u, states[j - 1], events[j - 1], states[j - 1 + 1]);
      LiveRouteSurvivesStep(u, states[j - 1], events[j - 1], states[j], r);
    }
  }

  lemma CoveredIsLongEnough(u: Setup, states: seq<State>, events: seq<Event>, ip: IPv4)
    requires CoveredPath(u, states, events, ip)
    ensures forall k :: 0 <= k < |events| ==> LongEnough(u, events[k])
  {
    hide Selected, Live, Processed, MinTTL;
    forall k | 0 <= k < |events|
      ensures LongEnough(u, events[k])
    {
      assert CoveredStep(u, states[k], events[k], ip);
    }
  }

  /** From any moment of a covered path on, for as long as the cache keeps serving some answer that
      selects the address of a route in place, the route stays in place. */
  lemma ServedRoutesStay(u: Setup, states: seq<State>, events: seq<Event>, i: nat, j: nat, r: Route)
    requires Path(u, states, events) && CoveredPath(u, states, events, r.addr) && i <= j < |states|
    requires AddressOk(u, states[0], r.addr)
    requires forall k :: i < k <= j ==> ServesAddress(states[k], r.addr)
    requires InPlace(states[i], r)
    ensures InPlace(states[j], r)
  {
    hide Step, CoveredStep, Live, ServesAddress, InPlace, AddressOk, LongEnough, CoveredPath;
    CoveredIsLongEnough(u, states, events, r.addr);
    forall k | i < k <= j
      ensures Live(states[k].store, r.addr, u.routeTimeout, states[k].now)
    {
      ServedAddressesAreLive(u, states, events, k, r.addr);
    }
    LiveRoutesStay(u, states, events, i, j, r);
  }

  // ------------------------------------------------------------ paths put together

  /** A path continued by a path is a path. */
  lemma PathsJoin(u: Setup, states: seq<State>, events: seq<Event>, more: seq<State>, next: seq<Event>)
    returns (states': seq<State>, events': seq<Event>)
    requires Path(u, states, events) && Path(u, more, next) && more[0] == states[|events|]
    ensures Path(u, states', events') && states' == states + more[1..] && events' == events + next
    ensures |states'| == |events'| + 1 && states'[|events'|] == more[|next|]
    ensures forall i :: 0 <= i < |events'| ==>
              if i < |events| then states'[i] == states[i] && events'[i] == events[i]
              else states'[i] == more[i - |events|] && events'[i] == next[i - |events|]
  {
    hide Step;
    states', events' := states + more[1..], events + next;
    forall i | 0 <= i < |events'|
      ensures Step(u, states'[i], events'[i], states'[i + 1])
    {
      if i < |events| {
        assert Step(u, states[i], events[i], states[i + 1]);
      } else {
        var k := i - |events|;
        assert Step(u, more[k], next[k], more[k + 1]);
        assert states'[i] == more[k] && states'[i + 1] == more[k + 1];
      }
    }
  }

  // ------------------------------------------------------------ answers with other TTLs

  lemma {:induction false} RetimedParts(answer: seq<Record>, kept: seq<Record>, name: string)
    requires Retimed(answer, kept)
    ensures AddressesOf(kept, name) == AddressesOf(answer, name)
    ensures Aliases(kept).Keys == Aliases(answer).Keys
    ensures forall n :: n in Aliases(answer) ==> Aliases(kept)[n].target == Aliases(answer)[n].target
  {
    if answer != [] {
      RetimedParts(answer[..|answer| - 1], kept[..|kept| - 1], name);
    }
  }

  lemma {:induction false} WalkIgnoresTtl(a: map<string, Alias>, b: map<string, Alias>, name: string, visited: set<string>)
    requires a.Keys == b.Keys && forall n :: n in a ==> a[n].target == b[n].target
    ensures Walk(a, name, visited) == Walk(b, name, visited)
    decreases a.Keys - visited
  {
    if name !in visited && name in a {
      WalkIgnoresTtl(a, b, a[name].target, visited + {name});
    }
  }

  /** What an answer selects does not depend on its TTLs. */
  lemma SelectedIgnoresTtl(answer: seq<Record>, kept: seq<Record>, name: string)
    requires Retimed(answer, kept)
    ensures Selected(kept, name) == Selected(answer, name)
  {
    hide Walk, Aliases, AddressesOf;
    RetimedParts(answer, kept, name);
    WalkIgnoresTtl(Aliases(answer), Aliases(kept), name, {});
    var names := ChainOf(answer, name).names;
    if names != [] {
      RetimedParts(answer, kept, names[|names| - 1]);
    }
  }
}
