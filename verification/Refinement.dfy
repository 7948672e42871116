/** The imperative components take the steps of the end-to-end machine: each operation below runs
    the component's own method on the real objects and shows the abstract steps that happened. A whole
    resolution through the layers continues a run of the machine. */
module Refinement {
  import opened Basics
  import opened Messages
  import opened CacheModel
  import opened Resolvers
  import opened Hosts
  import opened Store
  import opened Chains
  import opened Routes
  import opened Service
  import opened EndToEnd
  import opened Timing

  /** The abstract state shows what the objects hold. */
  ghost predicate Shows(s: State, ctl: IPRouteController, cache: DNSCache)
    reads ctl, ctl.store, ctl.agent, ctl.clock, cache
  {
    && s.now == ctl.clock.now
    && s.cache == cache.Model
    && s.store == ctl.store.contents
    && s.routes == ctl.routes
    && s.table == ctl.agent.table
  }

  /** The steps lead from the first state to the objects' present state with the given resolutions in
      progress. */
  ghost predicate Leads(u: Setup, s: State, states: seq<State>, events: seq<Event>, pending: map<nat, Resolution>,
                        ctl: IPRouteController, cache: DNSCache)
    reads ctl, ctl.store, ctl.agent, ctl.clock, cache
  {
    && Path(u, states, events) && states[0] == s
    && Shows(states[|events|], ctl, cache) && states[|events|].pending == pending
  }

  /** Processing a reply is: time passes, the reply is processed at one moment, time passes. */
  method ServiceAnswers(ctl: IPRouteController, cache: DNSCache, resp: Message, ghost id: nat, ghost u: Setup, ghost s: State)
    returns (ghost at: int, ghost states: seq<State>, ghost events: seq<Event>)
    requires ctl.Valid() && Shows(s, ctl, cache) && u.table == ctl.tableId
    requires IsOpen(s, id) && resp.question == [s.pending[id].q]
    modifies ctl`routes, ctl.agent, ctl.clock, ctl.store
    ensures ctl.Valid() && old(ctl.clock.now) <= at <= ctl.clock.now
    ensures Leads(u, s, states, events, s.pending[id := Resolution(s.pending[id].q, Some(Answered(resp.answer, at)))], ctl, cache)
    ensures |events| == 3 && events[0] == Tick(at) && events[1].Answer? && events[1].id == id && events[1].msg == resp
    ensures events[2] == Tick(ctl.clock.now) && states[1] == s.(now := at)
  {
    hide Selected, Recorded, RoutesFor, Adds, Deletes, Applied, Reached, Honest, ChosenFor, Sorted, ChainTtl, Step;
    var q := resp.question[0];
    ghost var query, calls := ProcessTypeAResponse(ctl, resp);
    at := if query.Some? then query.value.time else s.now;
    ghost var ifaces := if query.Some? then query.value.routed else {};
    ghost var s1 := s.(now := at);
    ghost var s2 := s1.(store := ctl.store.contents, routes := ctl.routes, table := ctl.agent.table,
                        pending := s.pending[id := Resolution(q, Some(Answered(resp.answer, at)))]);
    if query.None? {
      NothingSelected(u, s1, q, resp);
    }
    AnswerIsStep(u, s1, id, resp, ifaces, calls, s2);
    states, events := AnswerPath(u, s, s1, s2, Answer(id, resp, ifaces, calls), ctl.clock.now);
  }

  lemma AnswerPath(u: Setup, s: State, s1: State, s2: State, e: Event, end: int) returns (states: seq<State>, events: seq<Event>)
    requires s1 == s.(now := s1.now) && s.now <= s1.now && Step(u, s1, e, s2) && e.Answer? && s2.now <= end
    ensures Path(u, states, events) && events == [Tick(s1.now), e, Tick(end)]
    ensures states[0] == s && states[1] == s1 && states[3] == s2.(now := end)
  {
    hide Step;
    TickIsStep(u, s, s1.now);
    TickIsStep(u, s2, end);
    states, events := [s, s1, s2, s2.(now := end)], [Tick(s1.now), e, Tick(end)];
  }

  lemma TickIsStep(u: Setup, s: State, to: int)
    requires s.now <= to
    ensures Step(u, s, Tick(to), s.(now := to))
  {
  }

  lemma NothingSelected(u: Setup, s: State, q: Question, msg: Message)
    requires Selected(msg.answer, q.name) == []
    ensures Sorted(Selected(msg.answer, q.name)) == []
    ensures forall e :: Recorded(s.store, Normalize(q.name), [], e) == s.store
    ensures forall ifaces :: RoutesFor(u.table, ifaces, []) == {}
    ensures Adds([]) == {} && Deletes([]) == {}
  {
  }

  lemma AnswerIsStep(u: Setup, s: State, id: nat, msg: Message, ifaces: set<string>, calls: seq<Call>, s': State)
    requires IsOpen(s, id) && Honest(calls)
    requires var q := s.pending[id].q;
             var ips := Sorted(Selected(msg.answer, q.name));
             && Adds(calls) == RoutesFor(u.table, ifaces, ips) - s.routes && Deletes(calls) == {}
             && s'.store == Recorded(s.store, Normalize(q.name), ips, RecordExpiry(msg.answer, q.name, s.now))
    requires s' == s.(store := s'.store, routes := Applied(s.routes, calls), table := Reached(s.table, calls),
                      pending := s.pending[id := Resolution(s.pending[id].q, Some(Answered(msg.answer, s.now)))])
    ensures Step(u, s, Answer(id, msg, ifaces, calls), s')
  {
  }

  /** Looking a question up is: time passes, and on a miss the resolution starts; a hit changes nothing
      and returns the answer the machine says is served. */
  method CacheLooksUp(ctl: IPRouteController, cache: DNSCache, q: Question, ghost id: nat, ghost u: Setup, ghost s: State)
    returns (resp: Msg?, ghost ttl: uint32, ghost at: int, ghost states: seq<State>, ghost events: seq<Event>)
    requires cache.Valid() && cache.Within(ctl.clock.now) && ctl.clock !in cache.Repr && Shows(s, ctl, cache)
    requires Proper(u, q) && id !in s.pending
    modifies ctl.clock
    ensures cache.Valid() && cache.Within(ctl.clock.now) && old(ctl.clock.now) <= at <= ctl.clock.now
    ensures Leads(u, s, states, events, if resp == null then s.pending[id := Resolution(q, None)] else s.pending, ctl, cache)
    ensures events == if resp == null then [Tick(at), Ask(id, q), Tick(ctl.clock.now)] else [Tick(at), Tick(ctl.clock.now)]
    ensures states[1] == s.(now := at)
    ensures resp != null <==> Serves(s.cache, q, at)
    ensures resp != null ==> 1 <= ttl && fresh(resp) && resp.Value() == HitWith(s.cache[q].msg, ttl)
  {
    hide Values, HitWith;
    resp, ttl, at := cache.Get(q, ctl.clock);
    ghost var s1 := s.(now := at);
    if resp == null {
      ghost var s2 := s1.(pending := s.pending[id := Resolution(q, None)]);
      ghost var s3 := s2.(now := ctl.clock.now);
      states, events := [s, s1, s2, s3], [Tick(at), Ask(id, q), Tick(s3.now)];
    } else {
      ghost var s2 := s1.(now := ctl.clock.now);
      states, events := [s, s1, s2], [Tick(at), Tick(s2.now)];
    }
  }

  /** Caching a reply is: time passes, then the reply goes into the cache. */
  method CacheKeeps(ctl: IPRouteController, cache: DNSCache, q: Question, result: Msg, ghost id: nat, ghost u: Setup, ghost s: State)
    returns (ghost at: int, ghost states: seq<State>, ghost events: seq<Event>)
    requires cache.Valid() && ctl.clock !in cache.Repr && Shows(s, ctl, cache) && u.w == cache.w
    requires IsAnswered(s, id) && s.pending[id].q == q && Retimed(s.pending[id].answered.value.answer, result.Value().answer)
    modifies cache, ctl.clock
    ensures cache.Valid() && fresh(cache.Repr - old(cache.Repr)) && old(cache.Repr) <= cache.Repr
    ensures old(ctl.clock.now) <= at == ctl.clock.now && (old(cache.Within(ctl.clock.now)) ==> cache.Within(at))
    ensures cache.Model == PutInto(old(cache.Model), cache.w, q, old(result.Value()), at)
    ensures Leads(u, s, states, events, s.pending, ctl, cache)
    ensures events == [Tick(at), Keep(id, old(result.Value()))] && states[1] == s.(now := at)
  {
    hide PutInto, Values, MinTTL, Selected, RecordExpiry;
    ghost var msg := result.Value();
    at := cache.Put(q, result, ctl.clock);
    ghost var s1 := s.(now := at);
    ghost var s2 := s1.(cache := cache.Model);
    states, events := [s, s1, s2], [Tick(at), Keep(id, msg)];
  }

  /** A cache sweep drops entries that were expired by its end. */
  method CacheSweeps(ctl: IPRouteController, cache: DNSCache, ghost u: Setup, ghost s: State)
    returns (ghost states: seq<State>, ghost events: seq<Event>)
    requires cache.Valid() && ctl.clock !in cache.Repr && Shows(s, ctl, cache)
    modifies cache, ctl.clock
    ensures cache.Valid() && Leads(u, s, states, events, s.pending, ctl, cache)
    ensures |events| == 2 && events[0].Tick? && events[1].SweepCache?
  {
    ghost var gone := cache.RemoveExpired(ctl.clock);
    ghost var s1 := s.(now := ctl.clock.now);
    ghost var s2 := s1.(cache := cache.Model);
    states, events := [s, s1, s2], [Tick(s1.now), SweepCache(gone)];
  }

  /** A configuration reload, with any route timeout, is one reconciliation step unless it crashes on the
      router's listing. */
  method ControllerReconciles(ctl: IPRouteController, cache: DNSCache, dynamic: DynamicConfig, ghost u: Setup, ghost s: State)
    returns (crashed: bool, ghost states: seq<State>, ghost events: seq<Event>)
    requires ctl.Valid() && Shows(s, ctl, cache) && u.table == ctl.tableId
    modifies ctl`cfg, ctl`routes, ctl.agent, ctl.clock, ctl.store
    ensures ctl.Valid() && (crashed ==> ctl.agent.table == old(ctl.agent.table) && ctl.routes == old(ctl.routes))
    ensures !crashed ==> Leads(u, s, states, events, s.pending, ctl, cache)
    ensures !crashed ==> |events| == 1 && events[0].Reconcile? && events[0].timeout == dynamic.routeTimeout
  {
    hide StaticRoutes, Swept, FoundLive, Pass;
    ghost var rec;
    var present;
    crashed, present, rec := ctl.UpdateConfig(dynamic);
    ghost var s' := s.(now := ctl.clock.now, store := ctl.store.contents, routes := ctl.routes, table := ctl.agent.table);
    states := [s, s'];
    events := [Reconcile(rec, dynamic.routeTimeout, StaticRoutes(ctl.tableId, dynamic.staticRoutes), ctl.clock.now)];
  }

  // ------------------------------------------------------------ a whole resolution

  ghost predicate Apart(ctl: IPRouteController, cache: DNSCache)
    reads cache
  {
    ctl !in cache.Repr && ctl.store !in cache.Repr && ctl.agent !in cache.Repr && ctl.clock !in cache.Repr
  }

  lemma FinishIsStep(u: Setup, s: State, id: nat) returns (more: seq<State>, next: seq<Event>)
    requires id in s.pending
    ensures Path(u, more, next) && next == [Finish(id)]
    ensures more[0] == s && more[1] == s.(pending := s.pending - {id})
  {
    more, next := [s, s.(pending := s.pending - {id})], [Finish(id)];
  }

  lemma NothingLeft(pending: map<nat, Resolution>, id: nat, a: Resolution, b: Resolution)
    requires id !in pending
    ensures pending[id := a][id := b] - {id} == pending && pending[id := a] - {id} == pending
  {
  }

  /** The resolution of a question that nobody else is resolving takes timely steps, for the question
      itself when what it caches is in time, for all others in any case. */
  ghost predicate Harmless(u: Setup, states: seq<State>, events: seq<Event>, q: Question, inTime: bool) {
    forall o: Question :: (o == q ==> inTime) ==> TimelyPath(u, states, events, o)
  }

  lemma LookUpIsHarmless(u: Setup, states: seq<State>, events: seq<Event>, q: Question, inTime: bool)
    requires |states| == |events| + 1 && forall i :: 0 <= i < |events| ==> events[i].Tick? || events[i].Ask? || events[i].Finish?
    ensures Harmless(u, states, events, q, inTime)
  {
  }

  lemma AnswerIsHarmless(u: Setup, states: seq<State>, events: seq<Event>, q: Question, inTime: bool)
    requires |states| == 4 && |events| == 3 && events[0].Tick? && events[1].Answer? && events[2].Tick?
    requires IsOpen(states[1], events[1].id) && states[1].pending[events[1].id].q == q
    requires !Serves(states[1].cache, q, states[1].now)
    requires inTime ==> forall id :: IsAnswered(states[1], id) ==> states[1].pending[id].q != q
    ensures Harmless(u, states, events, q, inTime)
  {
  }

  lemma KeepIsHarmless(u: Setup, states: seq<State>, events: seq<Event>, q: Question, inTime: bool)
    requires |states| == 3 && |events| == 2 && events[0].Tick? && events[1].Keep?
    requires IsAnswered(states[1], events[1].id) && states[1].pending[events[1].id].q == q
    requires var a := states[1].pending[events[1].id].answered.value;
             inTime ==> InTime(u, events[1].msg.answer, a.answer, q.name, a.at, states[1].now)
    ensures Harmless(u, states, events, q, inTime)
  {
    hide InTime;
  }

  lemma HarmlessJoins(u: Setup, states: seq<State>, events: seq<Event>, more: seq<State>, next: seq<Event>,
                      states': seq<State>, events': seq<Event>, q: Question, inTime: bool)
    requires Path(u, states, events) && Path(u, more, next) && |states'| == |events'| + 1 == |events| + |next| + 1
    requires forall i :: 0 <= i < |events'| ==>
               if i < |events| then states'[i] == states[i] && events'[i] == events[i]
               else states'[i] == more[i - |events|] && events'[i] == next[i - |events|]
    requires Harmless(u, states, events, q, inTime) && Harmless(u, more, next, q, inTime)
    ensures Harmless(u, states', events', q, inTime)
  {
    hide TimelyStep, Step;
    forall o: Question | o == q ==> inTime
      ensures TimelyPath(u, states', events', o)
    {
      assert TimelyPath(u, states, events, o) && TimelyPath(u, more, next, o);
    }
  }

  /** Two paths put together, with what is known about both. */
  lemma Joined(u: Setup, states: seq<State>, events: seq<Event>, more: seq<State>, next: seq<Event>, q: Question, inTime: bool)
    returns (states': seq<State>, events': seq<Event>)
    requires Path(u, states, events) && Path(u, more, next) && more[0] == states[|events|]
    ensures Path(u, states', events') && states'[0] == states[0] && states'[|events'|] == more[|next|]
    ensures Harmless(u, states, events, q, inTime) && Harmless(u, more, next, q, inTime) ==> Harmless(u, states', events', q, inTime)
  {
    hide Step, Harmless;
    states', events' := PathsJoin(u, states, events, more, next);
    if Harmless(u, states, events, q, inTime) && Harmless(u, more, next, q, inTime) {
      HarmlessJoins(u, states, events, more, next, states', events', q, inTime);
    }
  }

  /** After a miss: the reply is processed by the service and cached. */
  method AnswerAndKeep(ctl: IPRouteController, cache: DNSCache, q: Question, inner: Msg, ghost id: nat, ghost u: Setup, ghost s: State)
    returns (ghost answered: int, ghost kept: int, ghost states: seq<State>, ghost events: seq<Event>)
    requires ctl.Valid() && cache.Valid() && cache.Within(ctl.clock.now) && Apart(ctl, cache)
    requires Shows(s, ctl, cache) && u.table == ctl.tableId && u.w == cache.w
    requires IsOpen(s, id) && s.pending[id].q == q && inner.question == [q] && !Serves(s.cache, q, s.now)
    modifies cache, ctl`routes, ctl.agent, ctl.clock, ctl.store
    ensures ctl.Valid() && cache.Valid() && cache.Within(ctl.clock.now) && Apart(ctl, cache)
    ensures old(ctl.clock.now) <= answered <= kept == ctl.clock.now
    ensures cache.Model == PutInto(old(cache.Model), cache.w, q, old(inner.Value()), kept)
    ensures Leads(u, s, states, events, s.pending[id := Resolution(q, Some(Answered(old(inner.Value()).answer, answered)))], ctl, cache)
    ensures Harmless(u, states, events, q, NoneOther(s, q)
            && InTime(u, old(inner.Value()).answer, old(inner.Value()).answer, q.name, answered, kept))
  {
    hide Values, HitWith, PutInto, Selected, InTime, Harmless, RecordExpiry, Step;
    var msg := inner.Value();
    ghost var more, next;
    answered, states, events := ServiceAnswers(ctl, cache, msg, id, u, s);
    ghost var s' := states[|events|];
    kept, more, next := CacheKeeps(ctl, cache, q, inner, id, u, s');
    ghost var inTime := NoneOther(s, q) && InTime(u, msg.answer, msg.answer, q.name, answered, kept);
    AnswerIsHarmless(u, states, events, q, inTime);
    KeepIsHarmless(u, more, next, q, inTime);
    states, events := Joined(u, states, events, more, next, q, inTime);
  }

  /** Nobody else is resolving the question. */
  ghost predicate NoneOther(s: State, q: Question) {
    forall id :: IsAnswered(s, id) ==> s.pending[id].q != q
  }

  lemma HitIsLive(u: Setup, s: State, q: Question, ttl: uint32)
    requires Serves(s.cache, q, s.now)
    ensures forall ip :: ip in Selected(WithTTL(s.cache[q].msg.answer, ttl), q.name) && AddressOk(u, s, ip) ==>
              Live(s.store, ip, u.routeTimeout, s.now)
  {
    hide Selected, Live, AddressOk;
    var answer := s.cache[q].msg.answer;
    SelectedIgnoresTtl(answer, WithTTL(answer, ttl), q.name);
    forall ip | ip in Selected(answer, q.name) && AddressOk(u, s, ip)
      ensures Live(s.store, ip, u.routeTimeout, s.now)
    {
      assert ServesUnder(s, q, ip);
      ServedIsLive(u, s, ip);
    }
  }

  lemma WaitingKeepsOk(u: Setup, s: State, to: int)
    requires s.now <= to
    ensures forall ip :: AddressOk(u, s, ip) ==> AddressOk(u, s.(now := to), ip)
  {
    hide Live, Selected;
    forall ip | AddressOk(u, s, ip)
      ensures AddressOk(u, s.(now := to), ip)
    {
      forall q | ServesUnder(s.(now := to), q, ip)
        ensures Live(s.store, ip, u.routeTimeout, s.cache[q].expires)
      {
        assert ServesUnder(s, q, ip);
      }
    }
  }

  /** The lookup that starts a resolution: an address of a hit that is safe is live. */
  method LookUp(ctl: IPRouteController, cache: DNSCache, q: Question, ghost id: nat, ghost u: Setup, ghost s: State)
    returns (resp: Msg?, ghost ttl: uint32, ghost asked: int, ghost states: seq<State>, ghost events: seq<Event>)
    requires cache.Valid() && cache.Within(ctl.clock.now) && ctl.clock !in cache.Repr && Shows(s, ctl, cache)
    requires Proper(u, q) && id !in s.pending
    modifies ctl.clock
    ensures cache.Valid() && cache.Within(ctl.clock.now) && old(ctl.clock.now) <= asked <= ctl.clock.now
    ensures Leads(u, s, states, events, if resp == null then s.pending[id := Resolution(q, None)] else s.pending, ctl, cache)
    ensures forall inTime :: Harmless(u, states, events, q, inTime)
    ensures resp != null <==> Serves(cache.Model, q, asked)
    ensures resp != null ==>
              && 1 <= ttl && fresh(resp) && resp.Value() == HitWith(cache.Model[q].msg, ttl)
              && forall ip :: ip in Selected(resp.Value().answer, q.name) && AddressOk(u, s, ip) ==>
                   Live(ctl.store.contents, ip, u.routeTimeout, asked)
  {
    hide Values, WithTTL, Selected, Live, Step, Proper, Harmless, AddressOk;
    resp, ttl, asked, states, events := CacheLooksUp(ctl, cache, q, id, u, s);
    forall inTime
      ensures Harmless(u, states, events, q, inTime)
    {
      LookUpIsHarmless(u, states, events, q, inTime);
    }
    if resp != null {
      WaitingKeepsOk(u, s, asked);
      HitIsLive(u, states[1], q, ttl);
    }
  }

  lemma HitShows(resp: Msg, stored: Message, ttl: uint32)
    requires 1 <= ttl && resp.Value() == HitWith(stored, ttl).(id := resp.id)
    ensures resp.question == stored.question && resp.response == stored.response && |resp.answer| == |stored.answer|
    ensures forall i :: 0 <= i < |resp.answer| ==>
              && resp.answer[i].name == stored.answer[i].name && resp.answer[i].data == stored.answer[i].data
              && resp.answer[i].ttl == ttl
  {
    resp.ValueShows();
  }

  /** The whole path of an address question through the cache, the service and back: `inner` is the
      upstream reply, null for an error. The objects take steps of the machine from the state they show
      to the state they then show, with no resolution left over. The steps are timely for every other
      question, and for this one when the answer is cached in time, which positive TTLs and a total
      duration within the route timeout ensure, and nobody else was resolving it. Every safe address of
      a cached answer that is returned had a live record when it was looked up. */
  method Resolve(ctl: IPRouteController, cache: DNSCache, msgId: nat, q: Question, inner: Msg?, ghost id: nat, ghost u: Setup, ghost s: State)
    returns (resp: Msg?, ghost asked: int, ghost answered: int, ghost kept: int, ghost states: seq<State>, ghost events: seq<Event>)
    requires ctl.Valid() && cache.Valid() && cache.Within(ctl.clock.now) && Apart(ctl, cache)
    requires Shows(s, ctl, cache) && u.table == ctl.tableId && u.w == cache.w
    requires Proper(u, q) && id !in s.pending
    requires inner != null ==> inner.question == [q]
    modifies cache, ctl`routes, ctl.agent, ctl.clock, ctl.store
    ensures ctl.Valid() && cache.Valid() && cache.Within(ctl.clock.now) && Apart(ctl, cache)
    ensures old(ctl.clock.now) <= asked <= answered <= kept <= ctl.clock.now
    ensures Leads(u, s, states, events, s.pending, ctl, cache)
    ensures Harmless(u, states, events, q,
                     Serves(s.cache, q, asked) || inner == null
                     || (NoneOther(s, q) && InTime(u, old(inner.Value()).answer, old(inner.Value()).answer, q.name, answered, kept)))
    ensures Serves(s.cache, q, asked) ==>
              && cache.Model == s.cache
              && resp != null && resp.id == msgId && resp.question == s.cache[q].msg.question
              && resp.response == s.cache[q].msg.response && |resp.answer| == |s.cache[q].msg.answer|
              && (forall i :: 0 <= i < |resp.answer| ==>
                    && resp.answer[i].name == s.cache[q].msg.answer[i].name && resp.answer[i].data == s.cache[q].msg.answer[i].data
                    && 1 <= resp.answer[i].ttl == resp.answer[0].ttl)
              && forall ip :: ip in Selected(resp.Value().answer, q.name) && AddressOk(u, s, ip) ==>
                   Live(ctl.store.contents, ip, u.routeTimeout, asked)
    ensures !Serves(s.cache, q, asked) ==>
              && resp == inner
              && cache.Model == (if inner != null then PutInto(s.cache, cache.w, q, old(inner.Value()), kept) else s.cache)
              && (inner != null && PositiveTtls(old(inner.Value()).answer) && ctl.clock.now - old(ctl.clock.now) <= u.routeTimeout ==>
                    InTime(u, old(inner.Value()).answer, old(inner.Value()).answer, q.name, answered, kept))
  {
    hide Values, HitWith, PutInto, Selected, Live, InTime, Step, RecordExpiry, Proper, Harmless, AddressOk;
    hide IPRouteController.Valid, DNSCache.Valid, DNSCache.Within, Msg.Value, PositiveTtls;
    ghost var ttl;
    resp, ttl, asked, states, events := LookUp(ctl, cache, q, id, u, s);
    answered, kept := asked, asked;
    if resp != null {
      Readdress(resp, msgId);
      HitShows(resp, s.cache[q].msg, ttl);
      return;
    }
    resp := inner;
    ghost var mid := states[|events|];
    ghost var more, next;
    if inner == null {
      NothingLeft(s.pending, id, Resolution(q, None), Resolution(q, None));
      more, next := FinishIsStep(u, mid, id);
      LookUpIsHarmless(u, more, next, q, true);
      states, events := Joined(u, states, events, more, next, q, true);
    } else {
      ghost var answer := inner.Value().answer;
      answered, kept, more, next := AnswerAndKeep(ctl, cache, q, inner, id, u, mid);
      ghost var inTime := NoneOther(mid, q) && InTime(u, answer, answer, q.name, answered, kept);
      states, events := Joined(u, states, events, more, next, q, inTime);
      NothingLeft(s.pending, id, Resolution(q, None), Resolution(q, Some(Answered(answer, answered))));
      more, next := FinishIsStep(u, states[|events|], id);
      LookUpIsHarmless(u, more, next, q, inTime);
      states, events := Joined(u, states, events, more, next, q, inTime);
      if PositiveTtls(answer) && kept - answered <= u.routeTimeout {
        PositiveTtlsAreInTime(u, answer, q.name, answered, kept);
      }
    }
  }

  method Readdress(resp: Msg, id: nat)
    modifies resp`id
    ensures resp.id == id && resp.Value() == old(resp.Value()).(id := id)
  {
    resp.id := id;
  }
}
