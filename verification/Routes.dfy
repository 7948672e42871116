/** The route controller of dns-server/internal/ip_routes.go and the router's agent it talks to. */
module Routes {
  import opened Basics
  import opened Addresses
  import opened Clocks
  import opened Hosts
  import opened Store

  /** A call to the agent: whether it was acknowledged, and whether the router has taken it. The router
      may take a call that fails on its way back. */
  datatype Call = AddCall(route: Route, ok: bool, took: bool) | DeleteCall(route: Route, ok: bool, took: bool)

  /** The effect of the acknowledged calls on a set of routes. */
  function Applied(s: set<Route>, calls: seq<Call>): set<Route> {
    if calls == [] then s
    else
      var before := Applied(s, calls[..|calls| - 1]);
      match calls[|calls| - 1]
      case AddCall(r, ok, _) => if ok then before + {r} else before
      case DeleteCall(r, ok, _) => if ok then before - {r} else before
  }

  /** The calls as the router has seen them. */
  ghost function Taken(calls: seq<Call>): (r: seq<Call>)
    ensures |r| == |calls| && forall i :: 0 <= i < |r| ==> r[i] == calls[i].(ok := calls[i].took)
  {
    seq(|calls|, i requires 0 <= i < |calls| => calls[i].(ok := calls[i].took))
  }

  /** What the calls make of the router's table. */
  ghost function Reached(table: set<Route>, calls: seq<Call>): set<Route> {
    Applied(table, Taken(calls))
  }

  /** The router has taken every acknowledged call. */
  ghost predicate Honest(calls: seq<Call>) {
    forall i :: 0 <= i < |calls| && calls[i].ok ==> calls[i].took
  }

  ghost function Adds(calls: seq<Call>): set<Route> {
    set i | 0 <= i < |calls| && calls[i].AddCall? :: calls[i].route
  }

  ghost function Deletes(calls: seq<Call>): set<Route> {
    set i | 0 <= i < |calls| && calls[i].DeleteCall? :: calls[i].route
  }

  ghost function AckedAdds(calls: seq<Call>): set<Route> {
    set i | 0 <= i < |calls| && calls[i].AddCall? && calls[i].ok :: calls[i].route
  }

  ghost function AckedDeletes(calls: seq<Call>): set<Route> {
    set i | 0 <= i < |calls| && calls[i].DeleteCall? && calls[i].ok :: calls[i].route
  }

  /** The router: a table of routes behind calls of which any may fail, with or without effect. */
  class Agent {
    var table: set<Route>
    ghost var calls: seq<Call>
    ghost var ruleCalls: seq<RuleConfig>

    method AddRoute(r: Route) returns (ok: bool, ghost took: bool)
      modifies `table, `calls
      ensures calls == old(calls) + [AddCall(r, ok, took)] && (ok ==> took)
      ensures table == if took then old(table) + {r} else old(table)
    {
      ok := *;
      var done: bool := *;
      if ok || done {
        table := table + {r};
      }
      took := ok || done;
      calls := calls + [AddCall(r, ok, took)];
    }

    method DeleteRoute(r: Route) returns (ok: bool, ghost took: bool)
      modifies `table, `calls
      ensures calls == old(calls) + [DeleteCall(r, ok, took)] && (ok ==> took)
      ensures table == if took then old(table) - {r} else old(table)
    {
      ok := *;
      var done: bool := *;
      if ok || done {
        table := table - {r};
      }
      took := ok || done;
      calls := calls + [DeleteCall(r, ok, took)];
    }

    /** Whether the rule is there, or None when the call fails; read from a shell command as well. */
    method HasRule(rule: RuleConfig) returns (res: Option<bool>)
    {
      res := *;
    }

    method AddRule(rule: RuleConfig)
      modifies `ruleCalls
      ensures ruleCalls == old(ruleCalls) + [rule]
    {
      ruleCalls := ruleCalls + [rule];
    }

    /** The listing, or None when the call fails. It is parsed from the output of a shell command, so
        nothing is promised about its lines. */
    method ListRoutes() returns (res: Option<seq<WireRoute>>)
    {
      res := *;
    }
  }

  // ------------------------------------------------------------ what a pass has to do

  ghost predicate Live(contents: map<Key, DNSRecord>, ip: IPv4, extra: int, now: int) {
    exists k :: k in contents && k.ip == ip && !ExpiredAt(contents[k], extra, now)
  }

  ghost function StaticRoutes(table: int, fixed: map<string, seq<IPv4>>): set<Route> {
    set iface, i | iface in fixed && 0 <= i < |fixed[iface]| :: Route(table, iface, fixed[iface][i])
  }

  /** The believed routes a pass found live: the store is asked while the clock moves. */
  ghost predicate FoundLive(live: set<Route>, believed: set<Route>, contents: map<Key, DNSRecord>, extra: int, start: int, end: int) {
    && live <= believed
    && (forall r :: r in live ==> Live(contents, r.addr, extra, start))
    && (forall r :: r in believed && Live(contents, r.addr, extra, end) ==> r in live)
  }

  /** A pass over table `k0` and believed set `r0`, with `defined` read from the listing: exactly the
      desired routes missing from the listing are asked for, exactly the listed undesired ones are asked
      to be deleted; the table changes by the calls the router took, the believed set by those it
      acknowledged. A failed listing reads as empty. */
  ghost predicate Pass(defined: set<Route>, live: set<Route>, fixed: set<Route>, k0: set<Route>, r0: set<Route>,
                       k1: set<Route>, r1: set<Route>, calls: seq<Call>)
  {
    var desired := live + fixed;
    && Adds(calls) == desired - defined
    && Deletes(calls) == defined - desired
    && Honest(calls) && k1 == Reached(k0, calls) && r1 == Applied(r0, calls)
  }

  lemma CallsOfOne(calls: seq<Call>, c: Call)
    ensures Adds(calls + [c]) == Adds(calls) + if c.AddCall? then {c.route} else {}
    ensures Deletes(calls + [c]) == Deletes(calls) + if c.DeleteCall? then {c.route} else {}
    ensures AckedAdds(calls + [c]) == AckedAdds(calls) + if c.AddCall? && c.ok then {c.route} else {}
    ensures AckedDeletes(calls + [c]) == AckedDeletes(calls) + if c.DeleteCall? && c.ok then {c.route} else {}
    ensures forall s :: Applied(s, calls + [c]) == if !c.ok then Applied(s, calls)
                                                   else if c.AddCall? then Applied(s, calls) + {c.route}
                                                   else Applied(s, calls) - {c.route}
  {
    var all := calls + [c];
    assert all[..|all| - 1] == calls;
    assert all[|calls|] == c;
    assert forall i :: 0 <= i < |calls| ==> all[i] == calls[i];
  }

  lemma TakenOfOne(calls: seq<Call>, c: Call)
    ensures Taken(calls + [c]) == Taken(calls) + [c.(ok := c.took)]
    ensures Honest(calls + [c]) <==> Honest(calls) && (c.ok ==> c.took)
    ensures forall s :: Reached(s, calls + [c]) == if !c.took then Reached(s, calls)
                                                   else if c.AddCall? then Reached(s, calls) + {c.route}
                                                   else Reached(s, calls) - {c.route}
  {
    hide Applied;
    CallsOfOne(Taken(calls), c.(ok := c.took));
    assert (calls + [c])[|calls|] == c && forall i :: 0 <= i < |calls| ==> (calls + [c])[i] == calls[i];
  }

  /** The router sees the calls that were made, and takes at least the acknowledged ones. */
  lemma TakenAreCalls(calls: seq<Call>)
    ensures Adds(Taken(calls)) == Adds(calls) && Deletes(Taken(calls)) == Deletes(calls)
    ensures Honest(calls) ==> AckedAdds(calls) <= AckedAdds(Taken(calls)) && AckedDeletes(calls) <= AckedDeletes(Taken(calls))
  {
    forall r | r in Adds(calls)
      ensures r in Adds(Taken(calls))
    {
      var i :| 0 <= i < |calls| && calls[i].AddCall? && calls[i].route == r;
      assert Taken(calls)[i].AddCall? && Taken(calls)[i].route == r;
    }
    forall r | r in Deletes(calls)
      ensures r in Deletes(Taken(calls))
    {
      var i :| 0 <= i < |calls| && calls[i].DeleteCall? && calls[i].route == r;
      assert Taken(calls)[i].DeleteCall? && Taken(calls)[i].route == r;
    }
    if Honest(calls) {
      AckedAreTaken(calls);
    }
  }

  lemma AckedAreTaken(calls: seq<Call>)
    requires Honest(calls)
    ensures AckedAdds(calls) <= AckedAdds(Taken(calls)) && AckedDeletes(calls) <= AckedDeletes(Taken(calls))
  {
    forall r | r in AckedAdds(calls)
      ensures r in AckedAdds(Taken(calls))
    {
      var i :| 0 <= i < |calls| && calls[i].AddCall? && calls[i].ok && calls[i].route == r;
      assert Taken(calls)[i].AddCall? && Taken(calls)[i].ok && Taken(calls)[i].route == r;
    }
    forall r | r in AckedDeletes(calls)
      ensures r in AckedDeletes(Taken(calls))
    {
      var i :| 0 <= i < |calls| && calls[i].DeleteCall? && calls[i].ok && calls[i].route == r;
      assert Taken(calls)[i].DeleteCall? && Taken(calls)[i].ok && Taken(calls)[i].route == r;
    }
  }

  /** As long as no route is both added and deleted, the calls take away the acknowledged deletions
      and put in the acknowledged additions. */
  lemma {:induction false} AppliedExactly(s: set<Route>, calls: seq<Call>)
    requires Adds(calls) !! Deletes(calls)
    ensures Applied(s, calls) == s - AckedDeletes(calls) + AckedAdds(calls)
  {
    if calls != [] {
      var init, c := calls[..|calls| - 1], calls[|calls| - 1];
      assert calls == init + [c];
      CallsOfOne(init, c);
      AppliedExactly(s, init);
      assert c.route in Adds(calls) + Deletes(calls);
      AckedAreCalls(init);
    }
  }

  lemma CallIsCounted(calls: seq<Call>, k: nat)
    requires k < |calls|
    ensures calls[k].DeleteCall? ==> calls[k].route in Deletes(calls)
    ensures calls[k].AddCall? && calls[k].ok ==> calls[k].route in AckedAdds(calls)
  {
  }

  lemma AckedAreCalls(calls: seq<Call>)
    ensures AckedAdds(calls) <= Adds(calls) && AckedDeletes(calls) <= Deletes(calls)
  {
  }

  /** Exactness under partial failure: the table changes by exactly the calls the router took, the
      believed set by exactly the acknowledged ones, and no call goes beyond the differences. */
  lemma PassExactly(defined: set<Route>, live: set<Route>, fixed: set<Route>, k0: set<Route>, r0: set<Route>,
                    k1: set<Route>, r1: set<Route>, calls: seq<Call>)
    requires Pass(defined, live, fixed, k0, r0, k1, r1, calls)
    ensures k1 == k0 - AckedDeletes(Taken(calls)) + AckedAdds(Taken(calls))
    ensures r1 == r0 - AckedDeletes(calls) + AckedAdds(calls)
    ensures AckedDeletes(calls) <= AckedDeletes(Taken(calls)) <= defined - (live + fixed)
    ensures AckedAdds(calls) <= AckedAdds(Taken(calls)) <= live + fixed - defined
    ensures defined == {} ==> k0 <= k1 && r0 <= r1
    ensures defined == k0 && AllAcked(calls) ==> k1 == live + fixed
  {
    hide Adds, Deletes, AckedAdds, AckedDeletes, Applied, Honest;
    TakenAreCalls(calls);
    AppliedExactly(k0, Taken(calls));
    AppliedExactly(r0, calls);
    AckedAreCalls(calls);
    AckedAreCalls(Taken(calls));
  }

  /** No call has failed. */
  ghost predicate AllAcked(calls: seq<Call>) {
    AckedAdds(calls) == Adds(calls) && AckedDeletes(calls) == Deletes(calls)
  }

  /** A second pass after one without failures, over the same live addresses and configuration and with
      both listings true, does nothing at all. */
  lemma SecondPassIsIdle(live: set<Route>, fixed: set<Route>, k0: set<Route>, r0: set<Route>, k1: set<Route>, r1: set<Route>,
                         calls: seq<Call>, live': set<Route>, k2: set<Route>, r2: set<Route>, calls': seq<Call>,
                         alive: set<IPv4>)
    requires live == set r | r in r0 && r.addr in alive
    requires live' == set r | r in r1 && r.addr in alive
    requires Pass(k0, live, fixed, k0, r0, k1, r1, calls)
    requires AllAcked(calls)
    requires Pass(k1, live', fixed, k1, r1, k2, r2, calls')
    ensures calls' == [] && k2 == k1 && r2 == r1
  {
    PassExactly(k0, live, fixed, k0, r0, k1, r1, calls);
    assert live' + fixed == live + fixed;
    assert Adds(calls') == {} && Deletes(calls') == {};
    NoSilentCalls(calls');
  }

  lemma NoSilentCalls(calls: seq<Call>)
    ensures calls != [] ==> Adds(calls) + Deletes(calls) != {}
  {
    if calls != [] {
      assert calls[0].route in Adds(calls) + Deletes(calls);
    }
  }

  /** A believed route that is in the table and still live when the pass ends survives it, whatever
      the listing said. */
  lemma PassKeepsLive(defined: set<Route>, live: set<Route>, fixed: set<Route>, k0: set<Route>, r0: set<Route>,
                      k1: set<Route>, r1: set<Route>, calls: seq<Call>, r: Route)
    requires Pass(defined, live, fixed, k0, r0, k1, r1, calls)
    requires r in k0 && r in r0 && r in live
    ensures r in k1 && r in r1
  {
    PassExactly(defined, live, fixed, k0, r0, k1, r1, calls);
  }

  // ------------------------------------------------------------ reading a listing

  /** Some line has an address that makes the parser panic. */
  ghost predicate Panics(w: Width, lines: seq<WireRoute>) {
    exists i :: 0 <= i < |lines| && Parse(w, lines[i].address).Panic?
  }

  /** The routes read from a listing; lines with a malformed prefix are skipped. */
  ghost function Decoded(w: Width, lines: seq<WireRoute>): set<Route>
    requires !Panics(w, lines)
  {
    set i | 0 <= i < |lines| && FromWire(w, lines[i]).Some? :: FromWire(w, lines[i]).value
  }

  ghost predicate IsPrinted(line: WireRoute, table: set<Route>) {
    exists r :: r in table && ToWire(r) == line
  }

  /** The lines are the printed forms of the routes of a table. */
  ghost predicate Prints(lines: seq<WireRoute>, table: set<Route>) {
    && (forall i :: 0 <= i < |lines| ==> IsPrinted(lines[i], table))
    && (forall r :: r in table ==> ToWire(r) in lines)
  }

  /** A true listing of a table whose number survives the protocol reads back as the table. */
  lemma TrueListingDecodes(w: Width, lines: seq<WireRoute>, table: set<Route>, number: int)
    requires Prints(lines, table)
    requires forall r :: r in table ==> r.table == number
    requires IsInt(w, number) && (w == W64 ==> 0 <= number < TWO_32)
    ensures !Panics(w, lines) && Decoded(w, lines) == table
  {
    hide Parse, FromWire, ToWire;
    forall i | 0 <= i < |lines|
      ensures !Parse(w, lines[i].address).Panic? && FromWire(w, lines[i]).Some? && FromWire(w, lines[i]).value in table
    {
      assert IsPrinted(lines[i], table);
      var r :| r in table && ToWire(r) == lines[i];
      WireRoundTripIff(w, r);
    }
    forall r | r in table
      ensures r in Decoded(w, lines)
    {
      WireRoundTripIff(w, r);
      assert ToWire(r) in lines;
      var i :| 0 <= i < |lines| && lines[i] == ToWire(r);
      assert FromWire(w, lines[i]) == Some(r);
    }
  }

  /** One line for a default route is enough to make the whole listing panic. */
  lemma DefaultRoutePanics(w: Width, lines: seq<WireRoute>, i: nat)
    requires i < |lines| && lines[i].address == "default"
    ensures Panics(w, lines)
  {
    hide Parse;
    DefaultPanics(w);
  }

  // ------------------------------------------------------------ the controller

  class IPRouteController {
    const w: Width
    const tableId: int
    const store: DNSStore
    const agent: Agent
    const clock: Clock
    var cfg: RoutingConfig
    var routes: set<Route>

    /** The rule's table number never changes and all believed routes are in that table. */
    ghost predicate Valid()
      reads this, store
    {
      && store.Valid()
      && cfg.rule.table == tableId
      && (forall r :: r in routes ==> r.table == tableId)
    }

    constructor (cfg: RoutingConfig, store: DNSStore, agent: Agent, clock: Clock, w: Width)
      requires store.Valid()
      ensures Valid() && routes == {} && this.cfg == cfg
      ensures this.store == store && this.agent == agent && this.clock == clock && this.w == w
    {
      this.cfg, this.tableId, this.store, this.agent, this.clock, this.w := cfg, cfg.rule.table, store, agent, clock, w;
      routes := {};
    }

    /** Reads the router's table. It crashes exactly when a delivered line panics; otherwise it yields
        the routes read from the lines, none when the call fails. */
    method LoadRoutes() returns (crashed: bool, defined: set<Route>, listing: Option<seq<WireRoute>>)
      ensures crashed <==> listing.Some? && Panics(w, listing.value)
      ensures !crashed ==> defined == if listing.Some? then Decoded(w, listing.value) else {}
    {
      hide Parse, FromWire;
      var res := agent.ListRoutes();
      listing := res;
      crashed, defined := false, {};
      if res.None? {
        return;
      }
      var list := res.value;
      for i := 0 to |list|
        invariant forall j :: 0 <= j < i ==> !Parse(w, list[j].address).Panic?
        invariant defined == set j | 0 <= j < i && FromWire(w, list[j]).Some? :: FromWire(w, list[j]).value
      {
        if Parse(w, list[i].address).Panic? {
          crashed := true;
          return;
        }
        var route := FromWire(w, list[i]);
        if route.Some? {
          defined := defined + {route.value};
        }
      }
    }

    /** `addRoute`: ask the agent, believe the route only when it acknowledges. */
    method RequestRoute(r: Route) returns (ghost call: Call)
      requires Valid() && r.table == tableId
      modifies `routes, agent`table, agent`calls
      ensures Valid()
      ensures call.AddCall? && call.route == r && agent.calls == old(agent.calls) + [call]
      ensures (call.ok ==> call.took) && agent.table == Reached(old(agent.table), [call]) && routes == Applied(old(routes), [call])
    {
      hide Applied, Agree;
      var ok;
      ghost var took;
      ok, took := agent.AddRoute(r);
      if ok {
        routes := routes + {r};
      }
      call := AddCall(r, ok, took);
      AppliedOne(call);
    }

    method RequestDeletion(r: Route) returns (ghost call: Call)
      requires Valid()
      modifies `routes, agent`table, agent`calls
      ensures Valid()
      ensures call.DeleteCall? && call.route == r && agent.calls == old(agent.calls) + [call]
      ensures (call.ok ==> call.took) && agent.table == Reached(old(agent.table), [call]) && routes == Applied(old(routes), [call])
    {
      hide Applied, Agree;
      var ok;
      ghost var took;
      ok, took := agent.DeleteRoute(r);
      if ok {
        routes := routes - {r};
      }
      call := DeleteCall(r, ok, took);
      AppliedOne(call);
    }

    /** A newly resolved address: the agent is asked only for routes not believed to be there. */
    method AddRoute(iface: string, ip: IPv4) returns (ghost calls: seq<Call>)
      requires Valid()
      modifies `routes, agent`table, agent`calls
      ensures Valid()
      ensures agent.calls == old(agent.calls) + calls
      ensures Honest(calls) && agent.table == Reached(old(agent.table), calls) && routes == Applied(old(routes), calls)
      ensures var r := Route(tableId, iface, ip);
              if r in old(routes) then calls == [] else |calls| == 1 && calls[0].AddCall? && calls[0].route == r
    {
      calls := [];
      var r := Route(tableId, iface, ip);
      if r !in routes {
        ghost var call := RequestRoute(r);
        calls := [call];
      }
    }

    /** The records that have not expired, each looked at with its own reading of the clock. */
    method RemoveExpiredRecords(records: seq<DNSRecord>, extra: int) returns (kept: seq<DNSRecord>)
      modifies clock
      ensures old(clock.now) <= clock.now
      ensures forall r :: r in kept ==> r in records && !ExpiredAt(r, extra, old(clock.now))
      ensures forall r :: r in records && !ExpiredAt(r, extra, clock.now) ==> r in kept
    {
      kept := [];
      for i := 0 to |records|
        invariant old(clock.now) <= clock.now
        invariant forall r :: r in kept ==> r in records && !ExpiredAt(r, extra, old(clock.now))
        invariant forall r :: r in records[..i] && !ExpiredAt(r, extra, clock.now) ==> r in kept
      {
        var now := clock.Read();
        if !ExpiredAt(records[i], extra, now) {
          kept := kept + [records[i]];
        }
        assert records[..i + 1] == records[..i] + [records[i]];
      }
      assert records[..|records|] == records;
    }

    method IsLive(ip: IPv4, extra: int) returns (live: bool)
      requires Valid()
      modifies clock
      ensures old(clock.now) <= clock.now
      ensures live ==> Live(store.contents, ip, extra, old(clock.now))
      ensures Live(store.contents, ip, extra, clock.now) ==> live
    {
      var records := store.LookupIP(ip);
      var kept := RemoveExpiredRecords(records, extra);
      live := |kept| > 0;
      if live {
        assert kept[0] in kept;
      }
      if Live(store.contents, ip, extra, clock.now) {
        var k :| k in store.contents && k.ip == ip && !ExpiredAt(store.contents[k], extra, clock.now);
        assert store.contents[k].key == k;
        assert store.contents[k] in records;
      }
    }

    /** The local closure of `reconcileRoutes`: a wanted route is crossed off the unknown ones or
        asked for. */
    method Want(r: Route, defined: set<Route>, unknown: set<Route>, ghost g: Progress)
      returns (unknown': set<Route>, ghost g': Progress)
      requires Valid() && r.table == tableId && Asked(g, defined, unknown, agent.table, routes, agent.calls)
      modifies `routes, agent`table, agent`calls
      ensures Valid() && g.Same(g') && g'.wanted == g.wanted + {r}
      ensures Asked(g', defined, unknown', agent.table, routes, agent.calls)
    {
      hide Applied, Adds, Deletes;
      if r in defined {
        unknown' := unknown - {r};
        g' := g.(wanted := g.wanted + {r});
      } else {
        unknown' := unknown;
        ghost var k, b, log := agent.table, routes, agent.calls;
        ghost var call := RequestRoute(r);
        AskedMore(g, defined, unknown, k, b, log, call);
        g' := g.(calls := g.calls + [call], wanted := g.wanted + {r});
      }
    }

    /** `reconcileRoutes`. `live` are the believed routes found live. A crash while reading the listing
        comes before any call. */
    method ReconcileRoutes(cfg: RoutingConfig)
      returns (crashed: bool, ghost listing: Option<seq<WireRoute>>, ghost live: set<Route>, ghost calls: seq<Call>)
      requires Valid() && cfg.rule.table == tableId
      modifies `routes, agent`table, agent`calls, clock
      ensures Valid() && old(clock.now) <= clock.now && agent.calls == old(agent.calls) + calls
      ensures crashed <==> listing.Some? && Panics(w, listing.value)
      ensures crashed ==> calls == [] && agent.table == old(agent.table) && routes == old(routes)
      ensures !crashed ==>
                && FoundLive(live, old(routes), store.contents, cfg.dynamic.routeTimeout, old(clock.now), clock.now)
                && Pass(if listing.Some? then Decoded(w, listing.value) else {}, live,
                        StaticRoutes(tableId, cfg.dynamic.staticRoutes), old(agent.table), old(routes),
                        agent.table, routes, calls)
    {
      hide Asked, StaticRoutes, Applied, Adds, Deletes, Decoded, Panics;
      var defined;
      crashed, defined, listing := LoadRoutes();
      live, calls := {}, [];
      if crashed {
        return;
      }
      ghost var g := Progress(agent.table, routes, {}, agent.calls, []);
      NothingAsked(g, defined);
      var unknown := defined;
      unknown, live, g := WantLive(cfg, defined, unknown, g);
      unknown, g := WantStatic(cfg, defined, unknown, g);
      g := DeleteUnknown(defined, unknown, g);
      calls := g.calls;
    }

    method WantLive(cfg: RoutingConfig, defined: set<Route>, unknown: set<Route>, ghost g: Progress)
      returns (unknown': set<Route>, ghost live: set<Route>, ghost g': Progress)
      requires Valid() && Asked(g, defined, unknown, agent.table, routes, agent.calls) && g.wanted == {}
      modifies `routes, agent`table, agent`calls, clock
      ensures Valid() && old(clock.now) <= clock.now && g.Same(g')
      ensures Asked(g', defined, unknown', agent.table, routes, agent.calls) && g'.wanted == live
      ensures FoundLive(live, old(routes), store.contents, cfg.dynamic.routeTimeout, old(clock.now), clock.now)
    {
      hide Asked, Live, FoundLive, Valid;
      unknown', live, g' := unknown, {}, g;
      var todo := routes;
      RouteTables();
      FoundNone(store.contents, cfg.dynamic.routeTimeout, clock.now);
      assert old(routes) - todo == {};
      while todo != {}
        invariant Valid() && old(clock.now) <= clock.now && todo <= old(routes) && forall r :: r in todo ==> r.table == tableId
        invariant g.Same(g') && Asked(g', defined, unknown', agent.table, routes, agent.calls) && g'.wanted == live
        invariant FoundLive(live, old(routes) - todo, store.contents, cfg.dynamic.routeTimeout, old(clock.now), clock.now)
        decreases todo
      {
        var r :| r in todo;
        ghost var before := clock.now;
        var isLive := IsLive(r.addr, cfg.dynamic.routeTimeout);
        FoundMore(live, old(routes) - todo, store.contents, cfg.dynamic.routeTimeout, old(clock.now), before, clock.now, r, isLive);
        assert old(routes) - (todo - {r}) == old(routes) - todo + {r};
        if isLive {
          unknown', g' := Want(r, defined, unknown', g');
          live := live + {r};
        }
        todo := todo - {r};
      }
      assert old(routes) - todo == old(routes);
    }

    lemma RouteTables()
      requires Valid()
      ensures forall r :: r in routes ==> r.table == tableId
    {
    }

    method WantStatic(cfg: RoutingConfig, defined: set<Route>, unknown: set<Route>, ghost g: Progress)
      returns (unknown': set<Route>, ghost g': Progress)
      requires Valid() && Asked(g, defined, unknown, agent.table, routes, agent.calls) && cfg.rule.table == tableId
      modifies `routes, agent`table, agent`calls
      ensures Valid() && g.Same(g')
      ensures Asked(g', defined, unknown', agent.table, routes, agent.calls)
      ensures g'.wanted == g.wanted + StaticRoutes(tableId, cfg.dynamic.staticRoutes)
    {
      hide Asked;
      unknown', g' := unknown, g;
      var fixed := cfg.dynamic.staticRoutes;
      var ifaces := fixed.Keys;
      while ifaces != {}
        invariant Valid() && ifaces <= fixed.Keys
        invariant g.Same(g') && Asked(g', defined, unknown', agent.table, routes, agent.calls)
        invariant g'.wanted == g.wanted + StaticRoutes(tableId, fixed - ifaces)
        decreases ifaces
      {
        var iface :| iface in ifaces;
        var addresses := fixed[iface];
        ghost var was := g'.wanted;
        for i := 0 to |addresses|
          invariant Valid() && g.Same(g') && Asked(g', defined, unknown', agent.table, routes, agent.calls)
          invariant g'.wanted == was + set j | 0 <= j < i :: Route(tableId, iface, addresses[j])
        {
          unknown', g' := Want(Route(cfg.rule.table, iface, addresses[i]), defined, unknown', g');
        }
        StaticMore(tableId, fixed, ifaces, iface);
        ifaces := ifaces - {iface};
      }
      assert fixed - ifaces == fixed;
    }

    method DeleteUnknown(defined: set<Route>, unknown: set<Route>, ghost g: Progress) returns (ghost g': Progress)
      requires Valid() && Asked(g, defined, unknown, agent.table, routes, agent.calls)
      modifies `routes, agent`table, agent`calls
      ensures Valid() && g.Same(g') && g'.wanted == g.wanted
      ensures Done(g', defined, {}, agent.table, routes, agent.calls)
    {
      hide Asked, Done;
      g' := g;
      AskedAll(g, defined, unknown, agent.table, routes, agent.calls);
      var rest := unknown;
      while rest != {}
        invariant Valid() && g.Same(g') && g'.wanted == g.wanted
        invariant Done(g', defined, rest, agent.table, routes, agent.calls)
        decreases rest
      {
        var r :| r in rest;
        ghost var k, b, log := agent.table, routes, agent.calls;
        ghost var call := RequestDeletion(r);
        DoneMore(g', defined, rest, k, b, log, call);
        g' := g'.(calls := g'.calls + [call]);
        rest := rest - {r};
      }
    }

    /** `reconcileRules`: the rule is asked for exactly when the agent says it is missing. */
    method ReconcileRules(cfg: RoutingConfig) returns (present: Option<bool>)
      modifies agent`ruleCalls
      ensures agent.ruleCalls == old(agent.ruleCalls) + if present == Some(false) then [cfg.rule] else []
    {
      present := agent.HasRule(cfg.rule);
      if present.Some? && !present.value {
        agent.AddRule(cfg.rule);
      }
    }

    /** A whole reconciliation: sweep the store, see to the rule, then bring the table in line. When the
        listing makes the parser panic the process ends before any route change is asked for. */
    method Reconcile() returns (crashed: bool, present: Option<bool>, ghost rec: Reconciliation)
      requires Valid()
      modifies `routes, agent, clock, store
      ensures Valid() && agent.calls == old(agent.calls) + rec.calls
      ensures agent.ruleCalls == old(agent.ruleCalls) + if present == Some(false) then [cfg.rule] else []
      ensures crashed ==> rec.calls == [] && agent.table == old(agent.table) && routes == old(routes)
      ensures !crashed ==>
                Reconciles(rec, cfg.dynamic.routeTimeout, StaticRoutes(tableId, cfg.dynamic.staticRoutes),
                           old(store.contents), store.contents, old(clock.now), clock.now,
                           old(agent.table), old(routes), agent.table, routes)
    {
      hide Swept, FoundLive, Pass, StaticRoutes, Decoded, Panics;
      store.RemoveExpired(cfg.dynamic.routeTimeout, clock);
      ghost var mid := clock.now;
      present := ReconcileRules(cfg);
      ghost var listing, live, calls;
      crashed, listing, live, calls := ReconcileRoutes(cfg);
      rec := Reconciliation(mid, if !crashed && listing.Some? then Decoded(w, listing.value) else {}, live, calls);
    }

    /** A configuration reload replaces everything but the rule, then reconciles. */
    method UpdateConfig(dynamic: DynamicConfig) returns (crashed: bool, present: Option<bool>, ghost rec: Reconciliation)
      requires Valid()
      modifies `cfg, `routes, agent, clock, store
      ensures Valid() && agent.calls == old(agent.calls) + rec.calls
      ensures agent.ruleCalls == old(agent.ruleCalls) + if present == Some(false) then [cfg.rule] else []
      ensures cfg == RoutingConfig(old(cfg.rule), dynamic)
      ensures crashed ==> rec.calls == [] && agent.table == old(agent.table) && routes == old(routes)
      ensures !crashed ==>
                Reconciles(rec, dynamic.routeTimeout, StaticRoutes(tableId, dynamic.staticRoutes),
                           old(store.contents), store.contents, old(clock.now), clock.now,
                           old(agent.table), old(routes), agent.table, routes)
    {
      hide Reconciles, StaticRoutes;
      cfg := cfg.(dynamic := dynamic);
      crashed, present, rec := Reconcile();
    }

    /** `Start`: on a fresh controller, unless the listing panics or some call fails or the listing is
        not the table, the table is then the static routes and the routes of the live stored records. */
    method Start() returns (crashed: bool, present: Option<bool>, ghost rec: Reconciliation)
      requires Valid()
      modifies `routes, agent, clock, store
      ensures Valid()
      ensures !crashed && old(routes) == {} && AllAcked(rec.calls) && rec.defined == old(agent.table) ==>
                Established(cfg, tableId, old(store.contents), store.contents, old(clock.now), clock.now, agent.table)
    {
      hide FromRecord, HasRoute, Reconciles, Established, AllAcked, StaticRoutes;
      Init();
      ghost var before, start, k0, r0 := store.contents, clock.now, agent.table, routes;
      crashed, present, rec := Reconcile();
      if !crashed && old(routes) == {} && AllAcked(rec.calls) && rec.defined == k0 {
        StartEstablishes(cfg, tableId, before, store.contents, start, clock.now, rec, k0, r0, agent.table, routes);
      }
    }

    /** At start-up every stored record whose domain is configured is believed to have its route. */
    method Init()
      requires Valid()
      modifies `routes
      ensures Valid() && old(routes) <= routes
      ensures forall r :: r in routes - old(routes) ==> FromRecord(cfg, store.contents, r)
      ensures forall k :: k in store.contents ==> HasRoute(cfg, tableId, routes, k)
    {
      hide FromRecord, HasRoute, Ifaces, Agree;
      var records := store.Records();
      for i := 0 to |records|
        invariant Valid() && old(routes) <= routes
        invariant forall r :: r in routes - old(routes) ==> FromRecord(cfg, store.contents, r)
        invariant forall j :: 0 <= j < i ==> HasRoute(cfg, tableId, routes, records[j].key)
      {
        var rec := records[i];
        assert rec in records;
        var iface := LookupHost(cfg, rec.key.domain);
        ghost var before := routes;
        if iface != "" {
          routes := routes + {Route(cfg.rule.table, iface, rec.key.ip)};
        }
        SeedMore(cfg, tableId, store.contents, before, rec.key, iface);
      }
      store.OwnKeys();
      forall k | k in store.contents
        ensures HasRoute(cfg, tableId, routes, k)
      {
        assert store.contents[k] in records;
      }
    }
  }

  /** The table a start-up without failures leaves: the static routes, live routes of stored records
      over interfaces configured for their domains, and for every record that is still unexpired at the
      end, if its domain is configured, one of its routes. */
  ghost predicate Established(cfg: RoutingConfig, number: int, before: map<Key, DNSRecord>, after: map<Key, DNSRecord>,
                              start: int, end: int, table: set<Route>)
  {
    var fixed, extra := StaticRoutes(number, cfg.dynamic.staticRoutes), cfg.dynamic.routeTimeout;
    && fixed <= table
    && (forall r :: r in table - fixed ==> FromRecord(cfg, before, r) && Live(after, r.addr, extra, start))
    && (forall k :: k in before && !ExpiredAt(before[k], extra, end) ==> HasRoute(cfg, number, table, k))
  }

  lemma StartEstablishes(cfg: RoutingConfig, number: int, before: map<Key, DNSRecord>, after: map<Key, DNSRecord>,
                         start: int, end: int, rec: Reconciliation, k0: set<Route>, r0: set<Route>, k1: set<Route>, r1: set<Route>)
    requires Reconciles(rec, cfg.dynamic.routeTimeout, StaticRoutes(number, cfg.dynamic.staticRoutes), before, after, start, end, k0, r0, k1, r1)
    requires AllAcked(rec.calls) && rec.defined == k0
    requires forall r :: r in r0 ==> FromRecord(cfg, before, r)
    requires forall k :: k in before ==> HasRoute(cfg, number, r0, k)
    ensures Established(cfg, number, before, after, start, end, k1)
  {
    hide Pass, FromRecord, Live, Swept, AllAcked, StaticRoutes, Ifaces;
    var fixed, extra := StaticRoutes(number, cfg.dynamic.staticRoutes), cfg.dynamic.routeTimeout;
    PassExactly(rec.defined, rec.live, fixed, k0, r0, k1, r1, rec.calls);
    LiveEarlier(after, extra, start, rec.mid);
    forall k | k in before && !ExpiredAt(before[k], extra, end)
      ensures HasRoute(cfg, number, k1, k)
    {
      SurvivorIsLive(before, after, extra, start, rec.mid, end, k);
      assert HasRoute(cfg, number, r0, k);
      var ifaces := Ifaces(cfg, k.domain);
      if ifaces != {} && "" !in ifaces {
        var iface :| iface in ifaces && Route(number, iface, k.ip) in r0;
        assert Route(number, iface, k.ip) in rec.live;
      }
    }
  }

  lemma SurvivorIsLive(before: map<Key, DNSRecord>, after: map<Key, DNSRecord>, extra: int, start: int, mid: int, end: int, k: Key)
    requires Swept(before, after, extra, start, mid) && mid <= end
    requires k in before && !ExpiredAt(before[k], extra, end)
    ensures Live(after, k.ip, extra, end)
  {
    ExpiredLater(before[k], extra, mid, end);
    assert k in after && after[k] == before[k];
  }

  /** The route of some stored record's address over an interface configured for its domain. */
  ghost predicate FromRecord(cfg: RoutingConfig, contents: map<Key, DNSRecord>, r: Route) {
    exists k :: k in contents && k.ip == r.addr && r.iface in Ifaces(cfg, k.domain)
  }

  /** A record whose domain is configured has one of its routes. */
  ghost predicate HasRoute(cfg: RoutingConfig, table: int, routes: set<Route>, k: Key) {
    var ifaces := Ifaces(cfg, k.domain);
    ifaces == {} || "" in ifaces || exists iface :: iface in ifaces && Route(table, iface, k.ip) in routes
  }

  lemma SeedMore(cfg: RoutingConfig, table: int, contents: map<Key, DNSRecord>, routes: set<Route>, k: Key, iface: string)
    requires if Ifaces(cfg, k.domain) == {} then iface == "" else iface in Ifaces(cfg, k.domain)
    requires k in contents
    ensures iface != "" ==> FromRecord(cfg, contents, Route(table, iface, k.ip))
    ensures var routes' := if iface == "" then routes else routes + {Route(table, iface, k.ip)};
            HasRoute(cfg, table, routes', k) && forall o :: HasRoute(cfg, table, routes, o) ==> HasRoute(cfg, table, routes', o)
  {
    hide Ifaces;
  }

  datatype Reconciliation = Reconciliation(mid: int, defined: set<Route>, live: set<Route>, calls: seq<Call>)

  ghost predicate Reconciles(rec: Reconciliation, extra: int, fixed: set<Route>, c0: map<Key, DNSRecord>, c1: map<Key, DNSRecord>,
                             start: int, end: int, k0: set<Route>, r0: set<Route>, k1: set<Route>, r1: set<Route>)
  {
    && start <= rec.mid <= end
    && Swept(c0, c1, extra, start, rec.mid)
    && FoundLive(rec.live, r0, c1, extra, rec.mid, end)
    && Pass(rec.defined, rec.live, fixed, k0, r0, k1, r1, rec.calls)
  }

  // ------------------------------------------------------------ bookkeeping of a pass

  /** Where a pass stands: the state it started from, the routes it has wanted so far, the agent's
      call log at its start and its own calls. */
  datatype Progress = Progress(k0: set<Route>, r0: set<Route>, wanted: set<Route>, base: seq<Call>, calls: seq<Call>) {
    predicate Same(g: Progress) {
      k0 == g.k0 && r0 == g.r0 && base == g.base
    }
  }

  ghost predicate Effects(g: Progress, k: set<Route>, r: set<Route>, log: seq<Call>) {
    Honest(g.calls) && k == Reached(g.k0, g.calls) && r == Applied(g.r0, g.calls) && log == g.base + g.calls
  }

  ghost predicate Asked(g: Progress, defined: set<Route>, unknown: set<Route>, k: set<Route>, r: set<Route>, log: seq<Call>) {
    && Effects(g, k, r, log)
    && Adds(g.calls) == g.wanted - defined && Deletes(g.calls) == {}
    && unknown == defined - g.wanted
  }

  ghost predicate Done(g: Progress, defined: set<Route>, rest: set<Route>, k: set<Route>, r: set<Route>, log: seq<Call>) {
    && Effects(g, k, r, log)
    && Adds(g.calls) == g.wanted - defined && Deletes(g.calls) == defined - g.wanted - rest
    && rest <= defined - g.wanted
  }

  lemma NothingAsked(g: Progress, defined: set<Route>)
    requires g.calls == [] && g.wanted == {}
    ensures Asked(g, defined, defined, g.k0, g.r0, g.base)
  {
  }

  lemma EffectsMore(g: Progress, k: set<Route>, r: set<Route>, log: seq<Call>, call: Call)
    requires Effects(g, k, r, log) && (call.ok ==> call.took)
    ensures Effects(g.(calls := g.calls + [call]), Reached(k, [call]), Applied(r, [call]), log + [call])
  {
    hide Applied, Adds, Deletes, AckedAdds, AckedDeletes, Reached, Honest;
    TakenOfOne(g.calls, call);
    CallsOfOne(g.calls, call);
    AppliedOne(call);
  }

  lemma AskedMore(g: Progress, defined: set<Route>, unknown: set<Route>, k: set<Route>, r: set<Route>, log: seq<Call>, call: Call)
    requires Asked(g, defined, unknown, k, r, log) && call.AddCall? && call.route !in defined && (call.ok ==> call.took)
    ensures Asked(g.(calls := g.calls + [call], wanted := g.wanted + {call.route}), defined, unknown,
                  Reached(k, [call]), Applied(r, [call]), log + [call])
  {
    hide Applied, Reached, Honest, Adds, Deletes;
    EffectsMore(g, k, r, log, call);
    CallsOfOne(g.calls, call);
  }

  lemma AskedAll(g: Progress, defined: set<Route>, unknown: set<Route>, k: set<Route>, r: set<Route>, log: seq<Call>)
    requires Asked(g, defined, unknown, k, r, log)
    ensures Done(g, defined, unknown, k, r, log)
  {
  }

  lemma DoneMore(g: Progress, defined: set<Route>, rest: set<Route>, k: set<Route>, r: set<Route>, log: seq<Call>, call: Call)
    requires Done(g, defined, rest, k, r, log) && call.DeleteCall? && call.route in rest && (call.ok ==> call.took)
    ensures Done(g.(calls := g.calls + [call]), defined, rest - {call.route}, Reached(k, [call]), Applied(r, [call]), log + [call])
  {
    hide Applied, Reached, Honest, Adds, Deletes;
    EffectsMore(g, k, r, log, call);
    CallsOfOne(g.calls, call);
  }

  lemma LiveEarlier(contents: map<Key, DNSRecord>, extra: int, t1: int, t2: int)
    requires t1 <= t2
    ensures forall ip :: Live(contents, ip, extra, t2) ==> Live(contents, ip, extra, t1)
  {
  }

  lemma FoundNone(contents: map<Key, DNSRecord>, extra: int, now: int)
    ensures FoundLive({}, {}, contents, extra, now, now)
  {
  }

  lemma FoundMore(live: set<Route>, seen: set<Route>, contents: map<Key, DNSRecord>, extra: int, start: int, before: int,
                  now: int, r: Route, isLive: bool)
    requires FoundLive(live, seen, contents, extra, start, before) && start <= before <= now
    requires isLive ==> Live(contents, r.addr, extra, before)
    requires Live(contents, r.addr, extra, now) ==> isLive
    requires r !in seen
    ensures FoundLive(if isLive then live + {r} else live, seen + {r}, contents, extra, start, now)
  {
    hide Live;
    LiveEarlier(contents, extra, start, before);
    LiveEarlier(contents, extra, before, now);
  }

  lemma StaticMore(table: int, fixed: map<string, seq<IPv4>>, ifaces: set<string>, iface: string)
    requires iface in ifaces && ifaces <= fixed.Keys
    ensures StaticRoutes(table, fixed - (ifaces - {iface}))
         == StaticRoutes(table, fixed - ifaces) + set j | 0 <= j < |fixed[iface]| :: Route(table, iface, fixed[iface][j])
  {
    var less, all := fixed - ifaces, fixed - (ifaces - {iface});
    var more := set j | 0 <= j < |fixed[iface]| :: Route(table, iface, fixed[iface][j]);
    assert forall f :: f in all <==> f in less || f == iface;
    assert forall f :: f in less ==> less[f] == all[f];
    forall r | r in StaticRoutes(table, all)
      ensures r in StaticRoutes(table, less) + more
    {
      var f, i :| f in all && 0 <= i < |all[f]| && r == Route(table, f, all[f][i]);
      assert f in less || f == iface;
    }
    forall r | r in StaticRoutes(table, less) + more
      ensures r in StaticRoutes(table, all)
    {
      if r in more {
        var j :| 0 <= j < |fixed[iface]| && r == Route(table, iface, fixed[iface][j]);
        assert iface in all && all[iface][j] == r.addr;
      } else {
        var f, i :| f in less && 0 <= i < |less[f]| && r == Route(table, f, less[f][i]);
        assert f in all && all[f][i] == r.addr;
      }
    }
  }

  lemma AppliedOne(c: Call)
    ensures forall s :: Applied(s, [c]) == if !c.ok then s else if c.AddCall? then s + {c.route} else s - {c.route}
    ensures forall s :: Reached(s, [c]) == if !c.took then s else if c.AddCall? then s + {c.route} else s - {c.route}
  {
    CallsOfOne([], c);
    TakenOfOne([], c);
    assert [] + [c] == [c] && Taken([]) == [];
  }
}
