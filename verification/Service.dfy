/** What the DNS service does with an answer to an address query (dns-server/internal/service.go):
    follow the aliases, keep the addresses, and ask for their routes. */
module Service {
  import opened Basics
  import opened Addresses
  import opened Clocks
  import opened Messages
  import opened Hosts
  import opened Store
  import opened Chains
  import opened Routes

  /** The entry of the query history. */
  datatype DNSQuery = DNSQuery(time: int, domain: string, ttl: uint32, ips: seq<IPv4>, routed: set<string>)

  /** The store after the addresses of a domain have been recorded until `expires`. */
  function Recorded(contents: map<Key, DNSRecord>, domain: string, ips: seq<IPv4>, expires: int): map<Key, DNSRecord> {
    contents + map ip | ip in ips :: Key(domain, ip) := DNSRecord(Key(domain, ip), Some(expires))
  }

  /** Each of the addresses has a record of the domain with the new expiry, and nothing else changes. */
  lemma RecordedExactly(contents: map<Key, DNSRecord>, domain: string, ips: seq<IPv4>, expires: int, k: Key)
    ensures var after := Recorded(contents, domain, ips, expires);
            if k.domain == domain && k.ip in ips then k in after && after[k].key == k && after[k].expires == Some(expires)
            else (k in after <==> k in contents) && (k in after ==> after[k] == contents[k])
  {
    if k.domain == domain && k.ip in ips {
      assert k == Key(domain, k.ip);
    }
  }

  /** Byte order of addresses. */
  function Rank(a: IPv4): nat {
    (((a.b0 * 256 + a.b1) * 256 + a.b2) * 256 + a.b3) * 256 + a.prefix
  }

  function Bytes(a: IPv4): (b: seq<int>)
    ensures |b| == 5
  {
    [a.b0, a.b1, a.b2, a.b3, a.prefix]
  }

  /** At the first byte in which the addresses differ, `a` has the smaller one. */
  ghost predicate BytesBefore(a: IPv4, b: IPv4) {
    exists d :: 0 <= d < 5 && Bytes(a)[d] < Bytes(b)[d] && forall e :: 0 <= e < d ==> Bytes(a)[e] == Bytes(b)[e]
  }

  lemma RankIsByteOrder(a: IPv4, b: IPv4)
    ensures Rank(a) < Rank(b) <==> BytesBefore(a, b)
  {
    var x, y := Bytes(a), Bytes(b);
    if x[0] != y[0] {
      assert x[0] < y[0] ==> BytesBefore(a, b);
    } else if x[1] != y[1] {
      assert x[1] < y[1] ==> BytesBefore(a, b);
    } else if x[2] != y[2] {
      assert x[2] < y[2] ==> BytesBefore(a, b);
    } else if x[3] != y[3] {
      assert x[3] < y[3] ==> BytesBefore(a, b);
    } else if x[4] != y[4] {
      assert x[4] < y[4] ==> BytesBefore(a, b);
    }
  }

  ghost predicate Ascending(ips: seq<IPv4>) {
    |ips| <= 1 || (Rank(ips[0]) <= Rank(ips[1]) && Ascending(ips[1..]))
  }

  function Insert(ip: IPv4, ips: seq<IPv4>): (r: seq<IPv4>)
    ensures multiset(r) == multiset{ip} + multiset(ips)
  {
    if ips == [] || Rank(ip) <= Rank(ips[0]) then [ip] + ips
    else
      assert ips == [ips[0]] + ips[1..];
      [ips[0]] + Insert(ip, ips[1..])
  }

  lemma {:induction false} InsertAscending(ip: IPv4, ips: seq<IPv4>)
    requires Ascending(ips)
    ensures Ascending(Insert(ip, ips))
  {
    if ips == [] || Rank(ip) <= Rank(ips[0]) {
      assert ([ip] + ips)[1..] == ips;
    } else {
      InsertAscending(ip, ips[1..]);
      assert ([ips[0]] + Insert(ip, ips[1..]))[1..] == Insert(ip, ips[1..]);
    }
  }

  /** The addresses in byte order. */
  function Sorted(ips: seq<IPv4>): (r: seq<IPv4>)
    ensures multiset(r) == multiset(ips)
  {
    if ips == [] then []
    else
      assert ips == [ips[0]] + ips[1..];
      Insert(ips[0], Sorted(ips[1..]))
  }

  lemma {:induction false} SortedByRank(ips: seq<IPv4>)
    ensures Ascending(Sorted(ips))
  {
    if ips != [] {
      SortedByRank(ips[1..]);
      InsertAscending(ips[0], Sorted(ips[1..]));
    }
  }

  lemma {:induction false} AscendingPairs(ips: seq<IPv4>, i: nat, j: nat)
    requires Ascending(ips) && i < j < |ips|
    ensures Rank(ips[i]) <= Rank(ips[j])
  {
    hide Rank;
    if i > 0 {
      AscendingPairs(ips[1..], i - 1, j - 1);
    } else if j > 1 {
      AscendingPairs(ips[1..], 0, j - 1);
    }
  }

  /** No address comes after one that is larger byte by byte. */
  lemma SortedAscending(ips: seq<IPv4>, i: nat, j: nat)
    requires i < j < |Sorted(ips)|
    ensures !BytesBefore(Sorted(ips)[j], Sorted(ips)[i])
  {
    hide Sorted, Rank, BytesBefore;
    SortedByRank(ips);
    AscendingPairs(Sorted(ips), i, j);
    RankIsByteOrder(Sorted(ips)[j], Sorted(ips)[i]);
  }

  lemma SortedSame(ips: seq<IPv4>)
    ensures |Sorted(ips)| == |ips| && forall ip :: ip in Sorted(ips) <==> ip in ips
  {
    assert |multiset(Sorted(ips))| == |multiset(ips)|;
    assert forall ip :: ip in Sorted(ips) <==> ip in multiset(Sorted(ips));
    assert forall ip :: ip in ips <==> ip in multiset(ips);
  }

  /** Interfaces chosen for the names on a chain: only configured ones, and one for each name that is
      configured at all (unless the configuration uses the empty interface name). */
  ghost predicate ChosenFor(cfg: RoutingConfig, names: seq<string>, chosen: set<string>) {
    && (forall iface :: iface in chosen ==>
          iface != "" && exists i :: 0 <= i < |names| && iface in Ifaces(cfg, Normalize(names[i])))
    && (forall i :: 0 <= i < |names| ==>
          var ifaces := Ifaces(cfg, Normalize(names[i]));
          ifaces == {} || "" in ifaces || exists iface :: iface in ifaces && iface in chosen)
  }

  /** When no host is listed under two interfaces the choice is forced: the interfaces matched by any
      name on the chain. */
  lemma ChoiceIsForced(cfg: RoutingConfig, names: seq<string>, chosen: set<string>, iface: string)
    requires ChosenFor(cfg, names, chosen) && "" !in cfg.dynamic.hosts
    requires forall host, a, b :: a in Ifaces(cfg, host) && b in Ifaces(cfg, host) ==> a == b
    ensures iface in chosen <==> exists i :: 0 <= i < |names| && iface in Ifaces(cfg, Normalize(names[i]))
  {
    if i :| 0 <= i < |names| && iface in Ifaces(cfg, Normalize(names[i])) {
      var b :| b in Ifaces(cfg, Normalize(names[i])) && b in chosen;
    }
  }

  ghost function RoutesFor(table: int, ifaces: set<string>, ips: seq<IPv4>): set<Route> {
    set iface, ip | iface in ifaces && ip in ips :: Route(table, iface, ip)
  }

  /** The first loop: aliases, addresses by owner, and the least address TTL. */
  method Index(answer: seq<Record>)
    returns (aliases: map<string, Alias>, nameIPs: map<string, seq<IPv4>>, ttl: uint32)
    ensures aliases == Aliases(answer) && ttl == AddressTtl(answer)
    ensures forall n :: AddressesOf(answer, n) == if n in nameIPs then nameIPs[n] else []
  {
    aliases, nameIPs, ttl := map[], map[], MAX_TTL;
    for i := 0 to |answer|
      invariant aliases == Aliases(answer[..i]) && ttl == AddressTtl(answer[..i])
      invariant forall n :: AddressesOf(answer[..i], n) == if n in nameIPs then nameIPs[n] else []
    {
      assert answer[..i + 1][..i] == answer[..i];
      var rr := answer[i];
      match rr.data
      case A(ip) =>
        nameIPs := nameIPs[rr.name := (if rr.name in nameIPs then nameIPs[rr.name] else []) + [ip]];
        ttl := Min(ttl, rr.ttl);
      case Cname(target) =>
        aliases := aliases[rr.name := Alias(target, rr.ttl)];
      case Other =>
    }
    assert answer[..|answer|] == answer;
  }

  /** The second loop: from the asked name along the aliases. */
  method Follow(cfg: RoutingConfig, aliases: map<string, Alias>, reqName: string, ttl0: uint32)
    returns (ended: bool, last: string, ifaces: set<string>, ttl: uint32)
    ensures var chain := Walk(aliases, reqName, {});
            && ended == chain.ended
            && (ended ==> chain.names != [] && last == chain.names[|chain.names| - 1])
            && ttl == AliasTtl(aliases, chain.names, ttl0)
            && ChosenFor(cfg, chain.names, ifaces)
  {
    hide Ifaces, Walk, AliasTtl, ChosenFor, OnWay, Normalize;
    var name, visited := reqName, {};
    ghost var names: seq<string> := [];
    ended, last, ifaces, ttl := false, "", {}, ttl0;
    SetOff(cfg, aliases, reqName, ttl0);
    while !ended && name !in visited
      invariant ended ==> Walk(aliases, reqName, {}) == Chain(names, true) && names != [] && last == names[|names| - 1]
      invariant !ended ==> OnWay(aliases, reqName, names, name, visited)
      invariant ttl == AliasTtl(aliases, names, ttl0)
      invariant ChosenFor(cfg, names, ifaces)
      decreases aliases.Keys - visited, !ended
    {
      OneName(aliases, reqName, names, name, visited, ttl0);
      var iface := LookupHost(cfg, Normalize(name));
      ChosenMore(cfg, names, ifaces, name, iface);
      if iface != "" {
        ifaces := ifaces + {iface};
      }
      names := names + [name];
      if name in aliases {
        visited := visited + {name};
        ttl := Min(ttl, aliases[name].ttl);
        name := aliases[name].target;
      } else {
        last := name;
        ended := true;
      }
    }
    if !ended {
      RanInCircle(aliases, reqName, names, name, visited);
    }
  }

  /** The walk from the asked name has visited `names` and goes on at `name`. */
  ghost predicate OnWay(aliases: map<string, Alias>, reqName: string, names: seq<string>, name: string, visited: set<string>) {
    var rest := Walk(aliases, name, visited);
    Walk(aliases, reqName, {}) == Chain(names + rest.names, rest.ended)
  }

  lemma SetOff(cfg: RoutingConfig, aliases: map<string, Alias>, reqName: string, ttl: uint32)
    ensures OnWay(aliases, reqName, [], reqName, {}) && AliasTtl(aliases, [], ttl) == ttl && ChosenFor(cfg, [], {})
  {
  }

  lemma OneName(aliases: map<string, Alias>, reqName: string, names: seq<string>, name: string, visited: set<string>, ttl: uint32)
    requires OnWay(aliases, reqName, names, name, visited) && name !in visited
    ensures AliasTtl(aliases, names + [name], ttl)
         == if name in aliases then Min(AliasTtl(aliases, names, ttl), aliases[name].ttl) else AliasTtl(aliases, names, ttl)
    ensures if name in aliases then OnWay(aliases, reqName, names + [name], aliases[name].target, visited + {name})
            else Walk(aliases, reqName, {}) == Chain(names + [name], true)
  {
    assert (names + [name])[..|names|] == names;
    if name in aliases {
      var rest := Walk(aliases, aliases[name].target, visited + {name});
      assert names + ([name] + rest.names) == names + [name] + rest.names;
    }
  }

  lemma RanInCircle(aliases: map<string, Alias>, reqName: string, names: seq<string>, name: string, visited: set<string>)
    requires OnWay(aliases, reqName, names, name, visited) && name in visited
    ensures Walk(aliases, reqName, {}) == Chain(names, false)
  {
    assert names + [] == names;
  }

  lemma ChosenMore(cfg: RoutingConfig, names: seq<string>, chosen: set<string>, name: string, iface: string)
    requires ChosenFor(cfg, names, chosen)
    requires if Ifaces(cfg, Normalize(name)) == {} then iface == "" else iface in Ifaces(cfg, Normalize(name))
    ensures ChosenFor(cfg, names + [name], if iface == "" then chosen else chosen + {iface})
  {
    hide Ifaces, Normalize;
    var all, chosen' := names + [name], if iface == "" then chosen else chosen + {iface};
    assert all[|names|] == name;
    assert forall i :: 0 <= i < |names| ==> all[i] == names[i];
    forall f | f in chosen'
      ensures f != "" && exists i :: 0 <= i < |all| && f in Ifaces(cfg, Normalize(all[i]))
    {
      if f in chosen {
        var i :| 0 <= i < |names| && f in Ifaces(cfg, Normalize(names[i]));
        assert f in Ifaces(cfg, Normalize(all[i]));
      } else {
        assert f in Ifaces(cfg, Normalize(all[|names|]));
      }
    }
  }

  /** The whole processing of an answer. Nothing happens when the chain selects no address; otherwise
      every selected address is recorded under the asked domain until the least TTL (at least one
      second) has passed, and the agent is asked exactly for the routes not already believed. */
  method ProcessTypeAResponse(ctl: IPRouteController, resp: Message)
    returns (query: Option<DNSQuery>, ghost calls: seq<Call>)
    requires ctl.Valid() && resp.question != []
    modifies ctl`routes, ctl.agent, ctl.clock, ctl.store
    ensures ctl.Valid() && old(ctl.clock.now) <= ctl.clock.now
    ensures ctl.agent.calls == old(ctl.agent.calls) + calls
    ensures Honest(calls) && ctl.agent.table == Reached(old(ctl.agent.table), calls) && ctl.routes == Applied(old(ctl.routes), calls)
    ensures query.None? <==> Selected(resp.answer, resp.question[0].name) == []
    ensures query.None? ==> calls == [] && ctl.store.contents == old(ctl.store.contents)
    ensures query.Some? ==>
              var name, q := resp.question[0].name, query.value;
              && q.domain == Normalize(name)
              && q.ips == Sorted(Selected(resp.answer, name))
              && q.ttl == Max(ChainTtl(resp.answer, name), 1)
              && old(ctl.clock.now) <= q.time <= ctl.clock.now
              && ChosenFor(ctl.cfg, ChainOf(resp.answer, name).names, q.routed)
              && ctl.store.contents == Recorded(old(ctl.store.contents), q.domain, q.ips, q.time + q.ttl * SECOND)
              && Adds(calls) == RoutesFor(ctl.tableId, q.routed, q.ips) - old(ctl.routes)
              && Deletes(calls) == {}
    ensures query.Some? ==>
              var name, domain := resp.question[0].name, query.value.domain;
              && domain <= name && (forall i :: |domain| <= i < |name| ==> name[i] == '.')
              && (domain == "" || domain[|domain| - 1] != '.')
  {
    hide Normalize;
    hide Sorted, Aliases, AddressesOf, AddressTtl, Walk, AliasTtl, ChosenFor, Applied, Adds, Deletes, Recorded, RoutesFor;
    var reqName := resp.question[0].name;
    NormalizeTrims(reqName);
    var aliases, nameIPs, ttl := Index(resp.answer);
    var ended, last, ifaces;
    ended, last, ifaces, ttl := Follow(ctl.cfg, aliases, reqName, ttl);
    var ips := if ended && last in nameIPs then nameIPs[last] else [];
    assert ips == Selected(resp.answer, reqName);
    calls, query := [], None;
    NothingAppliedYet();
    if |ips| > 0 {
      var now := ctl.clock.Read();
      var q := DNSQuery(now, Normalize(reqName), Max(ttl, 1), Sorted(ips), ifaces);
      calls := Record(ctl, q);
      query := Some(q);
    }
  }

  lemma NothingAppliedYet()
    ensures Honest([]) && forall s :: Applied(s, []) == s && Reached(s, []) == s
  {
  }

  lemma RecordedNone(contents: map<Key, DNSRecord>, domain: string, expires: int)
    ensures Recorded(contents, domain, [], expires) == contents
  {
  }

  lemma RecordedMore(contents: map<Key, DNSRecord>, domain: string, ips: seq<IPv4>, i: nat, expires: int)
    requires i < |ips|
    ensures Recorded(contents, domain, ips[..i + 1], expires)
         == Recorded(contents, domain, ips[..i], expires)[Key(domain, ips[i]) := DNSRecord(Key(domain, ips[i]), Some(expires))]
  {
    assert forall ip :: ip in ips[..i + 1] <==> ip in ips[..i] || ip == ips[i];
  }

  lemma RoutesForNone(table: int, ifaces: set<string>)
    ensures RoutesFor(table, ifaces, []) == {}
  {
  }

  lemma RoutesMore(table: int, ifaces: set<string>, ips: seq<IPv4>, i: nat)
    requires i < |ips|
    ensures RoutesFor(table, ifaces, ips[..i + 1])
         == RoutesFor(table, ifaces, ips[..i]) + set iface | iface in ifaces :: Route(table, iface, ips[i])
  {
    assert ips[..i + 1] == ips[..i] + [ips[i]];
  }

  /** Wanted routes have been asked for unless they were believed from the start. */
  ghost predicate Asking(g: Progress, k: set<Route>, r: set<Route>, log: seq<Call>) {
    && Effects(g, k, r, log)
    && Adds(g.calls) == g.wanted - g.r0 && Deletes(g.calls) == {}
  }

  lemma AskingStarts(g: Progress)
    requires g.calls == [] && g.wanted == {}
    ensures Asking(g, g.k0, g.r0, g.base)
  {
  }

  lemma AskingMore(g: Progress, k: set<Route>, r: set<Route>, log: seq<Call>, route: Route, more: seq<Call>)
    requires Asking(g, k, r, log)
    requires if route in r then more == [] else |more| == 1 && more[0].AddCall? && more[0].route == route
    requires Honest(more)
    ensures Asking(g.(calls := g.calls + more, wanted := g.wanted + {route}), Reached(k, more), Applied(r, more), log + more)
  {
    hide Adds, Deletes, AckedAdds, AckedDeletes, Applied, Reached;
    NothingAppliedYet();
    AppliedExactly(g.r0, g.calls);
    AckedAreCalls(g.calls);
    if route in r {
      assert g.calls + more == g.calls && log + more == log;
    } else {
      assert more == [more[0]];
      EffectsMore(g, k, r, log, more[0]);
      CallsOfOne(g.calls, more[0]);
    }
  }

  method RequestAll(ctl: IPRouteController, ifaces: set<string>, ip: IPv4, ghost g: Progress) returns (ghost g': Progress)
    requires ctl.Valid() && Asking(g, ctl.agent.table, ctl.routes, ctl.agent.calls)
    modifies ctl`routes, ctl.agent
    ensures ctl.Valid() && g.Same(g') && Asking(g', ctl.agent.table, ctl.routes, ctl.agent.calls)
    ensures g'.wanted == g.wanted + set iface | iface in ifaces :: Route(ctl.tableId, iface, ip)
  {
    hide Asking, Applied;
    g' := g;
    var rest := ifaces;
    while rest != {}
      invariant ctl.Valid() && rest <= ifaces && g.Same(g') && Asking(g', ctl.agent.table, ctl.routes, ctl.agent.calls)
      invariant g'.wanted == g.wanted + set iface | iface in ifaces - rest :: Route(ctl.tableId, iface, ip)
      decreases rest
    {
      var iface :| iface in rest;
      ghost var k, r, log := ctl.agent.table, ctl.routes, ctl.agent.calls;
      ghost var more := ctl.AddRoute(iface, ip);
      AskingMore(g', k, r, log, Route(ctl.tableId, iface, ip), more);
      g' := g'.(calls := g'.calls + more, wanted := g'.wanted + {Route(ctl.tableId, iface, ip)});
      assert ifaces - (rest - {iface}) == ifaces - rest + {iface};
      rest := rest - {iface};
    }
    assert ifaces - rest == ifaces;
  }

  /** The last loop: record each address and ask for its routes. */
  method Record(ctl: IPRouteController, q: DNSQuery) returns (ghost calls: seq<Call>)
    requires ctl.Valid()
    modifies ctl`routes, ctl.agent, ctl.store
    ensures ctl.Valid() && ctl.agent.calls == old(ctl.agent.calls) + calls
    ensures Honest(calls) && ctl.agent.table == Reached(old(ctl.agent.table), calls) && ctl.routes == Applied(old(ctl.routes), calls)
    ensures ctl.store.contents == Recorded(old(ctl.store.contents), q.domain, q.ips, q.time + q.ttl * SECOND)
    ensures Adds(calls) == RoutesFor(ctl.tableId, q.routed, q.ips) - old(ctl.routes)
    ensures Deletes(calls) == {}
  {
    hide Applied, Adds, Deletes, Recorded, RoutesFor, Asking;
    ghost var g := Progress(ctl.agent.table, ctl.routes, {}, ctl.agent.calls, []);
    AskingStarts(g);
    assert RoutesFor(ctl.tableId, q.routed, []) == {} by {
      RoutesForNone(ctl.tableId, q.routed);
    }
    RecordedNone(ctl.store.contents, q.domain, q.time + q.ttl * SECOND);
    for i := 0 to |q.ips|
      invariant ctl.Valid() && Asking(g, ctl.agent.table, ctl.routes, ctl.agent.calls)
      invariant g.k0 == old(ctl.agent.table) && g.r0 == old(ctl.routes) && g.base == old(ctl.agent.calls)
      invariant g.wanted == RoutesFor(ctl.tableId, q.routed, q.ips[..i])
      invariant ctl.store.contents == Recorded(old(ctl.store.contents), q.domain, q.ips[..i], q.time + q.ttl * SECOND)
    {
      var ip := q.ips[i];
      ctl.store.Add(DNSRecord(Key(q.domain, ip), Some(q.time + q.ttl * SECOND)));
      RecordedMore(old(ctl.store.contents), q.domain, q.ips, i, q.time + q.ttl * SECOND);
      g := RequestAll(ctl, q.routed, ip, g);
      RoutesMore(ctl.tableId, q.routed, q.ips, i);
    }
    assert q.ips[..|q.ips|] == q.ips;
    AskingDone(g, ctl.agent.table, ctl.routes, ctl.agent.calls);
    calls := g.calls;
  }

  lemma AskingDone(g: Progress, k: set<Route>, r: set<Route>, log: seq<Call>)
    requires Asking(g, k, r, log)
    ensures Effects(g, k, r, log) && Adds(g.calls) == g.wanted - g.r0 && Deletes(g.calls) == {}
  {
  }
}
