/** The store of resolved addresses with its two indexes (dns-server/internal/dns_store.go) and
    record expiry (dns-server/internal/types.go). */
module Store {
  import opened Basics
  import opened Addresses
  import opened Clocks

  datatype Key = Key(domain: string, ip: IPv4)

  /** `expires` is None for Go's zero time: such a record never expires. */
  datatype DNSRecord = DNSRecord(key: Key, expires: Option<int>)

  predicate ExpiredAt(r: DNSRecord, extra: int, now: int) {
    r.expires.Some? && now > r.expires.value + extra
  }

  lemma ExpiredLater(r: DNSRecord, extra: int, t1: int, t2: int)
    requires t1 <= t2
    ensures ExpiredAt(r, extra, t1) ==> ExpiredAt(r, extra, t2)
  {
  }

  // ------------------------------------------------------------ multi-maps

  predicate Has<K, L, V>(m: map<K, map<L, V>>, k: K, l: L) {
    k in m && l in m[k]
  }

  ghost predicate NoEmpty<K, L, V>(m: map<K, map<L, V>>) {
    forall k :: k in m ==> m[k] != map[]
  }

  function Set<K, L, V>(m: map<K, map<L, V>>, k: K, l: L, v: V): map<K, map<L, V>> {
    if k in m then m[k := m[k][l := v]] else m[k := map[l := v]]
  }

  function Remove<K, L, V>(m: map<K, map<L, V>>, k: K, l: L): map<K, map<L, V>> {
    if Has(m, k, l) then
      if |m[k]| == 1 then m - {k} else m[k := m[k] - {l}]
    else m
  }

  lemma SetSpec<K, L, V>(m: map<K, map<L, V>>, k: K, l: L, v: V)
    requires NoEmpty(m)
    ensures var s := Set(m, k, l, v);
            && NoEmpty(s)
            && Has(s, k, l) && s[k][l] == v
            && forall a, b :: a != k || b != l ==> (Has(s, a, b) <==> Has(m, a, b)) && (Has(m, a, b) ==> s[a][b] == m[a][b])
  {
    assert l in Set(m, k, l, v)[k];
  }

  lemma OnlyKey<L, V>(m: map<L, V>, l: L)
    requires l in m && |m| == 1
    ensures m.Keys == {l}
  {
    assert |m.Keys - {l}| == 0;
  }

  /** Removing keeps every other entry and never leaves an empty inner map behind. */
  lemma RemoveSpec<K, L, V>(m: map<K, map<L, V>>, k: K, l: L)
    requires NoEmpty(m)
    ensures var s := Remove(m, k, l);
            && NoEmpty(s)
            && !Has(s, k, l)
            && forall a, b :: a != k || b != l ==> (Has(s, a, b) <==> Has(m, a, b)) && (Has(m, a, b) ==> s[a][b] == m[a][b])
  {
    if Has(m, k, l) {
      if |m[k]| == 1 {
        OnlyKey(m[k], l);
      } else {
        assert |m[k] - {l}| >= 1 by {
          assert (m[k] - {l}).Keys == m[k].Keys - {l};
          assert |m[k].Keys| == |m[k]|;
        }
      }
    }
  }

  // ------------------------------------------------------------ agreement of the indexes

  /** Both indexes hold exactly the same records, each under its own domain and address, and have no
      empty inner map. */
  ghost predicate Agree(byDomain: map<string, map<IPv4, DNSRecord>>, byIP: map<IPv4, map<string, DNSRecord>>,
                        contents: map<Key, DNSRecord>)
  {
    && NoEmpty(byDomain) && NoEmpty(byIP)
    && (forall d, ip :: Has(byDomain, d, ip) <==> Key(d, ip) in contents)
    && (forall d, ip :: Has(byIP, ip, d) <==> Key(d, ip) in contents)
    && (forall d, ip :: Has(byDomain, d, ip) ==> byDomain[d][ip] == contents[Key(d, ip)])
    && (forall d, ip :: Has(byIP, ip, d) ==> byIP[ip][d] == contents[Key(d, ip)])
    && (forall k :: k in contents ==> contents[k].key == k)
  }

  lemma AgreeAfterAdd(byDomain: map<string, map<IPv4, DNSRecord>>, byIP: map<IPv4, map<string, DNSRecord>>,
                      contents: map<Key, DNSRecord>, rec: DNSRecord)
    requires Agree(byDomain, byIP, contents)
    ensures Agree(Set(byDomain, rec.key.domain, rec.key.ip, rec), Set(byIP, rec.key.ip, rec.key.domain, rec),
                  contents[rec.key := rec])
  {
    hide Set, Has;
    SetSpec(byDomain, rec.key.domain, rec.key.ip, rec);
    SetSpec(byIP, rec.key.ip, rec.key.domain, rec);
  }

  lemma AgreeAfterRemove(byDomain: map<string, map<IPv4, DNSRecord>>, byIP: map<IPv4, map<string, DNSRecord>>,
                         contents: map<Key, DNSRecord>, key: Key)
    requires Agree(byDomain, byIP, contents)
    ensures Agree(Remove(byDomain, key.domain, key.ip), Remove(byIP, key.ip, key.domain), contents - {key})
  {
    hide Remove, Has;
    RemoveSpec(byDomain, key.domain, key.ip);
    RemoveSpec(byIP, key.ip, key.domain);
  }

  lemma NestedEqual<K, L, V>(m: map<K, map<L, V>>, n: map<K, map<L, V>>)
    requires NoEmpty(m) && NoEmpty(n)
    requires forall k, l :: Has(m, k, l) <==> Has(n, k, l)
    requires forall k, l :: Has(m, k, l) && Has(n, k, l) ==> m[k][l] == n[k][l]
    ensures m == n
  {
    forall k | k in m
      ensures k in n && m[k] == n[k]
    {
      var l :| l in m[k];
      assert Has(m, k, l) && Has(n, k, l);
      assert forall x :: x in m[k] <==> Has(m, k, x);
      assert forall x :: x in n[k] <==> Has(n, k, x);
    }
    forall k | k in n
      ensures k in m
    {
      var l :| l in n[k];
      assert Has(n, k, l) && Has(m, k, l);
    }
  }

  /** The records alone determine both indexes. */
  lemma ContentsDetermineIndexes(byDomain: map<string, map<IPv4, DNSRecord>>, byIP: map<IPv4, map<string, DNSRecord>>,
                                 byDomain': map<string, map<IPv4, DNSRecord>>, byIP': map<IPv4, map<string, DNSRecord>>,
                                 contents: map<Key, DNSRecord>)
    requires Agree(byDomain, byIP, contents) && Agree(byDomain', byIP', contents)
    ensures byDomain == byDomain' && byIP == byIP'
  {
    NestedEqual(byDomain, byDomain');
    NestedEqual(byIP, byIP');
  }

  /** What loading a list of records leaves in the store. */
  function Filled(records: seq<DNSRecord>): map<Key, DNSRecord> {
    if records == [] then map[]
    else Filled(records[..|records| - 1])[records[|records| - 1].key := records[|records| - 1]]
  }

  ghost predicate Lists(records: seq<DNSRecord>, contents: map<Key, DNSRecord>) {
    forall r :: r in records <==> r.key in contents && contents[r.key] == r
  }

  /** The last record listed for a pair is the one that stays. */
  lemma {:induction false} FilledIsLast(records: seq<DNSRecord>, i: nat)
    requires i < |records| && forall j :: i < j < |records| ==> records[j].key != records[i].key
    ensures records[i].key in Filled(records) && Filled(records)[records[i].key] == records[i]
  {
    if i < |records| - 1 {
      FilledIsLast(records[..|records| - 1], i);
    }
  }

  lemma {:induction false} FilledMember(records: seq<DNSRecord>, k: Key)
    ensures k in Filled(records) ==> Filled(records)[k] in records && Filled(records)[k].key == k
    ensures (exists r :: r in records && r.key == k) ==> k in Filled(records)
  {
    if records != [] {
      FilledMember(records[..|records| - 1], k);
      assert records == records[..|records| - 1] + [records[|records| - 1]];
    }
  }

  /** Saving a store and filling a store from the saved records, in whatever order they were listed,
      restores the same records (and so, by the lemma above, the same indexes). */
  lemma FillRestores(records: seq<DNSRecord>, contents: map<Key, DNSRecord>)
    requires Lists(records, contents)
    requires forall k :: k in contents ==> contents[k].key == k
    ensures Filled(records) == contents
  {
    forall k: Key
      ensures k in Filled(records) <==> k in contents
      ensures k in contents ==> Filled(records)[k] == contents[k]
    {
      FilledMember(records, k);
      if k in contents {
        assert contents[k] in records;
      }
    }
  }

  ghost predicate Distinct(records: seq<DNSRecord>) {
    forall i, j :: 0 <= i < j < |records| ==> records[i] != records[j]
  }

  // ------------------------------------------------------------ the store

  /** What one pass over the records with a moving clock may leave: nothing that had expired when it
      started is kept, everything still unexpired at its end is, and survivors are untouched. */
  ghost predicate Swept(before: map<Key, DNSRecord>, after: map<Key, DNSRecord>, extra: int, start: int, end: int) {
    && (forall k :: k in after ==> k in before && after[k] == before[k])
    && (forall k :: k in after ==> !ExpiredAt(before[k], extra, start))
    && (forall k :: k in before && !ExpiredAt(before[k], extra, end) ==> k in after)
  }

  class DNSStore {
    var byDomain: map<string, map<IPv4, DNSRecord>>
    var byIP: map<IPv4, map<string, DNSRecord>>
    ghost var contents: map<Key, DNSRecord>

    ghost predicate Valid()
      reads this
    {
      Agree(byDomain, byIP, contents)
    }

    constructor ()
      ensures Valid() && contents == map[]
    {
      byDomain, byIP, contents := map[], map[], map[];
    }

    method Add(rec: DNSRecord)
      requires Valid()
      modifies this
      ensures Valid() && contents == old(contents)[rec.key := rec]
    {
      hide Agree;
      AgreeAfterAdd(byDomain, byIP, contents, rec);
      byDomain := Set(byDomain, rec.key.domain, rec.key.ip, rec);
      byIP := Set(byIP, rec.key.ip, rec.key.domain, rec);
      contents := contents[rec.key := rec];
    }

    method RemoveRecord(rec: DNSRecord)
      requires Valid()
      modifies this
      ensures Valid() && contents == old(contents) - {rec.key}
      ensures forall d :: d in old(byDomain) && d != rec.key.domain ==> d in byDomain
    {
      hide Agree;
      AgreeAfterRemove(byDomain, byIP, contents, rec.key);
      byDomain := Remove(byDomain, rec.key.domain, rec.key.ip);
      byIP := Remove(byIP, rec.key.ip, rec.key.domain);
      contents := contents - {rec.key};
    }

    lemma OwnKeys()
      requires Valid()
      ensures forall k :: k in contents ==> contents[k].key == k
    {
    }

    method Fill(records: seq<DNSRecord>)
      requires Valid()
      modifies this
      ensures Valid() && contents == Filled(records)
    {
      byDomain, byIP, contents := map[], map[], map[];
      for i := 0 to |records|
        invariant Valid() && contents == Filled(records[..i])
      {
        assert records[..i + 1][..i] == records[..i];
        Add(records[i]);
      }
      assert records[..|records|] == records;
    }

    /** The records of an address, in any order. */
    method LookupIP(ip: IPv4) returns (res: seq<DNSRecord>)
      requires Valid()
      ensures Distinct(res)
      ensures forall r :: r in res <==> r.key in contents && contents[r.key] == r && r.key.ip == ip
    {
      res := [];
      if ip in byIP {
        var rest := byIP[ip].Keys;
        while rest != {}
          invariant rest <= byIP[ip].Keys && Distinct(res)
          invariant forall r :: r in res <==> r.key in contents && contents[r.key] == r && r.key.ip == ip && r.key.domain !in rest
          decreases rest
        {
          var d :| d in rest;
          assert Has(byIP, ip, d);
          assert byIP[ip][d] !in res;
          res := res + [byIP[ip][d]];
          rest := rest - {d};
        }
      }
    }

    /** All records, in any order. */
    method Records() returns (res: seq<DNSRecord>)
      requires Valid()
      ensures Lists(res, contents) && Distinct(res)
    {
      res := [];
      var domains := byDomain.Keys;
      while domains != {}
        invariant domains <= byDomain.Keys && Distinct(res)
        invariant forall r :: r in res <==> r.key in contents && contents[r.key] == r && r.key.domain !in domains
        decreases domains
      {
        var d :| d in domains;
        var ips := byDomain[d].Keys;
        while ips != {}
          invariant ips <= byDomain[d].Keys && Distinct(res)
          invariant forall r :: r in res <==>
                      r.key in contents && contents[r.key] == r && (r.key.domain !in domains || (r.key.domain == d && r.key.ip !in ips))
          decreases ips
        {
          var ip :| ip in ips;
          assert Has(byDomain, d, ip);
          assert byDomain[d][ip] !in res;
          res := res + [byDomain[d][ip]];
          ips := ips - {ip};
        }
        domains := domains - {d};
      }
    }

    /** Removes expired records while iterating over the index it removes from; the clock is read
        again for every record. */
    method RemoveExpired(extra: int, clock: Clock)
      requires Valid()
      modifies this, clock
      ensures Valid()
      ensures old(clock.now) <= clock.now
      ensures Swept(old(contents), contents, extra, old(clock.now), clock.now)
      ensures forall k :: k in contents ==> k in old(contents) && contents[k] == old(contents)[k]
      ensures forall k :: k in contents && contents[k].expires.Some? ==> old(clock.now) <= contents[k].expires.value + extra
      ensures forall k :: k in old(contents) && old(contents)[k].expires.None? ==> k in contents
      ensures forall k :: k in old(contents) && old(contents)[k].expires.Some? && clock.now <= old(contents)[k].expires.value + extra ==>
                k in contents
    {
      hide Agree;
      ghost var start, before := clock.now, contents;
      var domains := byDomain.Keys;
      DomainsCover();
      while domains != {}
        invariant Valid() && start <= clock.now && domains <= byDomain.Keys
        invariant Sweeping(before, contents, extra, start, clock.now, domains, "", {})
        decreases domains
      {
        var d :| d in domains;
        domains := domains - {d};
        SweepDomain(d, extra, clock, before, start, domains);
      }
    }

    lemma DomainsCover()
      requires Valid()
      ensures forall k :: k in contents ==> k.domain in byDomain
    {
      forall k | k in contents
        ensures k.domain in byDomain
      {
        assert Has(byDomain, k.domain, k.ip);
      }
    }

    lemma InnerIndex(d: string)
      requires Valid() && d in byDomain
      ensures forall k :: k in contents && k.domain == d ==> k.ip in byDomain[d]
      ensures forall ip :: ip in byDomain[d] ==> Key(d, ip) in contents && contents[Key(d, ip)] == byDomain[d][ip]
      ensures forall ip :: ip in byDomain[d] ==> byDomain[d][ip].key == Key(d, ip)
    {
      assert forall ip :: ip in byDomain[d] <==> Has(byDomain, d, ip);
    }

    /** The inner loop of the sweep, over the records of one domain. */
    method SweepDomain(d: string, extra: int, clock: Clock, ghost before: map<Key, DNSRecord>, ghost start: int,
                       ghost domains: set<string>)
      requires Valid() && start <= clock.now
      requires d in byDomain && d !in domains && domains <= byDomain.Keys
      requires Sweeping(before, contents, extra, start, clock.now, domains + {d}, "", {})
      modifies this, clock
      ensures Valid() && start <= clock.now && domains <= byDomain.Keys
      ensures Sweeping(before, contents, extra, start, clock.now, domains, "", {})
    {
      hide Agree, Sweeping;
      var records := byDomain[d];
      var ips := records.Keys;
      InnerIndex(d);
      EnterDomain(before, contents, extra, start, clock.now, domains, d, ips);
      while ips != {}
        invariant Valid() && start <= clock.now && domains <= byDomain.Keys
        invariant ips <= records.Keys
        invariant forall ip :: ip in ips ==> Key(d, ip) in contents && contents[Key(d, ip)] == records[ip]
        invariant Sweeping(before, contents, extra, start, clock.now, domains, d, ips)
        decreases ips
      {
        var ip :| ip in ips;
        ghost var earlier := clock.now;
        var now := clock.Read();
        SweepStep(before, contents, extra, start, earlier, now, domains, d, ips, ip);
        if ExpiredAt(records[ip], extra, now) {
          RemoveRecord(records[ip]);
        }
        ips := ips - {ip};
      }
      LeaveDomain(before, contents, extra, start, clock.now, domains, d);
    }
  }

  /** Progress of the sweep: domains in `domains`, and addresses in `ips` of the domain `d`, are yet
      to be visited and untouched. */
  ghost predicate Sweeping(before: map<Key, DNSRecord>, after: map<Key, DNSRecord>, extra: int, start: int, now: int,
                           domains: set<string>, d: string, ips: set<IPv4>)
  {
    && (forall k :: k in after ==> k in before && after[k] == before[k])
    && (forall k :: k in before && !ExpiredAt(before[k], extra, now) ==> k in after)
    && (forall k :: k in after && ExpiredAt(before[k], extra, start) ==> k.domain in domains || (k.domain == d && k.ip in ips))
    && (forall k :: k in before && (k.domain in domains || (k.domain == d && k.ip in ips)) ==> k in after)
  }

  lemma EnterDomain(before: map<Key, DNSRecord>, after: map<Key, DNSRecord>, extra: int, start: int, now: int,
                    domains: set<string>, d: string, ips: set<IPv4>)
    requires Sweeping(before, after, extra, start, now, domains + {d}, "", {})
    requires forall k :: k in after && k.domain == d ==> k.ip in ips
    requires forall ip :: ip in ips ==> Key(d, ip) in after
    ensures Sweeping(before, after, extra, start, now, domains, d, ips)
  {
  }

  lemma LeaveDomain(before: map<Key, DNSRecord>, after: map<Key, DNSRecord>, extra: int, start: int, now: int,
                    domains: set<string>, d: string)
    requires Sweeping(before, after, extra, start, now, domains, d, {})
    ensures Sweeping(before, after, extra, start, now, domains, "", {})
  {
  }

  lemma SweepStep(before: map<Key, DNSRecord>, after: map<Key, DNSRecord>, extra: int, start: int, earlier: int, now: int,
                  domains: set<string>, d: string, ips: set<IPv4>, ip: IPv4)
    requires start <= earlier <= now && Sweeping(before, after, extra, start, earlier, domains, d, ips)
    requires d !in domains && ip in ips && Key(d, ip) in after
    ensures !ExpiredAt(after[Key(d, ip)], extra, now) ==>
              Sweeping(before, after, extra, start, now, domains, d, ips - {ip})
    ensures ExpiredAt(after[Key(d, ip)], extra, now) ==>
              Sweeping(before, after - {Key(d, ip)}, extra, start, now, domains, d, ips - {ip})
  {
  }
}
