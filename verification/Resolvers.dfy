/** The DNS cache with its stored messages (dns-server/internal/dns_cache.go) and the two resolver
    layers around it (dns-server/internal/dns_resolver.go). Messages and their records are objects
    here, because the override layer rewrites TTLs in place and the cache must not be affected. */
module Resolvers {
  import opened Basics
  import opened Clocks
  import opened Messages
  import opened CacheModel

  class Rr {
    const name: string
    const data: RData
    var ttl: uint32

    constructor (name: string, data: RData, ttl: uint32)
      ensures this.name == name && this.data == data && this.ttl == ttl
    {
      this.name, this.data, this.ttl := name, data, ttl;
    }

    function Value(): Record
      reads this
    {
      Record(name, data, ttl)
    }
  }

  function Values(answer: seq<Rr>): (r: seq<Record>)
    reads answer
    ensures |r| == |answer| && forall i :: 0 <= i < |r| ==> r[i] == answer[i].Value()
  {
    if answer == [] then [] else Values(answer[..|answer| - 1]) + [answer[|answer| - 1].Value()]
  }

  class Msg {
    var id: nat
    const question: seq<Question>
    const response: bool
    const answer: seq<Rr>

    constructor (id: nat, question: seq<Question>, response: bool, answer: seq<Rr>)
      ensures this.id == id && this.question == question && this.response == response && this.answer == answer
    {
      this.id, this.question, this.response, this.answer := id, question, response, answer;
    }

    function Value(): Message
      reads this, answer
    {
      Message(id, question, response, Values(answer))
    }

    /** The value shows every part of the message. */
    lemma ValueShows()
      ensures Value().id == id && Value().question == question && Value().response == response
      ensures |Value().answer| == |answer|
      ensures forall i :: 0 <= i < |answer| ==>
                var r := Value().answer[i]; r.name == answer[i].name && r.data == answer[i].data && r.ttl == answer[i].ttl
    {
    }

    /** A deep copy shares nothing with the original and is the same in every part. */
    method Copy() returns (m: Msg)
      ensures fresh(m) && (forall rr :: rr in m.answer ==> fresh(rr))
      ensures m.id == id && m.question == question && m.response == response && |m.answer| == |answer|
      ensures forall i :: 0 <= i < |answer| ==>
                m.answer[i].name == answer[i].name && m.answer[i].data == answer[i].data && m.answer[i].ttl == answer[i].ttl
      ensures m.Value() == Value()
    {
      var rrs: seq<Rr> := [];
      for i := 0 to |answer|
        invariant |rrs| == i && forall j :: 0 <= j < i ==> fresh(rrs[j]) && rrs[j].Value() == answer[j].Value()
      {
        var rr := new Rr(answer[i].name, answer[i].data, answer[i].ttl);
        rrs := rrs + [rr];
      }
      m := new Msg(id, question, response, rrs);
      assert Values(m.answer) == Values(answer);
    }
  }

  /** `uint32(d.Seconds())`, which Go defines only for values above -1 and below 2^32. */
  method WholeSeconds(left: int) returns (s: uint32)
    ensures 0 < left + SECOND && SecondsLeft(left) < TWO_32 ==> s == SecondsLeft(left)
  {
    if 0 < left + SECOND && SecondsLeft(left) < TWO_32 {
      s := SecondsLeft(left);
    } else {
      s :| 0 <= s < TWO_32;
    }
  }

  method SetAll(answer: seq<Rr>, ttl: uint32)
    modifies set rr | rr in answer
    ensures forall rr :: rr in answer ==> rr.ttl == ttl
    ensures Values(answer) == WithTTL(old(Values(answer)), ttl)
  {
    for i := 0 to |answer|
      invariant forall j :: 0 <= j < i ==> answer[j].ttl == ttl
    {
      answer[i].ttl := ttl;
    }
    assert Values(answer) == WithTTL(old(Values(answer)), ttl);
  }

  datatype Entry = Entry(result: Msg, expires: int) {
    /** A fresh deep copy of the stored message with one TTL for all records. */
    method Result(now: int) returns (copy: Msg, ghost ttl: uint32)
      ensures fresh(copy) && (forall rr :: rr in copy.answer ==> fresh(rr))
      ensures 1 <= ttl && copy.Value() == HitWith(result.Value(), ttl)
      ensures copy.id == result.id && copy.question == result.question && copy.response == result.response
      ensures |copy.answer| == |result.answer|
      ensures forall i :: 0 <= i < |copy.answer| ==>
                && copy.answer[i].name == result.answer[i].name && copy.answer[i].data == result.answer[i].data
                && copy.answer[i].ttl == ttl
      ensures 0 < expires - now + SECOND && SecondsLeft(expires - now) < TWO_32 ==> ttl == HitTTL(expires, now)
    {
      hide Values, WithTTL, SecondsLeft;
      copy := result.Copy();
      var seconds := WholeSeconds(expires - now);
      var t := Max(1, seconds);
      SetAll(copy.answer, t);
      ttl := t;
    }
  }

  class DNSCache {
    const w: Width
    var entries: map<Question, Entry>
    ghost var Repr: set<object>
    ghost var Model: map<Question, Stored>

    ghost predicate Holds(e: Entry)
      reads this
    {
      e.result in Repr && forall rr :: rr in e.result.answer ==> rr in Repr
    }

    /** Every stored message is the cache's own and has the value the abstract cache says. */
    ghost predicate Valid()
      reads this, Repr
    {
      && this !in Repr
      && entries.Keys == Model.Keys
      && (forall q :: q in entries ==> Holds(entries[q]))
      && (forall q :: q in entries ==> Model[q] == Stored(entries[q].result.Value(), entries[q].expires))
    }

    /** No entry outlives the largest TTL. */
    ghost predicate Within(now: int)
      reads this
    {
      forall q :: q in Model ==> Model[q].expires <= now + (TWO_32 - 1) * SECOND
    }

    constructor (w: Width)
      ensures Valid() && Model == map[] && this.w == w && Repr == {}
    {
      this.w, entries, Repr, Model := w, map[], {}, map[];
    }

    /** A hit is a fresh deep copy with one TTL for all records: the whole seconds left at a second
        reading of the clock. If by then a full second has passed since the entry expired, Go leaves
        the converted value open. */
    method Get(query: Question, clock: Clock) returns (resp: Msg?, ghost ttl: uint32, ghost at: int)
      requires Valid() && Within(clock.now) && clock !in Repr
      modifies clock
      ensures Valid()
      ensures old(clock.now) <= at <= clock.now
      ensures resp != null <==> Serves(Model, query, at)
      ensures resp != null ==>
                && fresh(resp) && (forall rr :: rr in resp.answer ==> fresh(rr))
                && 1 <= ttl && resp.Value() == HitWith(Model[query].msg, ttl)
                && resp.id == Model[query].msg.id && resp.question == Model[query].msg.question
                && resp.response == Model[query].msg.response && |resp.answer| == |Model[query].msg.answer|
                && (forall i :: 0 <= i < |resp.answer| ==>
                      && resp.answer[i].name == Model[query].msg.answer[i].name
                      && resp.answer[i].data == Model[query].msg.answer[i].data && resp.answer[i].ttl == ttl)
                && (clock.now < Model[query].expires + SECOND ==> ttl == HitTTL(Model[query].expires, clock.now))
    {
      hide Values, WithTTL, SecondsLeft;
      var now := clock.Read();
      at, ttl, resp := now, 1, null;
      if query in entries && !(now > entries[query].expires) {
        var later := clock.Read();
        SecondsFit(entries[query].expires - later);
        resp, ttl := entries[query].Result(later);
        entries[query].result.ValueShows();
      }
    }

    method Put(query: Question, result: Msg, clock: Clock) returns (ghost at: int)
      requires Valid() && clock !in Repr
      modifies this, clock
      ensures Valid() && fresh(Repr - old(Repr)) && old(Repr) <= Repr
      ensures old(clock.now) <= at == clock.now
      ensures Model == PutInto(old(Model), w, query, old(result.Value()), at)
      ensures old(Within(clock.now)) ==> Within(clock.now)
    {
      hide Values, MinTTL, Valid;
      at := clock.now;
      if |result.answer| == 0 {
        NothingToKeep(result);
        return;
      }
      var minTTL := MinUsable(result.answer);
      if minTTL < MaxInt(w) {
        MinTTLIsLeast(w, Values(result.answer));
        at := Keep(query, result, minTTL, clock);
      }
    }

    method Keep(query: Question, result: Msg, ttl: nat, clock: Clock) returns (ghost at: int)
      requires Valid() && clock !in Repr
      modifies this, clock
      ensures Valid() && fresh(Repr - old(Repr)) && old(Repr) <= Repr
      ensures old(clock.now) <= at == clock.now
      ensures Model == old(Model)[query := Stored(old(result.Value()), at + ttl * SECOND)]
    {
      hide Values, Valid;
      var copy := result.Copy();
      var now := clock.Read();
      at := now;
      Store(query, Entry(copy, now + ttl * SECOND), copy.Value());
    }

    lemma NothingToKeep(result: Msg)
      requires result.answer == []
      ensures !Cacheable(w, result.Value().answer)
    {
    }

    method MinUsable(answer: seq<Rr>) returns (minTTL: nat)
      ensures minTTL == MinTTL(w, Values(answer))
    {
      minTTL := MaxInt(w);
      ghost var values := Values(answer);
      for i := 0 to |answer|
        invariant minTTL == MinTTL(w, values[..i])
      {
        assert values[..i + 1][..i] == values[..i];
        var ttl := ToInt(w, answer[i].ttl);
        if ttl > 0 && ttl < minTTL {
          minTTL := ttl;
        }
      }
      assert values[..|values|] == values;
    }

    method Store(query: Question, e: Entry, ghost value: Message)
      requires Valid() && e.result as object != this && value == e.result.Value()
      modifies this
      ensures Valid() && Repr == old(Repr) + {e.result} + set rr | rr in e.result.answer
      ensures Model == old(Model)[query := Stored(value, e.expires)]
    {
      hide Msg.Value;
      Repr := Repr + {e.result} + set rr | rr in e.result.answer;
      entries := entries[query := e];
      Model := Model[query := Stored(value, e.expires)];
    }

    lemma ModelAgrees()
      requires Valid()
      ensures entries.Keys == Model.Keys
      ensures forall q :: q in entries ==> entries[q].expires == Model[q].expires
    {
    }

    method Drop(query: Question)
      requires Valid()
      modifies `entries, `Model
      ensures Valid() && entries.Keys == old(entries.Keys) - {query}
      ensures Model == old(Model) - {query}
    {
      hide Values;
      entries := entries - {query};
      Model := Model - {query};
    }

    /** The periodic sweep, which reads the clock again for every entry: it drops only expired
        entries and all of those that had expired when it started. */
    method RemoveExpired(clock: Clock) returns (ghost gone: set<Question>)
      requires Valid() && clock !in Repr
      modifies this, clock
      ensures Valid() && Repr == old(Repr) && old(clock.now) <= clock.now
      ensures Model == old(Model) - gone
      ensures forall q :: q in gone ==> !Serves(old(Model), q, clock.now)
      ensures forall q :: q in old(Model) && !Serves(old(Model), q, old(clock.now)) ==> q in gone
    {
      hide Values, Msg.Value, Valid;
      ModelAgrees();
      gone := {};
      var rest := entries.Keys;
      while rest != {}
        invariant Valid() && Repr == old(Repr) && rest <= entries.Keys
        invariant old(clock.now) <= clock.now
        invariant Model == old(Model) - gone
        invariant forall q :: q in gone ==> !Serves(old(Model), q, clock.now)
        invariant forall q :: q in old(Model) && q !in rest && !Serves(old(Model), q, old(clock.now)) ==> q in gone
        decreases rest
      {
        var q :| q in rest;
        var now := clock.Read();
        ModelAgrees();
        if now > entries[q].expires {
          Drop(q);
          gone := gone + {q};
        }
        rest := rest - {q};
      }
    }
  }

  predicate IsSingleA(question: seq<Question>) {
    |question| == 1 && question[0].qtype == TYPE_A
  }

  /** None of the message's records is stored in the cache. */
  ghost predicate Foreign(cache: DNSCache, m: Msg)
    reads cache
  {
    m !in cache.Repr && forall rr :: rr in m.answer ==> rr !in cache.Repr
  }

  /** The caching layer. `inner` is what the inner resolver would return, null for an error; it is
      consulted on a miss only. A hit is a copy of the stored answer under the asker's id. */
  method ResolveCached(cache: DNSCache, clock: Clock, msg: Msg, inner: Msg?)
    returns (resp: Msg?, ghost hit: bool, ghost ttl: uint32, ghost asked: int, ghost at: int)
    requires cache.Valid() && cache.Within(clock.now) && clock !in cache.Repr
    requires inner != null ==> Foreign(cache, inner)
    modifies cache, clock
    ensures cache.Valid() && cache.Within(clock.now) && fresh(cache.Repr - old(cache.Repr)) && clock !in cache.Repr
    ensures old(clock.now) <= asked <= at <= clock.now
    ensures hit <==> |msg.question| == 1 && msg.question[0].qtype == 1 && Serves(old(cache.Model), msg.question[0], asked)
    ensures hit ==>
              && resp != null && fresh(resp) && (forall rr :: rr in resp.answer ==> fresh(rr))
              && cache.Model == old(cache.Model)
    ensures hit ==>
              var stored := cache.Model[msg.question[0]].msg;
              && resp.id == msg.id && resp.question == stored.question && resp.response == stored.response
              && |resp.answer| == |stored.answer|
              && (forall i :: 0 <= i < |resp.answer| ==>
                    && resp.answer[i].name == stored.answer[i].name && resp.answer[i].data == stored.answer[i].data
                    && resp.answer[i].ttl == ttl)
    ensures hit ==>
              && resp.Value() == HitWith(cache.Model[msg.question[0]].msg, ttl).(id := msg.id)
              && 1 <= ttl
              && (clock.now < cache.Model[msg.question[0]].expires + SECOND ==>
                    ttl == HitTTL(cache.Model[msg.question[0]].expires, clock.now))
    ensures !hit ==>
              && resp == inner
              && cache.Model == if |msg.question| == 1 && msg.question[0].qtype == 1 && inner != null
                                then PutInto(old(cache.Model), cache.w, msg.question[0], old(inner.Value()), at)
                                else old(cache.Model)
    ensures resp != null ==> Foreign(cache, resp)
  {
    hide Values, HitWith, PutInto, HitTTL;
    hit, ttl, asked, at := false, 1, clock.now, clock.now;
    if IsSingleA(msg.question) {
      var query := msg.question[0];
      resp, ttl, asked := cache.Get(query, clock);
      at := clock.now;
      if resp != null {
        hit := true;
        resp.id := msg.id;
        return;
      }
      resp := inner;
      if inner != null {
        at := cache.Put(query, inner, clock);
      }
      return;
    }
    resp := inner;
  }

  function Overridden(rec: Record, limit: uint32): Record {
    if rec.data.A? then rec.(ttl := Min(rec.ttl, limit)) else rec
  }

  function OverrideAll(answer: seq<Record>, limit: uint32): (r: seq<Record>)
    ensures |r| == |answer| && forall i :: 0 <= i < |r| ==> r[i] == Overridden(answer[i], limit)
  {
    seq(|answer|, i requires 0 <= i < |answer| => Overridden(answer[i], limit))
  }

  /** Lowers the TTLs of address records in place. The same record may occur twice in an answer. */
  method Override(answer: seq<Rr>, limit: uint32)
    modifies set rr | rr in answer
    ensures forall rr :: rr in answer && rr.data.A? ==> rr.ttl <= limit && rr.ttl <= old(rr.ttl) && rr.ttl in {limit, old(rr.ttl)}
    ensures forall rr :: rr in answer && !rr.data.A? ==> rr.ttl == old(rr.ttl)
    ensures Values(answer) == OverrideAll(old(Values(answer)), limit)
  {
    for i := 0 to |answer|
      invariant forall rr :: rr in answer ==>
                  rr.Value() == if rr in answer[..i] then Overridden(old(rr.Value()), limit) else old(rr.Value())
    {
      if answer[i].data.A? {
        answer[i].ttl := Min(answer[i].ttl, limit);
      }
      assert answer[..i + 1] == answer[..i] + [answer[i]];
    }
    assert answer[..|answer|] == answer;
    assert Values(answer) == OverrideAll(old(Values(answer)), limit);
  }

  /** The override layer on top of the caching layer. Address TTLs leaving it stay within the
      override, all other records keep theirs, and although the records are rewritten in place after
      the answer went into the cache, the cache is left exactly as the caching layer made it. */
  method ResolveOverriding(cache: DNSCache, clock: Clock, limit: uint32, msg: Msg, inner: Msg?)
    returns (resp: Msg?, ghost before: seq<Record>, ghost hit: bool, ghost ttl: uint32, ghost at: int)
    requires cache.Valid() && cache.Within(clock.now) && clock !in cache.Repr
    requires inner != null ==> Foreign(cache, inner)
    modifies cache, clock, if inner != null then set rr | rr in inner.answer else {}
    ensures cache.Valid() && cache.Within(clock.now)
    ensures cache.Model ==
              if |msg.question| == 1 && msg.question[0].qtype == 1 && !hit && inner != null
              then PutInto(old(cache.Model), cache.w, msg.question[0], old(inner.Value()), at)
              else old(cache.Model)
    ensures !hit ==> resp == inner && (inner != null ==> before == old(inner.Value()).answer)
    ensures hit ==>
              && resp != null && |msg.question| == 1 && msg.question[0].qtype == 1 && msg.question[0] in cache.Model
              && 1 <= ttl && before == WithTTL(cache.Model[msg.question[0]].msg.answer, ttl)
              && resp.id == msg.id && resp.question == cache.Model[msg.question[0]].msg.question
              && resp.response == cache.Model[msg.question[0]].msg.response
    ensures resp != null ==>
              && |resp.answer| == |before|
              && forall i :: 0 <= i < |before| ==> resp.answer[i].name == before[i].name && resp.answer[i].data == before[i].data
    ensures resp != null && |msg.question| == 1 && msg.question[0].qtype == 1 && limit > 0 ==>
              && (forall i :: 0 <= i < |before| && before[i].data.A? ==>
                    && resp.answer[i].ttl <= limit && resp.answer[i].ttl <= before[i].ttl
                    && resp.answer[i].ttl in {limit, before[i].ttl})
              && (forall i :: 0 <= i < |before| && !before[i].data.A? ==> resp.answer[i].ttl == before[i].ttl)
    ensures resp != null && !(|msg.question| == 1 && msg.question[0].qtype == 1 && limit > 0) ==>
              forall i :: 0 <= i < |before| ==> resp.answer[i].ttl == before[i].ttl
    ensures resp != null ==>
              resp.Value().answer == if IsSingleA(msg.question) && limit > 0 then OverrideAll(before, limit) else before
  {
    hide Values, WithTTL, PutInto, HitTTL, OverrideAll, DNSCache.Valid, DNSCache.Within;
    ghost var asked;
    resp, hit, ttl, asked, at := ResolveCached(cache, clock, msg, inner);
    before := if resp != null then resp.Value().answer else [];
    if resp != null {
      resp.ValueShows();
      if IsSingleA(msg.question) && limit > 0 {
        Override(resp.answer, limit);
      }
    }
  }
}
