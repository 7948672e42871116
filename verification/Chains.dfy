/** Following CNAME records from the asked name to the addresses at the end of the chain
    (section 3.6.2 of RFC 1034), as dns-server/internal/service.go does it. */
module Chains {
  import opened Basics
  import opened Addresses
  import opened Messages

  datatype Alias = Alias(target: string, ttl: uint32)

  const MAX_TTL: uint32 := TWO_32 - 1

  /** CNAME records by owner; the last record of an owner counts. */
  function Aliases(answer: seq<Record>): map<string, Alias> {
    if answer == [] then map[]
    else
      var rest, r := Aliases(answer[..|answer| - 1]), answer[|answer| - 1];
      if r.data.Cname? then rest[r.name := Alias(r.data.target, r.ttl)] else rest
  }

  /** The addresses of a name, in answer order. */
  function AddressesOf(answer: seq<Record>, name: string): seq<IPv4> {
    if answer == [] then []
    else
      var rest, r := AddressesOf(answer[..|answer| - 1], name), answer[|answer| - 1];
      if r.data.A? && r.name == name then rest + [r.data.ip] else rest
  }

  /** Exactly the address records of the name, each once and in their order. */
  lemma {:induction false} AddressesInOrder(answer: seq<Record>, name: string) returns (at: seq<nat>)
    ensures |at| == |AddressesOf(answer, name)| && forall i, j :: 0 <= i < j < |at| ==> at[i] < at[j]
    ensures forall k :: 0 <= k < |at| ==> at[k] < |answer| && answer[at[k]] == Record(name, A(AddressesOf(answer, name)[k]), answer[at[k]].ttl)
    ensures forall i: nat :: i < |answer| && answer[i].name == name && answer[i].data.A? ==> i in at
  {
    at := [];
    if answer != [] {
      var init, last := answer[..|answer| - 1], answer[|answer| - 1];
      at := AddressesInOrder(init, name);
      if last.data.A? && last.name == name {
        at := at + [|answer| - 1];
      }
    }
  }

  /** The smallest TTL of all address records, on the chain or not. */
  function AddressTtl(answer: seq<Record>): uint32 {
    if answer == [] then MAX_TTL
    else
      var rest, r := AddressTtl(answer[..|answer| - 1]), answer[|answer| - 1];
      if r.data.A? then Min(rest, r.ttl) else rest
  }

  /** The names visited, and whether the last of them is the end of the chain (otherwise the chain
      runs into itself). */
  datatype Chain = Chain(names: seq<string>, ended: bool)

  function Walk(aliases: map<string, Alias>, name: string, visited: set<string>): Chain
    decreases aliases.Keys - visited
  {
    if name in visited then Chain([], false)
    else if name in aliases then
      var rest := Walk(aliases, aliases[name].target, visited + {name});
      Chain([name] + rest.names, rest.ended)
    else Chain([name], true)
  }

  /** The smaller of a TTL and the TTLs of the aliases among the given names. */
  function AliasTtl(aliases: map<string, Alias>, names: seq<string>, ttl: uint32): uint32 {
    if names == [] then ttl
    else
      var rest, last := AliasTtl(aliases, names[..|names| - 1], ttl), names[|names| - 1];
      if last in aliases then Min(rest, aliases[last].ttl) else rest
  }

  function ChainOf(answer: seq<Record>, name: string): Chain {
    Walk(Aliases(answer), name, {})
  }

  /** The addresses an answer selects for a name. */
  function Selected(answer: seq<Record>, name: string): seq<IPv4> {
    var chain := ChainOf(answer, name);
    if chain.ended && chain.names != [] then AddressesOf(answer, chain.names[|chain.names| - 1]) else []
  }

  function ChainTtl(answer: seq<Record>, name: string): uint32 {
    AliasTtl(Aliases(answer), ChainOf(answer, name).names, AddressTtl(answer))
  }

  // ------------------------------------------------------------ the chain as a path

  /** An independent reading: consecutive names are linked by aliases. */
  ghost predicate IsPath(aliases: map<string, Alias>, path: seq<string>) {
    && path != []
    && forall i :: 0 <= i < |path| - 1 ==> path[i] in aliases && aliases[path[i]].target == path[i + 1]
  }

  /** A path that stops at a name without an alias. */
  ghost predicate IsFullPath(aliases: map<string, Alias>, name: string, path: seq<string>) {
    IsPath(aliases, path) && path[0] == name && path[|path| - 1] !in aliases
  }

  lemma PathTail(aliases: map<string, Alias>, path: seq<string>)
    requires IsPath(aliases, path) && |path| > 1
    ensures IsPath(aliases, path[1..])
  {
  }

  /** Aliases are deterministic, so from a name there is at most one full path. */
  lemma {:induction false} FullPathUnique(aliases: map<string, Alias>, name: string, p: seq<string>, q: seq<string>)
    requires IsFullPath(aliases, name, p) && IsFullPath(aliases, name, q)
    ensures p == q
    decreases |p|
  {
    if |p| == 1 || |q| == 1 {
      assert |p| == |q| == 1;
    } else {
      PathTail(aliases, p);
      PathTail(aliases, q);
      FullPathUnique(aliases, p[1], p[1..], q[1..]);
      assert p == [p[0]] + p[1..] && q == [q[0]] + q[1..];
    }
  }

  /** A full path never returns to its first name. */
  lemma FullPathLeaves(aliases: map<string, Alias>, name: string, path: seq<string>, i: nat)
    requires IsFullPath(aliases, name, path) && 0 < i < |path|
    ensures path[i] != name
  {
    if path[i] == name {
      assert IsFullPath(aliases, name, path[i..]);
      FullPathUnique(aliases, name, path, path[i..]);
      assert false;
    }
  }

  /** The walk takes any full path that avoids the names already visited. */
  lemma {:induction false} WalkTakesPath(aliases: map<string, Alias>, name: string, visited: set<string>, path: seq<string>)
    requires IsFullPath(aliases, name, path)
    requires forall i :: 0 <= i < |path| ==> path[i] !in visited
    ensures Walk(aliases, name, visited) == Chain(path, true)
    decreases |path|
  {
    assert path[0] == name;
    if |path| > 1 {
      PathTail(aliases, path);
      forall i | 0 <= i < |path[1..]|
        ensures path[1..][i] !in visited + {name}
      {
        FullPathLeaves(aliases, name, path, i + 1);
      }
      WalkTakesPath(aliases, path[1], visited + {name}, path[1..]);
    }
  }

  /** Every walk is a path of distinct unvisited names, all but the end of it alias owners. */
  lemma {:induction false} WalkIsPath(aliases: map<string, Alias>, name: string, visited: set<string>)
    ensures var chain := Walk(aliases, name, visited);
            && (chain.ended ==> IsFullPath(aliases, name, chain.names))
            && (forall i :: 0 <= i < |chain.names| ==> chain.names[i] !in visited)
            && (forall i :: 0 <= i < |chain.names| - (if chain.ended then 1 else 0) ==> chain.names[i] in aliases)
            && (forall i, j :: 0 <= i < j < |chain.names| ==> chain.names[i] != chain.names[j])
    decreases aliases.Keys - visited
  {
    if name !in visited && name in aliases {
      WalkIsPath(aliases, aliases[name].target, visited + {name});
      var chain, rest := Walk(aliases, name, visited), Walk(aliases, aliases[name].target, visited + {name});
      assert forall i :: 0 < i < |chain.names| ==> chain.names[i] == rest.names[i - 1];
    }
  }

  /** The walk ends at a name exactly when following aliases from the asked name gets to a name
      without one; otherwise the aliases run in a circle and no address is selected. */
  lemma WalkEndsIff(aliases: map<string, Alias>, name: string)
    ensures Walk(aliases, name, {}).ended <==> exists path :: IsFullPath(aliases, name, path)
    ensures forall path :: IsFullPath(aliases, name, path) ==> Walk(aliases, name, {}).names == path
  {
    WalkIsPath(aliases, name, {});
    forall path | IsFullPath(aliases, name, path)
      ensures Walk(aliases, name, {}) == Chain(path, true)
    {
      WalkTakesPath(aliases, name, {}, path);
    }
  }

  /** Some address record of the answer gives the name this address. */
  ghost predicate Owns(answer: seq<Record>, name: string, ip: IPv4) {
    exists i :: 0 <= i < |answer| && answer[i].data == A(ip) && answer[i].name == name
  }

  lemma {:induction false} AddressesMember(answer: seq<Record>, name: string, ip: IPv4)
    ensures ip in AddressesOf(answer, name) <==> Owns(answer, name, ip)
  {
    if answer != [] {
      var init, last := answer[..|answer| - 1], answer[|answer| - 1];
      AddressesMember(init, name, ip);
      assert forall i :: 0 <= i < |init| ==> answer[i] == init[i];
      assert answer[|answer| - 1] == last;
    }
  }

  /** What is selected, without the walk: the addresses owned by the name at the end of the full path
      from the asked name, and nothing when there is no such path. */
  lemma SelectedIff(answer: seq<Record>, name: string, ip: IPv4)
    ensures ip in Selected(answer, name)
       <==> exists path :: IsFullPath(Aliases(answer), name, path) && Owns(answer, path[|path| - 1], ip)
  {
    hide Aliases, Walk, AddressesOf, Owns;
    WalkEndsIff(Aliases(answer), name);
    var names := ChainOf(answer, name).names;
    if ChainOf(answer, name).ended {
      WalkIsPath(Aliases(answer), name, {});
      AddressesMember(answer, names[|names| - 1], ip);
    }
  }

  lemma {:induction false} DistinctBound(names: seq<string>, owners: set<string>)
    requires forall i :: 0 <= i < |names| ==> names[i] in owners
    requires forall i, j :: 0 <= i < j < |names| ==> names[i] != names[j]
    ensures |names| <= |owners|
  {
    if names != [] {
      DistinctBound(names[1..], owners - {names[0]});
    }
  }

  /** The loop looks at no more names than there are alias owners, plus one. */
  lemma WalkLength(aliases: map<string, Alias>, name: string)
    ensures |Walk(aliases, name, {}).names| <= |aliases| + 1
  {
    WalkIsPath(aliases, name, {});
    var chain := Walk(aliases, name, {});
    var owners := if chain.ended then chain.names[..|chain.names| - 1] else chain.names;
    DistinctBound(owners, aliases.Keys);
  }

  // ------------------------------------------------------------ the TTL

  lemma {:induction false} AddressTtlIsLeast(answer: seq<Record>)
    ensures forall i :: 0 <= i < |answer| && answer[i].data.A? ==> AddressTtl(answer) <= answer[i].ttl
    ensures AddressTtl(answer) == MAX_TTL || exists i :: 0 <= i < |answer| && answer[i].data.A? && answer[i].ttl == AddressTtl(answer)
  {
    if answer != [] {
      var init, last := answer[..|answer| - 1], answer[|answer| - 1];
      AddressTtlIsLeast(init);
      assert answer == init + [last];
      assert answer[|answer| - 1] == last && forall i :: 0 <= i < |init| ==> answer[i] == init[i];
    }
  }

  lemma {:induction false} AliasTtlIsLeast(aliases: map<string, Alias>, names: seq<string>, ttl: uint32)
    ensures AliasTtl(aliases, names, ttl) <= ttl
    ensures forall i :: 0 <= i < |names| && names[i] in aliases ==> AliasTtl(aliases, names, ttl) <= aliases[names[i]].ttl
    ensures AliasTtl(aliases, names, ttl) == ttl
         || exists i :: 0 <= i < |names| && names[i] in aliases && aliases[names[i]].ttl == AliasTtl(aliases, names, ttl)
  {
    if names != [] {
      var init, last := names[..|names| - 1], names[|names| - 1];
      AliasTtlIsLeast(aliases, init, ttl);
      assert forall i :: 0 <= i < |init| ==> names[i] == init[i];
      if AliasTtl(aliases, names, ttl) != AliasTtl(aliases, init, ttl) {
        assert names[|names| - 1] in aliases;
      } else if AliasTtl(aliases, names, ttl) != ttl {
        var i :| 0 <= i < |init| && init[i] in aliases && aliases[init[i]].ttl == AliasTtl(aliases, init, ttl);
        assert names[i] in aliases;
      }
    }
  }

  /** Every alias comes from a record of the answer. */
  lemma {:induction false} AliasFromRecord(answer: seq<Record>, name: string) returns (i: nat)
    requires name in Aliases(answer)
    ensures i < |answer| && answer[i].name == name
    ensures answer[i].data == Cname(Aliases(answer)[name].target) && answer[i].ttl == Aliases(answer)[name].ttl
  {
    var last := answer[|answer| - 1];
    if last.data.Cname? && last.name == name {
      i := |answer| - 1;
    } else {
      i := AliasFromRecord(answer[..|answer| - 1], name);
    }
  }

  /** Of several alias records of an owner the last one is kept. */
  lemma {:induction false} AliasIsLast(answer: seq<Record>, i: nat)
    requires i < |answer| && answer[i].data.Cname?
    requires forall j :: i < j < |answer| && answer[j].data.Cname? ==> answer[j].name != answer[i].name
    ensures answer[i].name in Aliases(answer)
    ensures Aliases(answer)[answer[i].name] == Alias(answer[i].data.target, answer[i].ttl)
  {
    if i < |answer| - 1 {
      AliasIsLast(answer[..|answer| - 1], i);
    }
  }

  /** The TTL kept for a resolved name is the least of the TTLs of all address records and of the
      aliases on the chain: none of these is smaller and it is one of them (or the largest TTL when
      there are none). */
  lemma ChainTtlIsLeast(answer: seq<Record>, name: string)
    ensures var ttl, aliases, names := ChainTtl(answer, name), Aliases(answer), ChainOf(answer, name).names;
            && (forall i :: 0 <= i < |answer| && answer[i].data.A? ==> ttl <= answer[i].ttl)
            && (forall k :: 0 <= k < |names| && names[k] in aliases ==> ttl <= aliases[names[k]].ttl)
            && (ttl == MAX_TTL
                || (exists i :: 0 <= i < |answer| && answer[i].data.A? && answer[i].ttl == ttl)
                || (exists k :: 0 <= k < |names| && names[k] in aliases && aliases[names[k]].ttl == ttl))
  {
    hide Aliases, ChainOf, AliasTtl, AddressTtl;
    AddressTtlIsLeast(answer);
    AliasTtlIsLeast(Aliases(answer), ChainOf(answer, name).names, AddressTtl(answer));
  }

  /** In particular it is the TTL of some record, unless it is the largest TTL. */
  lemma ChainTtlFromRecord(answer: seq<Record>, name: string)
    ensures ChainTtl(answer, name) == MAX_TTL || exists i :: 0 <= i < |answer| && answer[i].ttl == ChainTtl(answer, name)
  {
    hide Aliases, ChainOf, ChainTtl;
    ChainTtlIsLeast(answer, name);
    var names := ChainOf(answer, name).names;
    if k :| 0 <= k < |names| && names[k] in Aliases(answer) && Aliases(answer)[names[k]].ttl == ChainTtl(answer, name) {
      var i := AliasFromRecord(answer, names[k]);
    }
  }
}
