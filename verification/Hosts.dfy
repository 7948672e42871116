/** Routing configuration and host matching (dns-server/internal/config.go). */
module Hosts {
  import opened Addresses

  type HostList = seq<string>

  datatype RuleConfig = RuleConfig(table: int, iif: string, priority: int)

  datatype DynamicConfig = DynamicConfig(routeTimeout: int, hosts: map<string, HostList>, staticRoutes: map<string, seq<IPv4>>)

  datatype RoutingConfig = RoutingConfig(rule: RuleConfig, dynamic: DynamicConfig)

  predicate HasSuffix(s: string, t: string) {
    |t| <= |s| && s[|s| - |t|..] == t
  }

  /** The string test of the Go code. */
  predicate Matches(host: string, h: string) {
    host == h || HasSuffix(host, "." + h)
  }

  predicate ListMatches(hosts: HostList, host: string) {
    exists i :: 0 <= i < |hosts| && Matches(host, hosts[i])
  }

  method LookupInList(hosts: HostList, host: string) returns (found: bool)
    ensures found <==> ListMatches(hosts, host)
  {
    for i := 0 to |hosts|
      invariant forall j :: 0 <= j < i ==> !Matches(host, hosts[j])
    {
      if Matches(host, hosts[i]) {
        return true;
      }
    }
    return false;
  }

  /** The interfaces configured for a host. */
  ghost function Ifaces(cfg: RoutingConfig, host: string): set<string> {
    set iface | iface in cfg.dynamic.hosts && ListMatches(cfg.dynamic.hosts[iface], host)
  }

  /** Go iterates over the configuration in any order, so a host listed under several interfaces may
      be given any of them. */
  method LookupHost(cfg: RoutingConfig, host: string) returns (iface: string)
    ensures if Ifaces(cfg, host) == {} then iface == "" else iface in Ifaces(cfg, host)
  {
    var rest := cfg.dynamic.hosts.Keys;
    while rest != {}
      invariant rest <= cfg.dynamic.hosts.Keys
      invariant forall i :: i in Ifaces(cfg, host) ==> i in rest
      decreases rest
    {
      iface :| iface in rest;
      var found := LookupInList(cfg.dynamic.hosts[iface], host);
      if found {
        assert iface in Ifaces(cfg, host);
        return;
      }
      rest := rest - {iface};
    }
    iface := "";
  }

  // ------------------------------------------------------------ labels

  /** The dot-separated labels of a name. */
  function Labels(s: string): (r: seq<string>)
    ensures |r| > 0
    decreases |s|
  {
    if s == "" then [""]
    else
      var r := Labels(s[1..]);
      if s[0] == '.' then [""] + r else [[s[0]] + r[0]] + r[1..]
  }

  function Join(labels: seq<string>): string {
    if labels == [] then ""
    else if |labels| == 1 then labels[0]
    else labels[0] + "." + Join(labels[1..])
  }

  predicate IsSuffix(a: seq<string>, b: seq<string>) {
    |a| <= |b| && b[|b| - |a|..] == a
  }

  lemma {:induction false} LabelsConcat(p: string, s: string)
    ensures Labels(p + "." + s) == Labels(p) + Labels(s)
    decreases |p|
  {
    var t := p + "." + s;
    if p == "" {
      assert t[1..] == s;
    } else {
      assert t[1..] == p[1..] + "." + s;
      LabelsConcat(p[1..], s);
    }
  }

  lemma {:induction false} JoinLabels(s: string)
    ensures Join(Labels(s)) == s
    decreases |s|
  {
    if s != "" {
      JoinLabels(s[1..]);
      var r := Labels(s[1..]);
      assert s == [s[0]] + s[1..];
      if s[0] == '.' {
        assert ([""] + r)[1..] == r;
      } else if |r| > 1 {
        assert ([[s[0]] + r[0]] + r[1..])[1..] == r[1..];
        assert [s[0]] + (r[0] + "." + Join(r[1..])) == [s[0]] + r[0] + "." + Join(r[1..]);
      }
    }
  }

  lemma {:induction false} JoinConcat(a: seq<string>, b: seq<string>)
    requires a != [] && b != []
    ensures Join(a + b) == Join(a) + "." + Join(b)
  {
    assert (a + b)[1..] == a[1..] + b;
    if |a| > 1 {
      JoinConcat(a[1..], b);
      assert a[0] + "." + (Join(a[1..]) + "." + Join(b)) == a[0] + "." + Join(a[1..]) + "." + Join(b);
    } else {
      assert a[1..] == [];
      assert [] + b == b;
    }
  }

  /** The string test holds exactly when the configured name's labels are the last labels of the
      host: matching never cuts a label in two. */
  lemma MatchesIsLabelSuffix(host: string, h: string)
    ensures Matches(host, h) <==> IsSuffix(Labels(h), Labels(host))
  {
    hide Labels;
    if HasSuffix(host, "." + h) {
      var p := host[..|host| - |h| - 1];
      assert host == p + "." + h;
      LabelsConcat(p, h);
    }
    if IsSuffix(Labels(h), Labels(host)) {
      SuffixMatches(host, h);
    }
  }

  lemma SuffixMatches(host: string, h: string)
    requires IsSuffix(Labels(h), Labels(host))
    ensures Matches(host, h)
  {
    hide Labels, Join;
    var pre := Labels(host)[..|Labels(host)| - |Labels(h)|];
    assert Labels(host) == pre + Labels(h);
    JoinLabels(host);
    JoinLabels(h);
    if pre == [] {
      assert pre + Labels(h) == Labels(h);
    } else {
      NonEmptyLabels(h);
      JoinConcat(pre, Labels(h));
      assert host == Join(pre) + ("." + h);
    }
  }

  lemma NonEmptyLabels(h: string)
    ensures Labels(h) != []
  {
  }

  /** The labels are free of dots, and joining them with dots gives the name back. */
  lemma {:induction false} LabelsAreDotFree(s: string)
    ensures forall l :: l in Labels(s) ==> '.' !in l
    decreases |s|
  {
    if s != "" {
      LabelsAreDotFree(s[1..]);
      var r := Labels(s[1..]);
      forall l | l in Labels(s)
        ensures '.' !in l
      {
        if s[0] != '.' && l != [s[0]] + r[0] {
          assert l in r[1..];
        }
      }
    }
  }

  /** The interfaces a host may be given are those with a configured name whose labels are the last
      labels of the host. */
  lemma IfacesIff(cfg: RoutingConfig, host: string, iface: string)
    ensures iface in Ifaces(cfg, host) <==>
              iface in cfg.dynamic.hosts
              && exists i :: 0 <= i < |cfg.dynamic.hosts[iface]|
                   && var h, all := Labels(cfg.dynamic.hosts[iface][i]), Labels(host);
                      |h| <= |all| && all[|all| - |h|..] == h
  {
    hide Labels, Matches;
    if iface in cfg.dynamic.hosts {
      var hosts := cfg.dynamic.hosts[iface];
      forall i | 0 <= i < |hosts|
        ensures Matches(host, hosts[i]) <==> IsSuffix(Labels(hosts[i]), Labels(host))
      {
        MatchesIsLabelSuffix(host, hosts[i]);
      }
    }
  }

  /** A subdomain matches, a longer label does not. */
  lemma MatchExamples()
    ensures Matches("www.example.com", "example.com") && !Matches("myexample.com", "example.com")
  {
    assert "www.example.com"[3..] == "." + "example.com";
  }

  // ------------------------------------------------------------ names

  /** Drops the trailing dots of a name. */
  function Normalize(name: string): string {
    if name != "" && name[|name| - 1] == '.' then Normalize(name[..|name| - 1]) else name
  }

  /** What is left is the longest beginning of the name that does not end in a dot. */
  lemma {:induction false} NormalizeTrims(name: string)
    ensures Normalize(name) <= name
    ensures forall i :: |Normalize(name)| <= i < |name| ==> name[i] == '.'
    ensures Normalize(name) == "" || Normalize(name)[|Normalize(name)| - 1] != '.'
  {
    if name != "" && name[|name| - 1] == '.' {
      NormalizeTrims(name[..|name| - 1]);
    }
  }

  /** Fully qualified: exactly one trailing dot. */
  predicate Qualified(name: string) {
    name == Normalize(name) + "."
  }

  lemma NormalizeInjective(a: string, b: string)
    requires Qualified(a) && Qualified(b) && Normalize(a) == Normalize(b)
    ensures a == b
  {
  }
}
