/** main.go, sendEmail in direct mode: recipients grouped by domain, one attempt per group. */
module Outbound {
  import opened Text

  datatype Attempt = Attempt(domain: string, addrs: seq<string>)

  datatype Result = Sent | NoRecipients | BadAddress(addr: string) | GroupFailed(domain: string)

  /** The mail exchanger lookup and one SMTP conversation, both of which may fail. */
  datatype Net = Net(resolves: string -> bool, sends: (string, seq<string>) -> bool)

  predicate Succeeds(net: Net, a: Attempt) {
    net.resolves(a.domain) && net.sends(a.domain, a.addrs)
  }

  /** The domain of a recipient: what follows its first '@'. */
  function DomainOf(addr: string): Option<string> {
    Cut(addr, "@").1
  }

  predicate WellFormed(rcpts: seq<string>) {
    forall i | 0 <= i < |rcpts| :: DomainOf(rcpts[i]).Some?
  }

  /** The recipients of one domain, every occurrence, in order. */
  function Group(rcpts: seq<string>, d: string): seq<string> {
    if rcpts == [] then []
    else
      var n := |rcpts| - 1;
      Group(rcpts[..n], d) + (if DomainOf(rcpts[n]) == Some(d) then [rcpts[n]] else [])
  }

  function Domains(rcpts: seq<string>): set<string> {
    set i | 0 <= i < |rcpts| && DomainOf(rcpts[i]).Some? :: DomainOf(rcpts[i]).value
  }

  lemma GroupStep(rcpts: seq<string>, i: nat, d: string)
    requires i < |rcpts|
    ensures Group(rcpts[..i + 1], d) == Group(rcpts[..i], d) + (if DomainOf(rcpts[i]) == Some(d) then [rcpts[i]] else [])
  {
    assert rcpts[..i + 1][..i] == rcpts[..i];
  }

  lemma DomainsStep(rcpts: seq<string>, i: nat)
    requires i < |rcpts| && DomainOf(rcpts[i]).Some?
    ensures Domains(rcpts[..i + 1]) == Domains(rcpts[..i]) + {DomainOf(rcpts[i]).value}
  {
  }

  lemma {:induction false} GroupEmpty(rcpts: seq<string>, d: string)
    ensures d !in Domains(rcpts) ==> Group(rcpts, d) == []
  {
    if rcpts != [] && d !in Domains(rcpts) {
      var n := |rcpts| - 1;
      forall j | 0 <= j < n && DomainOf(rcpts[..n][j]).Some? ensures DomainOf(rcpts[..n][j]).value != d {
        assert rcpts[..n][j] == rcpts[j];
      }
      GroupEmpty(rcpts[..n], d);
    }
  }

  function Grouped(rcpts: seq<string>): map<string, seq<string>> {
    map d | d in Domains(rcpts) :: Group(rcpts, d)
  }

  function Joined(byDomain: map<string, seq<string>>, d: string, to: string): map<string, seq<string>> {
    byDomain[d := (if d in byDomain then byDomain[d] else []) + [to]]
  }

  lemma GroupedStep(rcpts: seq<string>, i: nat)
    requires i < |rcpts| && DomainOf(rcpts[i]).Some?
    ensures Grouped(rcpts[..i + 1]) == Joined(Grouped(rcpts[..i]), DomainOf(rcpts[i]).value, rcpts[i])
  {
    var d := DomainOf(rcpts[i]).value;
    var before, after := Grouped(rcpts[..i]), Grouped(rcpts[..i + 1]);
    DomainsStep(rcpts, i);
    assert after.Keys == before.Keys + {d};
    forall e | e in after ensures after[e] == Joined(before, d, rcpts[i])[e] {
      GroupStep(rcpts, i, e);
      GroupEmpty(rcpts[..i], e);
    }
  }

  /** The first malformed address. */
  ghost predicate FirstBad(rcpts: seq<string>, addr: string) {
    exists i | 0 <= i < |rcpts| ::
      rcpts[i] == addr && DomainOf(addr).None? && forall j | 0 <= j < i :: DomainOf(rcpts[j]).Some?
  }

  /** The byDomain loop: stops at the first malformed address. */
  method GroupByDomain(rcpts: seq<string>) returns (bad: Option<string>, byDomain: map<string, seq<string>>)
    ensures bad.None? <==> WellFormed(rcpts)
    ensures bad.Some? ==> FirstBad(rcpts, bad.value)
    ensures bad.None? ==> byDomain == Grouped(rcpts)
  {
    byDomain := map[];
    assert Domains(rcpts[..0]) == {};
    for i := 0 to |rcpts|
      invariant forall j | 0 <= j < i :: DomainOf(rcpts[j]).Some?
      invariant byDomain == Grouped(rcpts[..i])
    {
      var d := DomainOf(rcpts[i]);
      if d.None? {
        return Some(rcpts[i]), map[];
      }
      GroupedStep(rcpts, i);
      var group := if d.value in byDomain then byDomain[d.value] else [];
      byDomain := byDomain[d.value := group + [rcpts[i]]];
    }
    assert rcpts[..|rcpts|] == rcpts;
    bad := None;
  }

  /** Distinct domains, each attempted with exactly its group. */
  ghost predicate Groups(rcpts: seq<string>, attempts: seq<Attempt>, domains: set<string>) {
    (forall i | 0 <= i < |attempts| :: attempts[i].addrs == Group(rcpts, attempts[i].domain)) &&
    (forall i, j | 0 <= i < j < |attempts| :: attempts[i].domain != attempts[j].domain) &&
    domains == set i | 0 <= i < |attempts| :: attempts[i].domain
  }

  /** Direct mode. The attempts made are returned in the order of the map iteration. */
  method SendDirect(rcpts: seq<string>, net: Net) returns (r: Result, attempts: seq<Attempt>)
    ensures r.NoRecipients? <==> rcpts == []
    ensures r.BadAddress? <==> !WellFormed(rcpts)
    ensures r.BadAddress? ==> FirstBad(rcpts, r.addr)
    ensures r.NoRecipients? || r.BadAddress? ==> attempts == []
    ensures !r.NoRecipients? && !r.BadAddress? ==> Groups(rcpts, attempts, Domains(rcpts))
    ensures r.Sent? || r.GroupFailed? ==> (r.Sent? <==> forall i | 0 <= i < |attempts| :: Succeeds(net, attempts[i]))
    ensures r.GroupFailed? ==> FirstFailure(net, attempts, r.domain)
  {
    attempts := [];
    if |rcpts| == 0 {
      return NoRecipients, [];
    }
    var bad, byDomain := GroupByDomain(rcpts);
    if bad.Some? {
      return BadAddress(bad.value), [];
    }
    var first: Option<string> := None;
    var todo := byDomain.Keys;
    while todo != {}
      invariant todo <= byDomain.Keys && Groups(rcpts, attempts, byDomain.Keys - todo)
      invariant first.None? <==> forall i | 0 <= i < |attempts| :: Succeeds(net, attempts[i])
      invariant first.Some? ==> FirstFailure(net, attempts, first.value)
      decreases todo
    {
      var d :| d in todo;
      ghost var before := attempts;
      GroupsSnoc(rcpts, attempts, byDomain.Keys - todo, d);
      todo := todo - {d};
      attempts := attempts + [Attempt(d, byDomain[d])];
      assert byDomain.Keys - todo == (byDomain.Keys - (todo + {d})) + {d};
      FirstSnoc(net, before, Attempt(d, byDomain[d]), first);
      if !net.resolves(d) || !net.sends(d, byDomain[d]) {
        if first.None? {
          first := Some(d);
        }
      }
    }
    r := match first case None => Sent case Some(d) => GroupFailed(d);
  }

  lemma GroupsSnoc(rcpts: seq<string>, attempts: seq<Attempt>, domains: set<string>, d: string)
    requires Groups(rcpts, attempts, domains) && d !in domains
    ensures Groups(rcpts, attempts + [Attempt(d, Group(rcpts, d))], domains + {d})
  {
    var more := attempts + [Attempt(d, Group(rcpts, d))];
    forall i | 0 <= i < |attempts| ensures attempts[i].domain in domains {}
    forall e ensures e in domains + {d} <==> e in (set i | 0 <= i < |more| :: more[i].domain) {
      if e in domains {
        var i :| 0 <= i < |attempts| && attempts[i].domain == e;
        assert more[i].domain == e;
      }
      if e == d {
        assert more[|attempts|].domain == e;
      }
    }
  }

  ghost predicate FirstFailure(net: Net, attempts: seq<Attempt>, d: string) {
    exists i :: 0 <= i < |attempts| && attempts[i].domain == d &&
                !Succeeds(net, attempts[i]) && forall j | 0 <= j < i :: Succeeds(net, attempts[j])
  }

  lemma FirstSnoc(net: Net, attempts: seq<Attempt>, a: Attempt, first: Option<string>)
    requires first.None? <==> forall i | 0 <= i < |attempts| :: Succeeds(net, attempts[i])
    requires first.Some? ==> FirstFailure(net, attempts, first.value)
    ensures first.Some? ==> FirstFailure(net, attempts + [a], first.value)
    ensures first.None? && !Succeeds(net, a) ==> FirstFailure(net, attempts + [a], a.domain)
    ensures (forall i | 0 <= i < |attempts + [a]| :: Succeeds(net, (attempts + [a])[i])) <==> first.None? && Succeeds(net, a)
  {
    var more := attempts + [a];
    assert more[|attempts|] == a;
    forall i | 0 <= i < |attempts| ensures more[i] == attempts[i] {}
    if first.Some? {
      var i :| 0 <= i < |attempts| && attempts[i].domain == first.value &&
                !Succeeds(net, attempts[i]) && forall j | 0 <= j < i :: Succeeds(net, attempts[j]);
      assert !Succeeds(net, more[i]);
    }
  }

  // ----- the partition -------------------------------------------------------

  function Flat(attempts: seq<Attempt>): seq<string> {
    if attempts == [] then [] else Flat(attempts[..|attempts| - 1]) + attempts[|attempts| - 1].addrs
  }

  /** The recipients of a set of domains. */
  function Selected(rcpts: seq<string>, domains: set<string>): multiset<string> {
    if rcpts == [] then multiset{}
    else
      var n := |rcpts| - 1;
      Selected(rcpts[..n], domains) +
        (if DomainOf(rcpts[n]).Some? && DomainOf(rcpts[n]).value in domains then multiset{rcpts[n]} else multiset{})
  }

  lemma {:induction false} SelectedAdd(rcpts: seq<string>, domains: set<string>, d: string)
    requires d !in domains
    ensures Selected(rcpts, domains + {d}) == Selected(rcpts, domains) + multiset(Group(rcpts, d))
  {
    if rcpts != [] {
      SelectedAdd(rcpts[..|rcpts| - 1], domains, d);
    }
  }

  lemma {:induction false} SelectedNone(rcpts: seq<string>)
    ensures Selected(rcpts, {}) == multiset{}
  {
    if rcpts != [] {
      SelectedNone(rcpts[..|rcpts| - 1]);
    }
  }

  lemma {:induction false} SelectedAll(rcpts: seq<string>, domains: set<string>)
    requires WellFormed(rcpts) && forall i | 0 <= i < |rcpts| :: DomainOf(rcpts[i]).value in domains
    ensures Selected(rcpts, domains) == multiset(rcpts)
  {
    if rcpts != [] {
      var n := |rcpts| - 1;
      forall i | 0 <= i < n ensures rcpts[..n][i] == rcpts[i] {}
      SelectedAll(rcpts[..n], domains);
      assert rcpts == rcpts[..n] + [rcpts[n]];
    }
  }

  lemma GroupsFront(rcpts: seq<string>, attempts: seq<Attempt>, domains: set<string>) returns (before: set<string>)
    requires attempts != [] && Groups(rcpts, attempts, domains)
    ensures var n := |attempts| - 1;
            Groups(rcpts, attempts[..n], before) && attempts[n].domain !in before &&
            domains == before + {attempts[n].domain} && attempts[n].addrs == Group(rcpts, attempts[n].domain)
  {
    var n := |attempts| - 1;
    var front := attempts[..n];
    before := set i | 0 <= i < n :: attempts[i].domain;
    forall d ensures d in before <==> d in (set i | 0 <= i < |front| :: front[i].domain) {
      if d in before {
        var i :| 0 <= i < n && attempts[i].domain == d;
        assert front[i].domain == d;
      }
    }
  }

  lemma {:induction false} FlatSelected(rcpts: seq<string>, attempts: seq<Attempt>, domains: set<string>)
    requires Groups(rcpts, attempts, domains)
    ensures multiset(Flat(attempts)) == Selected(rcpts, domains)
    decreases |attempts|
  {
    if attempts == [] {
      assert domains == {};
      SelectedNone(rcpts);
    } else {
      var n := |attempts| - 1;
      var before := GroupsFront(rcpts, attempts, domains);
      hide Groups, Group, Selected;
      FlatSelected(rcpts, attempts[..n], before);
      SelectedAdd(rcpts, before, attempts[n].domain);
    }
  }

  /** The groups partition the recipients: together the attempts hold every occurrence of every recipient exactly once. */
  lemma Partition(rcpts: seq<string>, attempts: seq<Attempt>)
    requires WellFormed(rcpts) && Groups(rcpts, attempts, Domains(rcpts))
    ensures multiset(Flat(attempts)) == multiset(rcpts)
  {
    FlatSelected(rcpts, attempts, Domains(rcpts));
    SelectedAll(rcpts, Domains(rcpts));
  }
}
