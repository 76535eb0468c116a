/** Restart recovery: which steps keep the live memory equal to what a restart would rebuild from disk. */
module RestartProof {
  import opened Text
  import opened Registry
  import opened RegistryProof
  import Paths

  ghost predicate Plain(ks: set<Key>) {
    forall k | k in ks :: '@' !in k.domain
  }

  lemma CredentialsPlain(cfg: Config, s: State)
    requires WellFormed(cfg) && Inv(cfg, s)
    ensures Plain(RegistryProof.Credentialed(cfg, s))
  {
  }

  lemma KeyForIs(ks: set<Key>, k: Key)
    requires Plain(ks) && k in ks
    ensures Email(k) in Emails(ks) && KeyFor(ks, Email(k)) == k
  {
    EmailInjective(k, KeyFor(ks, Email(k)));
  }

  lemma DirectoriesAre(ks: set<Key>)
    requires Plain(ks)
    ensures forall k | k in ks :: Email(k) in Directories(ks) && Directories(ks)[Email(k)] == k
  {
    forall k | k in ks ensures Email(k) in Directories(ks) && Directories(ks)[Email(k)] == k {
      KeyForIs(ks, k);
    }
  }

  lemma EmailsRemoved(ks: set<Key>, gone: set<Key>)
    requires Plain(ks) && Plain(gone)
    ensures Emails(ks - gone) == Emails(ks) - Emails(gone)
  {
    forall k, l | k in ks && l in gone && Email(k) == Email(l) ensures k == l {
      EmailInjective(k, l);
    }
  }

  lemma DirectoriesAdd(ks: set<Key>, k: Key)
    requires Plain(ks + {k})
    ensures Directories(ks + {k}) == Directories(ks)[Email(k) := k]
  {
    var more := ks + {k};
    DirectoriesAre(more);
    DirectoriesAre(ks);
    assert Emails(more) == Emails(ks) + {Email(k)};
    forall e | e in Emails(ks) && e != Email(k) ensures Directories(more)[e] == Directories(ks)[e] {
      var l := KeyFor(ks, e);
      assert l in more && Email(l) == e;
    }
    assert k in more;
  }

  lemma DirectoriesRemoved(ks: set<Key>, gone: set<Key>)
    requires Plain(ks) && Plain(gone)
    ensures Directories(ks - gone) == Directories(ks) - Emails(gone)
  {
    EmailsRemoved(ks, gone);
    DirectoriesAre(ks);
    DirectoriesAre(ks - gone);
    forall e | e in Emails(ks - gone) ensures Directories(ks - gone)[e] == Directories(ks)[e] {
      var l := KeyFor(ks - gone, e);
      assert l in ks && Email(l) == e;
    }
  }

  // ----- provisioning --------------------------------------------------------

  /** Will a restart register the account a provision writes? */
  predicate Recovers(cfg: Config, k: Key, r: Request) {
    Trim(r.hash) != "" && k.name != PEERS && !IsStatic(cfg, k)
  }

  lemma UnionAdd<V>(a: map<string, V>, b: map<string, V>, e: string, v: V)
    ensures a + b[e := v] == (a + b)[e := v]
  {
  }

  lemma AssembledAdd(cfg: Config, ks: set<Key>, k: Key, domains: map<string, DomainConfig>)
    requires Plain(ks + {k})
    ensures Assembled(cfg, ks + {k}, domains) == Added(Assembled(cfg, ks, domains), k)
  {
    var e := Email(k);
    DirectoriesAdd(ks, k);
    UnionAdd(BaseStores(cfg), Directories(ks), e, k);
    EmailsAdd(ks, k);
    SelvesAdd(Emails(ks), e);
    UnionAdd(BaseAliases(cfg), Selves(Emails(ks)), e, e);
  }

  lemma EmailsAdd(ks: set<Key>, k: Key)
    ensures Emails(ks + {k}) == Emails(ks) + {Email(k)}
  {
  }

  lemma SelvesAdd(es: set<string>, e: string)
    ensures Selves(es + {e}) == Selves(es)[e := e]
  {
  }

  lemma ProvisionScanned(cfg: Config, domains: map<string, DomainConfig>, entries: map<Key, Entry>, k: Key, l: Key,
                         r: Request, w: World)
    requires Lookup(cfg, domains, k.domain).Some?
    ensures Scanned(cfg, domains, Registry.Credentialed(entries, k, r, w), l) <==>
            if l == k then Recovers(cfg, k, r) else Scanned(cfg, domains, entries, l)
  {
    if l == k {
      ProvisionHash(entries, k, r, w);
    } else {
      OtherHash(entries, k, l, r, w);
    }
  }

  lemma ProvisionCredentials(cfg: Config, s: State, k: Key, r: Request, w: World)
    requires Known(cfg, s, k.domain)
    ensures var ks := RegistryProof.Credentialed(cfg, s);
            RegistryProof.Credentialed(cfg, Registered(s, k, r, w)) == if Recovers(cfg, k, r) then ks + {k} else ks - {k}
  {
    hide Recoverable, Scanned, Recovers, Registry.Credentialed;
    var before, after := s.disk.entries, Registry.Credentialed(s.disk.entries, k, r, w);
    var domains := s.mem.domains;
    var ks := Recoverable(cfg, domains, before);
    var found := if Recovers(cfg, k, r) then ks + {k} else ks - {k};
    forall l: Key ensures l in Recoverable(cfg, domains, after) <==> l in found {
      ProvisionScanned(cfg, domains, before, k, l, r, w);
      ScannedIsThere(cfg, domains, before, l);
      ScannedIsThere(cfg, domains, after, l);
    }
  }

  /** In agreement, the dynamic accounts are the credentialed ones. */
  lemma DynIsCredentialed(cfg: Config, s: State, k: Key)
    requires WellFormed(cfg) && Inv(cfg, s) && Agrees(cfg, s) && '@' !in k.domain
    ensures Email(k) in s.mem.dyn <==> k in RegistryProof.Credentialed(cfg, s)
  {
    var ks := RegistryProof.Credentialed(cfg, s);
    BootedMemory(cfg, s);
    CredentialsPlain(cfg, s);
    if Email(k) in s.mem.dyn {
      var l :| l in ks && Email(l) == Email(k);
      EmailInjective(k, l);
    }
  }

  lemma NotAssembled(cfg: Config, ks: set<Key>, k: Key, domains: map<string, DomainConfig>)
    requires Plain(ks + {k}) && k !in ks
    ensures Email(k) !in Assembled(cfg, ks, domains).dyn
  {
    forall l | l in ks ensures Email(l) != Email(k) {
      if Email(l) == Email(k) {
        EmailInjective(k, l);
      }
    }
  }

  /** Finishing a provision keeps memory and restart in agreement exactly when the account is in memory afterwards if and
      only if a restart would find it: blank hash, the name peers and a static name break it, and so does a store that
      does not open for any other account that is not in memory yet. */
  lemma ProvisionAgrees(cfg: Config, s: State, k: Key, r: Request, w: World)
    requires WellFormed(cfg) && Inv(cfg, s) && Agrees(cfg, s) && Known(cfg, s, k.domain)
    ensures Agrees(cfg, Registered(s, k, r, w)) <==> (w.opens || Email(k) in s.mem.dyn <==> Recovers(cfg, k, r))
  {
    var ks, t, ds := RegistryProof.Credentialed(cfg, s), Registered(s, k, r, w), s.mem.domains;
    assert s.mem == Assembled(cfg, ks, ds) by {
      BootedMemory(cfg, s);
    }
    assert Booted(cfg, t.disk).mem == Assembled(cfg, RegistryProof.Credentialed(cfg, t), ds) by {
      BootedMemory(cfg, t);
    }
    CredentialsPlain(cfg, s);
    DynIsCredentialed(cfg, s, k);
    ProvisionCredentials(cfg, s, k, r, w);
    if Recovers(cfg, k, r) {
      AssembledAdd(cfg, ks, k, ds);
      FoundAgrees(cfg, ks, k, ds, w.opens);
    } else {
      LostAgrees(cfg, ks, k, ds, w.opens);
    }
  }

  lemma FoundAgrees(cfg: Config, ks: set<Key>, k: Key, domains: map<string, DomainConfig>, opens: bool)
    requires Plain(ks + {k})
    ensures var m := Assembled(cfg, ks, domains);
            Assembled(cfg, ks + {k}, domains) == (if opens then Added(m, k) else m) <==> opens || k in ks
  {
    hide BaseStores, BaseAliases;
    AssembledAdd(cfg, ks, k, domains);
    if k in ks {
      assert ks + {k} == ks;
    } else {
      NotAssembled(cfg, ks, k, domains);
    }
  }

  lemma LostAgrees(cfg: Config, ks: set<Key>, k: Key, domains: map<string, DomainConfig>, opens: bool)
    requires Plain(ks + {k})
    ensures var m := Assembled(cfg, ks, domains);
            Assembled(cfg, ks - {k}, domains) == (if opens then Added(m, k) else m) <==> !opens && k !in ks
  {
    hide BaseStores, BaseAliases;
    NotAssembled(cfg, ks - {k}, k, domains);
    if k !in ks {
      assert ks - {k} == ks;
    }
  }

  // ----- removal -------------------------------------------------------------

  lemma FoldsSelf(a: string, emails: set<string>)
    requires a in emails
    ensures Folds(a, emails)
  {
  }

  /** No address a restart would bring back folds to a removed one. */
  ghost predicate NoClash(cfg: Config, s: State, gone: set<Key>) {
    Apart(BaseNames(cfg) + Emails(RegistryProof.Credentialed(cfg, s) - gone), Emails(gone))
  }

  predicate Apart(stays: set<string>, gone: set<string>) {
    forall a | a in stays :: !Folds(a, gone)
  }

  /** Evicting addresses from an alias map leaves exactly the aliases that stay, if none of those folds to an evicted
      one and every target is itself an alias. */
  lemma SurvivingApart(base: map<string, string>, before: set<string>, emails: set<string>)
    requires forall a | a in base :: base[a] in base
    requires Apart(base.Keys + (before - emails), emails)
    ensures base + Selves(before - emails) == Surviving(base + Selves(before), emails)
  {
    forall a ensures SameAt(Surviving(base + Selves(before), emails), base + Selves(before - emails), a) {
      SurvivesOne(base, before, emails, a);
    }
    MapsEqual(Surviving(base + Selves(before), emails), base + Selves(before - emails));
  }

  predicate SameAt(m: map<string, string>, n: map<string, string>, a: string) {
    (a in m <==> a in n) && (a in m && a in n ==> m[a] == n[a])
  }

  lemma MapsEqual(m: map<string, string>, n: map<string, string>)
    requires forall a :: SameAt(m, n, a)
    ensures m == n
  {
    forall a ensures (a in m <==> a in n) && (a in m && a in n ==> m[a] == n[a]) {
      assert SameAt(m, n, a);
    }
  }

  lemma SurvivesOne(base: map<string, string>, before: set<string>, emails: set<string>, a: string)
    requires forall a | a in base :: base[a] in base
    requires Apart(base.Keys + (before - emails), emails)
    ensures SameAt(Surviving(base + Selves(before), emails), base + Selves(before - emails), a)
  {
    var stays, aliases := base.Keys + (before - emails), base + Selves(before);
    if a in stays {
      assert !Folds(a, emails);
      if a in emails {
        FoldsSelf(a, emails);
      }
      var t := aliases[a];
      assert t in stays && !Folds(t, emails);
      if t in emails {
        FoldsSelf(t, emails);
      }
    }
  }

  lemma SurvivingClash(base: map<string, string>, before: set<string>, emails: set<string>)
    requires !Apart(base.Keys + (before - emails), emails)
    ensures base + Selves(before - emails) != Surviving(base + Selves(before), emails)
  {
    var a :| a in base.Keys + (before - emails) && Folds(a, emails);
    assert a in base + Selves(before - emails) && a !in Surviving(base + Selves(before), emails);
  }

  lemma BaseTargets(cfg: Config)
    ensures forall a | a in BaseAliases(cfg) :: BaseAliases(cfg)[a] in BaseAliases(cfg)
  {
  }

  lemma StoresRemoved(base: map<string, Key>, dirs: map<string, Key>, emails: set<string>)
    requires base.Keys !! emails
    ensures base + (dirs - emails) == (base + dirs) - emails
  {
  }

  lemma BaseApart(cfg: Config, emails: set<string>)
    requires Apart(BaseNames(cfg), emails)
    ensures BaseStores(cfg).Keys !! emails
  {
  }

  lemma ApartPart(a: set<string>, b: set<string>, gone: set<string>)
    requires Apart(a + b, gone)
    ensures Apart(a, gone)
  {
    hide Folds;
  }

  lemma BaseAliasNames(cfg: Config)
    ensures BaseAliases(cfg).Keys == BaseNames(cfg)
  {
  }

  lemma AssembledApart(cfg: Config, ks: set<Key>, gone: set<Key>, domains: map<string, DomainConfig>)
    requires Plain(ks) && Plain(gone)
    requires Apart(BaseNames(cfg) + Emails(ks - gone), Emails(gone))
    ensures Assembled(cfg, ks - gone, domains) == Evicted(Assembled(cfg, ks, domains), Emails(gone))
  {
    hide BaseStores, BaseAliases, BaseNames, Emails, Directories, Selves, Apart, Surviving, Plain;
    var emails := Emails(gone);
    ApartPart(BaseNames(cfg), Emails(ks - gone), emails);
    BaseTargets(cfg);
    BaseAliasNames(cfg);
    EmailsRemoved(ks, gone);
    SurvivingApart(BaseAliases(cfg), Emails(ks), emails);
    DirectoriesRemoved(ks, gone);
    BaseApart(cfg, emails);
    StoresRemoved(BaseStores(cfg), Directories(ks), emails);
  }

  lemma AssembledClash(cfg: Config, ks: set<Key>, gone: set<Key>, domains: map<string, DomainConfig>)
    requires Plain(ks) && Plain(gone)
    requires !Apart(BaseNames(cfg) + Emails(ks - gone), Emails(gone))
    ensures Assembled(cfg, ks - gone, domains).aliases != Evicted(Assembled(cfg, ks, domains), Emails(gone)).aliases
  {
    EmailsRemoved(ks, gone);
    assert BaseAliases(cfg).Keys == BaseNames(cfg);
    SurvivingClash(BaseAliases(cfg), Emails(ks), Emails(gone));
  }

  lemma AssembledRemoved(cfg: Config, s: State, gone: set<Key>)
    requires WellFormed(cfg) && Inv(cfg, s) && Agrees(cfg, s) && Plain(gone)
    ensures Assembled(cfg, RegistryProof.Credentialed(cfg, s) - gone, s.mem.domains) == Evicted(s.mem, Emails(gone))
            <==> NoClash(cfg, s, gone)
  {
    var ks := RegistryProof.Credentialed(cfg, s);
    BootedMemory(cfg, s);
    CredentialsPlain(cfg, s);
    if NoClash(cfg, s, gone) {
      AssembledApart(cfg, ks, gone, s.mem.domains);
    } else {
      AssembledClash(cfg, ks, gone, s.mem.domains);
    }
  }

  /** Removing accounts keeps memory and restart in agreement exactly when the credentialed directories that go are those
      of the accounts that leave memory, and no address that stays configured or provisioned folds to one of theirs. */
  lemma RemovedAgrees(cfg: Config, s: State, gone: set<Key>, lost: set<Key>)
    requires WellFormed(cfg) && Inv(cfg, s) && Agrees(cfg, s) && Plain(gone)
    ensures Agrees(cfg, Removed(s, gone, lost)) <==> SafeRemoval(cfg, s, gone, lost)
  {
    var t := Removed(s, gone, lost);
    var ks := RegistryProof.Credentialed(cfg, s);
    BootedMemory(cfg, t);
    RemovalCredentials(cfg, s.mem.domains, s.disk.entries, lost);
    if ks - lost == ks - gone {
      AssembledRemoved(cfg, s, gone);
      assert forall k | k in ks :: k in lost <==> k in gone by {
        assert forall k | k in ks :: k in ks - lost <==> k in ks - gone;
      }
    } else {
      BootedMemory(cfg, s);
      CredentialsPlain(cfg, s);
      EmailsRemoved(ks, gone);
      EmailsDiffer(ks - lost, ks - gone);
    }
  }

  lemma EmailsDiffer(a: set<Key>, b: set<Key>)
    requires Plain(a) && Plain(b) && a != b
    ensures Emails(a) != Emails(b)
  {
    if Emails(a) == Emails(b) {
      forall k ensures k in a <==> k in b {
        if k in a {
          assert Email(k) in Emails(b);
          var l :| l in b && Email(l) == Email(k);
          EmailInjective(k, l);
        }
        if k in b {
          assert Email(k) in Emails(a);
          var l :| l in a && Email(l) == Email(k);
          EmailInjective(k, l);
        }
      }
    }
  }

  // ----- every step ----------------------------------------------------------

  /** What can be checked before a step to know whether it keeps memory and restart in agreement. */
  ghost predicate Safe(cfg: Config, s: State, step: Step) {
    match step
    case Provisioning(r, d, w) =>
      Default(cfg, d) && Admit(cfg, s, Tidied(r), d, w).Admitted? ==>
        SafeFinish(cfg, s, Admit(cfg, s, Tidied(r), d, w).key, r, w)
    case Finishing(k, r, w) => Finishable(cfg, s, k) ==> SafeFinish(cfg, s, k, r, w)
    case Deletion(v, u, p, removes) => SafeDelete(cfg, s, Authenticate(cfg, s, v, u, p), removes)
    case Purge(peers, cutoff, stuck) =>
      var gone := PurgedKeys(cfg, s.disk.entries, peers, cutoff);
      SafeRemoval(cfg, s, gone, gone - stuck)
    case _ => true
  }

  ghost predicate SafeFinish(cfg: Config, s: State, k: Key, r: Request, w: World) {
    w.writes && !Blocked(s.disk.entries, k) ==> (w.opens || Email(k) in s.mem.dyn <==> Recovers(cfg, k, r))
  }

  ghost predicate SafeRemoval(cfg: Config, s: State, gone: set<Key>, lost: set<Key>) {
    (forall k | k in RegistryProof.Credentialed(cfg, s) :: k in lost <==> k in gone) && NoClash(cfg, s, gone)
  }

  ghost predicate SafeDelete(cfg: Config, s: State, auth: Option<Key>, removes: bool) {
    auth.Some? && !IsConfigured(cfg, s, auth.value) ==>
      SafeRemoval(cfg, s, {auth.value}, if removes then Target(s.disk.root, auth.value) else {})
  }

  /** What authentication establishes: the name reaches a credentialed directory, its own exactly if it is one clean path
      component. */
  lemma AuthenticatedPlace(cfg: Config, s: State, verify: Verifier, u: string, p: string)
    requires WellFormed(cfg) && Inv(cfg, s)
    ensures match Authenticate(cfg, s, verify, u, p)
            case None => true
            case Some(k) =>
              Known(cfg, s, k.domain) && PlainDomain(k.domain) && Email(k) == Lower(u) &&
              Place(s.disk.root, k).Some? && Place(s.disk.root, k).value in s.disk.entries &&
              AuthHash(s.disk.entries, Place(s.disk.root, k).value) != "" &&
              (Place(s.disk.root, k) == Some(k) <==> Component(k.name))
  {
    JoinCut(Lower(u));
    match Authenticate(cfg, s, verify, u, p)
    case None =>
    case Some(k) =>
      KnownIsPlain(cfg, s, k.domain);
      Paths.OwnPlace(s.disk.root, k);
  }

  lemma KnownIsPlain(cfg: Config, s: State, d: string)
    requires WellFormed(cfg) && Inv(cfg, s) && Known(cfg, s, d)
    ensures PlainDomain(d)
  {
  }

  lemma DeleteAgrees(cfg: Config, s: State, auth: Option<Key>, removes: bool)
    requires WellFormed(cfg) && Inv(cfg, s) && Agrees(cfg, s)
    requires auth.Some? ==> '@' !in auth.value.domain
    ensures Agrees(cfg, DeleteAs(cfg, s, auth, removes).0) <==> SafeDelete(cfg, s, auth, removes)
  {
    if auth.Some? {
      RemovedAgrees(cfg, s, {auth.value}, if removes then Target(s.disk.root, auth.value) else {});
    }
  }

  lemma SweepAgrees(cfg: Config, s: State, peers: seq<map<Key, Entry>>, cutoff: int, stuck: set<Key>)
    requires WellFormed(cfg) && Inv(cfg, s) && Agrees(cfg, s)
    ensures var gone := PurgedKeys(cfg, s.disk.entries, peers, cutoff);
            Agrees(cfg, Sweep(cfg, s, peers, cutoff, stuck)) <==> SafeRemoval(cfg, s, gone, gone - stuck)
  {
    var gone := PurgedKeys(cfg, s.disk.entries, peers, cutoff);
    forall k | k in gone ensures '@' !in k.domain {
      DomainsPlain(cfg, s, k);
    }
    RemovedAgrees(cfg, s, gone, gone - stuck);
  }

  lemma FinishAgrees(cfg: Config, s: State, k: Key, r: Request, w: World)
    requires WellFormed(cfg) && Inv(cfg, s) && Agrees(cfg, s) && Known(cfg, s, k.domain)
    ensures Agrees(cfg, Finish(s, k, r, w).0) <==> SafeFinish(cfg, s, k, r, w)
  {
    ProvisionAgrees(cfg, s, k, r, w);
  }

  lemma ProvisioningAgrees(cfg: Config, s: State, r: Request, d: string, w: World)
    requires WellFormed(cfg) && Inv(cfg, s) && Agrees(cfg, s) && Default(cfg, d)
    ensures var a := Admit(cfg, s, Tidied(r), d, w);
            Agrees(cfg, Provision(cfg, s, r, d, w).0) <==> (a.Admitted? ==> SafeFinish(cfg, s, a.key, r, w))
  {
    var a := Admit(cfg, s, Tidied(r), d, w);
    if a.Admitted? {
      AdmittedKey(cfg, s, Tidied(r), d, w);
      FinishAgrees(cfg, s, a.key, r, w);
    }
  }

  /** Registering a custom domain, making its directory, or writing other files changes nothing a restart would see in
      the accounts. */
  lemma SameAccounts(cfg: Config, s: State, t: State)
    requires Inv(cfg, s) && Inv(cfg, t) && Agrees(cfg, s)
    requires t.mem == s.mem.(domains := t.mem.domains)
    requires forall k: Key :: AuthHash(s.disk.entries, k) == AuthHash(t.disk.entries, k)
    requires forall d | d in s.mem.domains :: d in t.mem.domains
    ensures Agrees(cfg, t)
  {
    SameCredentials(cfg, s.mem.domains, t.mem.domains, s.disk.entries, t.disk.entries);
    BootedMemory(cfg, s);
    BootedMemory(cfg, t);
  }

  lemma DeletionAgrees(cfg: Config, s: State, verify: Verifier, u: string, p: string, removes: bool)
    requires WellFormed(cfg) && Inv(cfg, s) && Agrees(cfg, s)
    ensures Agrees(cfg, Delete(cfg, s, verify, u, p, removes).0) <==>
            SafeDelete(cfg, s, Authenticate(cfg, s, verify, u, p), removes)
  {
    AuthenticatedPlace(cfg, s, verify, u, p);
    DeleteAgrees(cfg, s, Authenticate(cfg, s, verify, u, p), removes);
  }

  /** A successful deletion is safe only under a clean name, unless what it removed was no dynamic account. */
  lemma SafeDeletionName(cfg: Config, s: State, verify: Verifier, u: string, p: string)
    requires WellFormed(cfg) && Inv(cfg, s) && Authenticate(cfg, s, verify, u, p).Some?
    requires !IsConfigured(cfg, s, Authenticate(cfg, s, verify, u, p).value)
    ensures var k := Authenticate(cfg, s, verify, u, p).value;
            SafeDelete(cfg, s, Some(k), true) <==>
              NoClash(cfg, s, {k}) &&
              (Component(k.name) || Place(s.disk.root, k).value !in RegistryProof.Credentialed(cfg, s))
  {
    var k := Authenticate(cfg, s, verify, u, p).value;
    AuthenticatedPlace(cfg, s, verify, u, p);
    if !Component(k.name) {
      assert k !in s.disk.entries;
    }
  }

  lemma DomainShape(s: State, n: string, proven: bool, secret: string, writes: bool)
    ensures SameButDomains(s, AddDomain(s, n, proven, secret, writes).0) && SameButDomains(s, MakeDomainDir(s, n))
  {
  }

  predicate SameButDomains(s: State, t: State) {
    t.mem == s.mem.(domains := t.mem.domains) && t.disk.entries == s.disk.entries && t.disk.root == s.disk.root &&
    forall d | d in s.mem.domains :: d in t.mem.domains
  }

  lemma DomainAgrees(cfg: Config, s: State, t: State)
    requires Inv(cfg, s) && Inv(cfg, t) && Agrees(cfg, s) && SameButDomains(s, t)
    ensures Agrees(cfg, t)
  {
    SameAccounts(cfg, s, t);
  }

  lemma WriteAgrees(cfg: Config, s: State, k: Key, n: string, f: File)
    requires Inv(cfg, s) && Agrees(cfg, s)
    ensures Agrees(cfg, Write(cfg, s, k, n, f))
  {
    WriteInv(cfg, s, k, n, f);
    WriteHashes(cfg, s, k, n, f);
    SameAccounts(cfg, s, Write(cfg, s, k, n, f));
  }

  /** Restart agreement, step by step: it is kept exactly when the step is safe. */
  lemma StepAgrees(cfg: Config, s: State, step: Step)
    requires WellFormed(cfg) && Inv(cfg, s) && Agrees(cfg, s)
    ensures Agrees(cfg, Next(cfg, s, step)) <==> Safe(cfg, s, step)
  {
    hide Agrees, Inv, SafeFinish, SafeRemoval, SafeDelete, Admit, Provision, Finish, Delete, Sweep, AddDomain, MakeDomainDir,
      Write, Booted, Authenticate, PurgedKeys, Tidied, WellFormed;
    StepInv(cfg, s, step);
    match step
    case Provisioning(r, d, w) =>
      if Default(cfg, d) {
        ProvisioningAgrees(cfg, s, r, d, w);
      }
    case Finishing(k, r, w) =>
      if Finishable(cfg, s, k) {
        FinishAgrees(cfg, s, k, r, w);
      }
    case Deletion(v, u, p, removes) => DeletionAgrees(cfg, s, v, u, p, removes);
    case Purge(peers, cutoff, stuck) => SweepAgrees(cfg, s, peers, cutoff, stuck);
    case DomainAddition(n, proven, secret, writes) =>
      DomainShape(s, n, proven, secret, writes);
      DomainAgrees(cfg, s, AddDomain(s, n, proven, secret, writes).0);
    case DomainToken(n) =>
      DomainShape(s, n, false, "", false);
      DomainAgrees(cfg, s, MakeDomainDir(s, n));
    case FileWrite(k, n, f) => WriteAgrees(cfg, s, k, n, f);
    case Restart => RestartTwice(cfg, s.disk);
  }

  /** Every step of a run is safe in the state it starts from. */
  ghost predicate SafeRun(cfg: Config, s: State, steps: seq<Step>)
    decreases |steps|
  {
    steps != [] ==> Safe(cfg, s, steps[0]) && SafeRun(cfg, Next(cfg, s, steps[0]), steps[1..])
  }

  lemma {:induction false} RunAgrees(cfg: Config, s: State, steps: seq<Step>)
    requires WellFormed(cfg) && Inv(cfg, s) && Agrees(cfg, s) && SafeRun(cfg, s, steps)
    ensures Agrees(cfg, Run(cfg, s, steps))
    decreases |steps|
  {
    if steps != [] {
      StepAgrees(cfg, s, steps[0]);
      StepInv(cfg, s, steps[0]);
      RunAgrees(cfg, Next(cfg, s, steps[0]), steps[1..]);
    }
  }

  /** Restart recovers the live registry: from startup on any disk, after any run of safe steps, starting again on the
      disk gives the same stores, aliases, dynamic accounts and domains. */
  lemma RestartRecovers(cfg: Config, disk: Disk, steps: seq<Step>)
    requires WellFormed(cfg) && OnDisk(disk)
    requires SafeRun(cfg, Booted(cfg, disk), steps)
    ensures var s := Run(cfg, Booted(cfg, disk), steps); Booted(cfg, s.disk).mem == s.mem
  {
    BootInv(cfg, disk);
    RestartTwice(cfg, disk);
    RunAgrees(cfg, Booted(cfg, disk), steps);
  }
}
