/** The two authenticators, JMAP's AuthFunc and the side endpoints' authenticate, give the same answer. */
module AuthProof {
  import opened Text
  import opened Registry
  import opened RegistryProof
  import opened RestartProof
  import Paths

  /** Every account a restart would find is in memory. */
  ghost predicate Found(cfg: Config, s: State) {
    forall k | k in RegistryProof.Credentialed(cfg, s) :: Email(k) in s.mem.dyn
  }

  /** The file system and the store library did what the step asked of them. */
  ghost predicate Succeeds(cfg: Config, s: State, step: Step) {
    match step
    case Provisioning(r, d, w) => w.opens
    case Finishing(_, _, w) => w.opens
    case Deletion(_, _, _, removes) => removes
    case Purge(_, _, stuck) => stuck == {}
    case _ => true
  }

  lemma RegisteredFound(cfg: Config, s: State, k: Key, r: Request, w: World)
    requires Found(cfg, s) && Known(cfg, s, k.domain) && w.opens
    ensures Found(cfg, Registered(s, k, r, w))
  {
    ProvisionCredentials(cfg, s, k, r, w);
  }

  lemma RemovedFound(cfg: Config, s: State, gone: set<Key>, lost: set<Key>)
    requires WellFormed(cfg) && Inv(cfg, s) && Found(cfg, s) && Plain(gone)
    requires forall k | k in s.disk.entries && k in gone :: k in lost
    ensures Found(cfg, Removed(s, gone, lost))
  {
    var ks := RegistryProof.Credentialed(cfg, s);
    RemovalCredentials(cfg, s.mem.domains, s.disk.entries, lost);
    CredentialsPlain(cfg, s);
    EmailsRemoved(ks, gone);
    forall k | k in ks - lost ensures Email(k) in s.mem.dyn - Emails(gone) {
      assert k in ks - gone;
      assert Email(k) in Emails(ks - gone);
    }
  }

  lemma SameFound(cfg: Config, s: State, t: State)
    requires Inv(cfg, s) && Found(cfg, s) && t.mem.dyn == s.mem.dyn
    requires forall k: Key :: AuthHash(s.disk.entries, k) == AuthHash(t.disk.entries, k)
    requires forall d | d in s.mem.domains :: d in t.mem.domains
    ensures Found(cfg, t)
  {
  }

  lemma BootFound(cfg: Config, disk: Disk)
    ensures Found(cfg, Booted(cfg, disk))
  {
  }

  lemma DeleteFound(cfg: Config, s: State, verify: Verifier, u: string, p: string)
    requires WellFormed(cfg) && Inv(cfg, s) && Found(cfg, s)
    ensures Found(cfg, Delete(cfg, s, verify, u, p, true).0)
  {
    var auth := Authenticate(cfg, s, verify, u, p);
    AuthenticatedPlace(cfg, s, verify, u, p);
    if auth.Some? {
      RemovedFound(cfg, s, {auth.value}, Target(s.disk.root, auth.value));
    }
  }

  lemma SweepFound(cfg: Config, s: State, peers: seq<map<Key, Entry>>, cutoff: int)
    requires WellFormed(cfg) && Inv(cfg, s) && Found(cfg, s)
    ensures Found(cfg, Sweep(cfg, s, peers, cutoff, {}))
  {
    var gone := PurgedKeys(cfg, s.disk.entries, peers, cutoff);
    forall k | k in gone ensures '@' !in k.domain {
      DomainsPlain(cfg, s, k);
    }
    RemovedFound(cfg, s, gone, gone - {});
  }

  lemma ProvisioningFound(cfg: Config, s: State, r: Request, d: string, w: World)
    requires Found(cfg, s) && Default(cfg, d) && w.opens
    ensures Found(cfg, Provision(cfg, s, r, d, w).0)
  {
    var a := Admit(cfg, s, Tidied(r), d, w);
    if a.Admitted? {
      AdmittedKey(cfg, s, Tidied(r), d, w);
      FinishFound(cfg, s, a.key, r, w);
    }
  }

  lemma FinishFound(cfg: Config, s: State, k: Key, r: Request, w: World)
    requires Found(cfg, s) && Known(cfg, s, k.domain) && w.opens
    ensures Found(cfg, Finish(s, k, r, w).0)
  {
    RegisteredFound(cfg, s, k, r, w);
  }

  lemma DomainFound(cfg: Config, s: State, t: State)
    requires Inv(cfg, s) && Found(cfg, s) && SameButDomains(s, t)
    ensures Found(cfg, t)
  {
    SameFound(cfg, s, t);
  }

  lemma WriteFound(cfg: Config, s: State, k: Key, n: string, f: File)
    requires Inv(cfg, s) && Found(cfg, s)
    ensures Found(cfg, Write(cfg, s, k, n, f))
  {
    WriteHashes(cfg, s, k, n, f);
    SameFound(cfg, s, Write(cfg, s, k, n, f));
  }

  lemma StepFound(cfg: Config, s: State, step: Step)
    requires WellFormed(cfg) && Inv(cfg, s) && Found(cfg, s) && Succeeds(cfg, s, step)
    ensures Found(cfg, Next(cfg, s, step))
  {
    hide Found, Inv, Admit, Provision, Finish, Delete, Sweep, AddDomain, MakeDomainDir, Write, Booted, WellFormed,
      SameButDomains, Tidied;
    match step
    case Provisioning(r, d, w) =>
      if Default(cfg, d) {
        ProvisioningFound(cfg, s, r, d, w);
      }
    case Finishing(k, r, w) =>
      if Finishable(cfg, s, k) {
        FinishFound(cfg, s, k, r, w);
      }
    case Deletion(v, u, p, removes) => DeleteFound(cfg, s, v, u, p);
    case Purge(peers, cutoff, stuck) => SweepFound(cfg, s, peers, cutoff);
    case DomainAddition(n, proven, secret, writes) =>
      DomainShape(s, n, proven, secret, writes);
      DomainFound(cfg, s, AddDomain(s, n, proven, secret, writes).0);
    case DomainToken(n) =>
      DomainShape(s, n, false, "", false);
      DomainFound(cfg, s, MakeDomainDir(s, n));
    case FileWrite(k, n, f) => WriteFound(cfg, s, k, n, f);
    case Restart => BootFound(cfg, s.disk);
  }

  /** Same verdict, and the same account named. */
  predicate SameAnswer(a: Option<Key>, f: Option<string>) {
    match (a, f)
    case (None, None) => true
    case (Some(k), Some(id)) => Email(k) == id
    case _ => false
  }

  /** Will AuthFunc know this account under this name? Configured accounts, and dynamic ones: their names are clean path
      components, and one called peers only until a restart. */
  predicate Recognised(cfg: Config, s: State, k: Key, username: string) {
    IsStatic(cfg, k) || (Component(k.name) && (k.name != PEERS || username in s.mem.dyn))
  }

  lemma AcceptedParts(cfg: Config, s: State, verify: Verifier, u: string, p: string)
    ensures Authenticate(cfg, s, verify, u, p).Some? ==>
            var k := Authenticate(cfg, s, verify, u, p).value;
            Email(k) == Lower(u) && Known(cfg, s, k.domain) && HashAt(s.disk, k) != "" &&
            AuthFunc(cfg, s, verify, u, p) == (if IsStatic(cfg, k) || u in s.mem.dyn then Some(u) else None)
  {
    JoinCut(Lower(u));
  }

  lemma LowerSlashless(u: string)
    requires '/' !in u
    ensures '/' !in Lower(u)
  {
  }

  lemma CutSlashless(s: string)
    requires '/' !in s
    ensures '/' !in Cut(s, "@").0 && (Cut(s, "@").1.Some? ==> '/' !in Cut(s, "@").1.value)
  {
  }

  /** A dynamic account's name reaches its own directory only. */
  lemma DynamicPlace(cfg: Config, s: State, u: string, k: Key)
    requires WellFormed(cfg) && Inv(cfg, s) && u in s.mem.dyn
    requires Cut(Lower(u), "@") == (k.name, Some(k.domain)) && Place(s.disk.root, k).Some?
    ensures Place(s.disk.root, k) == Some(k)
  {
    assert Listed(cfg, s, u);
    var l :| Email(l) == u && Component(l.name) && Known(cfg, s, l.domain);
    KnownIsPlain(cfg, s, l.domain);
    assert '/' !in u;
    LowerSlashless(u);
    CutSlashless(Lower(u));
    Paths.SlashlessPlace(s.disk.root, k);
  }

  lemma NamedParts(cfg: Config, s: State, verify: Verifier, u: string, p: string, k: Key)
    requires Cut(Lower(u), "@") == (k.name, Some(k.domain))
    ensures Authenticate(cfg, s, verify, u, p).Some? <==> Known(cfg, s, k.domain) && Accepts(verify, p, HashAt(s.disk, k))
    ensures AuthFunc(cfg, s, verify, u, p).Some? <==>
            (IsStatic(cfg, k) || u in s.mem.dyn) && Accepts(verify, p, HashAt(s.disk, k))
  {
  }

  lemma HashedIsKnown(cfg: Config, s: State, u: string, k: Key)
    requires WellFormed(cfg) && Inv(cfg, s) && Cut(Lower(u), "@") == (k.name, Some(k.domain))
    requires (IsStatic(cfg, k) || u in s.mem.dyn) && HashAt(s.disk, k) != ""
    ensures Known(cfg, s, k.domain)
  {
    if !IsStatic(cfg, k) {
      DynamicPlace(cfg, s, u, k);
      assert k in s.disk.entries;
    }
  }

  lemma AuthFuncParts(cfg: Config, s: State, verify: Verifier, u: string, p: string)
    requires WellFormed(cfg) && Inv(cfg, s)
    ensures AuthFunc(cfg, s, verify, u, p).Some? ==> Authenticate(cfg, s, verify, u, p).Some?
  {
    var (lp, rest) := Cut(Lower(u), "@");
    if rest.Some? {
      var k := Key(rest.value, lp);
      NamedParts(cfg, s, verify, u, p, k);
      if AuthFunc(cfg, s, verify, u, p).Some? {
        HashedIsKnown(cfg, s, u, k);
      }
    }
  }

  lemma RecognisedExactly(cfg: Config, s: State, k: Key, u: string)
    requires WellFormed(cfg) && Inv(cfg, s) && Found(cfg, s)
    requires Email(k) == u && Known(cfg, s, k.domain) && HashAt(s.disk, k) != ""
    ensures IsStatic(cfg, k) || u in s.mem.dyn <==> Recognised(cfg, s, k, u)
  {
    KnownIsPlain(cfg, s, k.domain);
    if u in s.mem.dyn {
      assert Listed(cfg, s, u);
      var l :| Email(l) == u && Component(l.name) && Known(cfg, s, l.domain);
      KnownIsPlain(cfg, s, l.domain);
      EmailInjective(k, l);
    } else if !IsStatic(cfg, k) && Component(k.name) && k.name != PEERS {
      Paths.ComponentPlace(s.disk.root, k);
      assert Scanned(cfg, s.mem.domains, s.disk.entries, k);
      ScannedIsThere(cfg, s.mem.domains, s.disk.entries, k);
    }
  }

  /** AuthFunc never accepts what authenticate rejects; and the two give the same answer exactly when authenticate
      rejects, or the user name is in lower case and its local part is configured, or is one clean path component other
      than an unregistered peers. */
  lemma AuthenticatorsAgree(cfg: Config, s: State, verify: Verifier, u: string, p: string)
    requires WellFormed(cfg) && Inv(cfg, s) && Found(cfg, s)
    ensures AuthFunc(cfg, s, verify, u, p).Some? ==> Authenticate(cfg, s, verify, u, p).Some?
    ensures SameAnswer(Authenticate(cfg, s, verify, u, p), AuthFunc(cfg, s, verify, u, p)) <==>
            match Authenticate(cfg, s, verify, u, p)
            case None => true
            case Some(k) => u == Lower(u) && Recognised(cfg, s, k, u)
  {
    AcceptedParts(cfg, s, verify, u, p);
    AuthFuncParts(cfg, s, verify, u, p);
    var a := Authenticate(cfg, s, verify, u, p);
    if a.Some? && u == Lower(u) {
      RecognisedExactly(cfg, s, a.value, u);
    }
  }

  ghost predicate SucceedingRun(cfg: Config, s: State, steps: seq<Step>)
    decreases |steps|
  {
    steps != [] ==> Succeeds(cfg, s, steps[0]) && SucceedingRun(cfg, Next(cfg, s, steps[0]), steps[1..])
  }

  lemma {:induction false} RunFound(cfg: Config, s: State, steps: seq<Step>)
    requires WellFormed(cfg) && Inv(cfg, s) && Found(cfg, s) && SucceedingRun(cfg, s, steps)
    ensures Inv(cfg, Run(cfg, s, steps)) && Found(cfg, Run(cfg, s, steps))
    decreases |steps|
  {
    if steps != [] {
      StepInv(cfg, s, steps[0]);
      StepFound(cfg, s, steps[0]);
      RunFound(cfg, Next(cfg, s, steps[0]), steps[1..]);
    }
  }

  /** In every state reachable from startup on any disk, while file system and stores do what they are asked. */
  lemma ReachableAuthenticatorsAgree(cfg: Config, disk: Disk, steps: seq<Step>, verify: Verifier, u: string, p: string)
    requires WellFormed(cfg) && OnDisk(disk)
    requires SucceedingRun(cfg, Booted(cfg, disk), steps)
    ensures var s := Run(cfg, Booted(cfg, disk), steps);
            SameAnswer(Authenticate(cfg, s, verify, u, p), AuthFunc(cfg, s, verify, u, p)) <==>
            match Authenticate(cfg, s, verify, u, p)
            case None => true
            case Some(k) => u == Lower(u) && Recognised(cfg, s, k, u)
  {
    BootInv(cfg, disk);
    BootFound(cfg, disk);
    RunFound(cfg, Booted(cfg, disk), steps);
    AuthenticatorsAgree(cfg, Run(cfg, Booted(cfg, disk), steps), verify, u, p);
  }
}
