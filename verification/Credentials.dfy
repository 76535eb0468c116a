/** Who may create an account, and how long a login lasts. */
module Credentials {
  import opened Text
  import opened Registry
  import opened RegistryProof
  import opened RestartProof
  import Removal

  predicate Free(s: State, k: Key) {
    Email(k) !in s.mem.dyn && AuthHash(s.disk.entries, k) == ""
  }

  /** The domain accepts this request: it is open, or it has a secret and the request knows it. */
  predicate Allowed(dc: DomainConfig, secret: string) {
    dc.allowProvision || (dc.provisionSecret != "" && secret == dc.provisionSecret)
  }

  predicate ProvenIdentity(r: Request, w: World) {
    r.did == "" || (w.anchored && r.didSig != "" && w.verdict == Proven)
  }

  function KeyOf(r: Request, default: string): Key {
    Key(if r.domain != "" then r.domain else default, r.username)
  }

  lemma AdmittedExactly(cfg: Config, s: State, r: Request, default: string, w: World)
    requires Default(cfg, default)
    ensures var k := KeyOf(r, default);
            Admit(cfg, s, r, default, w) == Admitted(k) <==>
              ValidUsername(k.name) && r.hash != "" && k.domain != "" && Known(cfg, s, k.domain) &&
              Allowed(Lookup(cfg, s.mem.domains, k.domain).value, r.secret) && Free(s, k) && ProvenIdentity(r, w)
    ensures Admit(cfg, s, r, default, w).Admitted? ==> Admit(cfg, s, r, default, w) == Admitted(KeyOf(r, default))
  {
  }

  /** A provision is answered with success exactly when the tidied name is valid and free, the domain is known and accepts
      the request, a credential and, if claimed, a proven identity come with it, and the credential can be written. */
  lemma CreatedExactly(cfg: Config, s: State, q: Request, default: string, w: World)
    requires Default(cfg, default)
    ensures var r := Tidied(q); var k := KeyOf(r, default);
            Provision(cfg, s, q, default, w).1.Created? <==>
              ValidUsername(k.name) && r.hash != "" && k.domain != "" && Known(cfg, s, k.domain) &&
              Allowed(Lookup(cfg, s.mem.domains, k.domain).value, r.secret) && Free(s, k) && ProvenIdentity(r, w) &&
              w.writes && !Blocked(s.disk.entries, k)
  {
    AdmittedExactly(cfg, s, Tidied(q), default, w);
    RefusedIsNotCreated(cfg, s, Tidied(q), default, w);
  }

  lemma RefusedIsNotCreated(cfg: Config, s: State, r: Request, default: string, w: World)
    requires Default(cfg, default)
    ensures Admit(cfg, s, r, default, w).Refused? ==> !Admit(cfg, s, r, default, w).response.Created?
  {
  }

  // ----- the life of a credential --------------------------------------------

  /** The credential a step writes for l, if it writes one. */
  function Writes(cfg: Config, s: State, step: Step, l: Key): Option<string> {
    match step
    case Provisioning(r, d, w) =>
      if Default(cfg, d) && Admit(cfg, s, Tidied(r), d, w) == Admitted(l) then Written(s, r, w, l) else None
    case Finishing(k, r, w) => if k == l && Finishable(cfg, s, k) then Written(s, r, w, l) else None
    case _ => None
  }

  function Written(s: State, r: Request, w: World, l: Key): Option<string> {
    if w.writes && !Blocked(s.disk.entries, l) then Some(Trim(r.hash)) else None
  }

  /** Does a step remove the directory of l? */
  predicate TakesAway(cfg: Config, s: State, step: Step, l: Key) {
    match step
    case Deletion(v, u, p, removes) => removes && DeletesDirectory(cfg, s, Authenticate(cfg, s, v, u, p), l)
    case Purge(peers, cutoff, stuck) => Removal.Expired(cfg, s.disk, peers, cutoff, l) && l !in stuck
    case _ => false
  }

  predicate DeletesDirectory(cfg: Config, s: State, auth: Option<Key>, l: Key) {
    match auth
    case None => false
    case Some(k) => !IsConfigured(cfg, s, k) && Place(s.disk.root, k) == Some(l)
  }

  lemma FinishHash(s: State, k: Key, r: Request, w: World, l: Key)
    ensures AuthHash(Finish(s, k, r, w).0.disk.entries, l) ==
            if k == l && Written(s, r, w, l).Some? then Written(s, r, w, l).value else AuthHash(s.disk.entries, l)
  {
    if k == l {
      ProvisionHash(s.disk.entries, k, r, w);
    } else {
      OtherHash(s.disk.entries, k, l, r, w);
    }
  }

  lemma ProvisionedHash(cfg: Config, s: State, r: Request, d: string, w: World, l: Key)
    requires Default(cfg, d)
    ensures AuthHash(Provision(cfg, s, r, d, w).0.disk.entries, l) ==
            match Writes(cfg, s, Provisioning(r, d, w), l) case Some(h) => h case None => AuthHash(s.disk.entries, l)
  {
    hide Admit, Tidied, AuthHash, Finish, Written;
    var a := Admit(cfg, s, Tidied(r), d, w);
    if a.Admitted? {
      FinishHash(s, a.key, r, w, l);
    }
  }

  lemma RemovedHash(s: State, gone: set<Key>, lost: set<Key>, l: Key)
    ensures AuthHash(Removed(s, gone, lost).disk.entries, l) == if l in lost then "" else AuthHash(s.disk.entries, l)
  {
  }

  lemma DeletedHash(cfg: Config, s: State, auth: Option<Key>, removes: bool, l: Key)
    ensures AuthHash(DeleteAs(cfg, s, auth, removes).0.disk.entries, l) ==
            if removes && DeletesDirectory(cfg, s, auth, l) then "" else AuthHash(s.disk.entries, l)
  {
    hide AuthHash, Evicted, Place, IsConfigured;
    if auth.Some? {
      RemovedHash(s, {auth.value}, if removes then Target(s.disk.root, auth.value) else {}, l);
    }
  }

  lemma SweptHash(cfg: Config, s: State, peers: seq<map<Key, Entry>>, cutoff: int, stuck: set<Key>, l: Key)
    ensures AuthHash(Sweep(cfg, s, peers, cutoff, stuck).disk.entries, l) ==
            if Removal.Expired(cfg, s.disk, peers, cutoff, l) && l !in stuck then "" else AuthHash(s.disk.entries, l)
  {
    var gone := PurgedKeys(cfg, s.disk.entries, peers, cutoff);
    Removal.ExpiredIsPurged(cfg, s.disk, peers, cutoff, l);
    RemovedHash(s, gone, gone - stuck, l);
  }

  lemma RestartedHash(cfg: Config, s: State, l: Key)
    requires Inv(cfg, s)
    ensures AuthHash(Booted(cfg, s.disk).disk.entries, l) == AuthHash(s.disk.entries, l)
  {
    if l in s.disk.entries {
      assert Known(cfg, s, l.domain);
    }
    CleanupKeepsCredentials(cfg, s.mem.domains, s.disk.entries);
  }

  /** The credential of every account after every step: the one the step writes, none if the step removes its directory,
      otherwise the one before. So nothing else, a restart included, changes or forgets one. */
  lemma CredentialAfter(cfg: Config, s: State, step: Step, l: Key)
    requires Inv(cfg, s)
    ensures AuthHash(Next(cfg, s, step).disk.entries, l) ==
            match Writes(cfg, s, step, l)
            case Some(h) => h
            case None => if TakesAway(cfg, s, step, l) then "" else AuthHash(s.disk.entries, l)
  {
    hide Inv, AuthHash, Admit, Provision, Finish, DeleteAs, DeletesDirectory, Authenticate, Sweep, AddDomain, MakeDomainDir,
      Write, Booted, Tidied, Written;
    match step
    case Provisioning(r, d, w) =>
      if Default(cfg, d) {
        ProvisionedHash(cfg, s, r, d, w, l);
      }
    case Finishing(k, r, w) => FinishHash(s, k, r, w, l);
    case Deletion(v, u, p, removes) => DeletedHash(cfg, s, Authenticate(cfg, s, v, u, p), removes, l);
    case Purge(peers, cutoff, stuck) => SweptHash(cfg, s, peers, cutoff, stuck, l);
    case DomainAddition(n, proven, secret, writes) => DomainShape(s, n, proven, secret, writes);
    case DomainToken(n) => DomainShape(s, n, false, "", false);
    case FileWrite(k, n, f) => WriteHash(cfg, s, k, n, f, l);
    case Restart => RestartedHash(cfg, s, l);
  }

  /** A provision checked and written in one step takes over no name. */
  lemma ProvisionIsFresh(cfg: Config, s: State, r: Request, d: string, w: World, l: Key)
    ensures Writes(cfg, s, Provisioning(r, d, w), l).Some? ==> AuthHash(s.disk.entries, l) == ""
  {
    hide Admit, AuthHash, Tidied, Written;
    if Writes(cfg, s, Provisioning(r, d, w), l).Some? {
      AdmittedKey(cfg, s, Tidied(r), d, w);
    }
  }

  // ----- provisions that interleave ------------------------------------------

  /** Is there a credential for l after these steps? */
  ghost predicate HeldAfter(cfg: Config, s: State, steps: seq<Step>, l: Key, held: bool)
    decreases |steps|
  {
    if steps == [] then held
    else HeldAfter(cfg, Next(cfg, s, steps[0]), steps[1..], l,
                   match Writes(cfg, s, steps[0], l)
                   case Some(h) => h != ""
                   case None => held && !TakesAway(cfg, s, steps[0], l))
  }

  lemma {:induction false} HeldExactly(cfg: Config, s: State, steps: seq<Step>, l: Key)
    requires Inv(cfg, s)
    ensures AuthHash(Run(cfg, s, steps).disk.entries, l) != "" <==>
            HeldAfter(cfg, s, steps, l, AuthHash(s.disk.entries, l) != "")
    decreases |steps|
  {
    if steps != [] {
      CredentialAfter(cfg, s, steps[0], l);
      StepInv(cfg, s, steps[0]);
      HeldExactly(cfg, Next(cfg, s, steps[0]), steps[1..], l);
    }
  }

  /** A provision that other requests come in between: admitted in s, it finishes after some steps. It overwrites a
      credential exactly when, since its check, another provision of the same name wrote one that nothing has removed. */
  lemma OverwritesExactly(cfg: Config, s: State, r: Request, d: string, w: World, steps: seq<Step>)
    requires Inv(cfg, s) && Default(cfg, d)
    ensures var a := Admit(cfg, s, Tidied(r), d, w);
            a.Admitted? ==>
              (AuthHash(Run(cfg, s, steps).disk.entries, a.key) != "" <==> HeldAfter(cfg, s, steps, a.key, false))
  {
    hide Admit, Inv, AuthHash, Run, HeldAfter, Default, Tidied;
    var a := Admit(cfg, s, Tidied(r), d, w);
    if a.Admitted? {
      AdmittedKey(cfg, s, Tidied(r), d, w);
      HeldExactly(cfg, s, steps, a.key);
    }
  }

  // ----- logins --------------------------------------------------------------

  predicate SameRegistry(s: State, t: State) {
    t.mem.domains == s.mem.domains && t.disk.root == s.disk.root
  }

  lemma FinishRegistry(s: State, a: Admission, r: Request, w: World)
    ensures a.Admitted? ==> SameRegistry(s, Finish(s, a.key, r, w).0)
  {
  }

  lemma ProvisionRegistry(cfg: Config, s: State, r: Request, d: string, w: World)
    requires Default(cfg, d)
    ensures SameRegistry(s, Provision(cfg, s, r, d, w).0)
  {
    hide Admit, Tidied, Registered;
    FinishRegistry(s, Admit(cfg, s, Tidied(r), d, w), r, w);
  }

  lemma DeleteRegistry(cfg: Config, s: State, auth: Option<Key>, removes: bool)
    ensures SameRegistry(s, DeleteAs(cfg, s, auth, removes).0)
  {
  }

  lemma WriteRegistry(cfg: Config, s: State, k: Key, n: string, f: File)
    ensures SameRegistry(s, Write(cfg, s, k, n, f))
  {
  }

  lemma SweepRegistry(cfg: Config, s: State, peers: seq<map<Key, Entry>>, cutoff: int, stuck: set<Key>)
    ensures SameRegistry(s, Sweep(cfg, s, peers, cutoff, stuck))
  {
    hide PurgedKeys;
  }

  lemma RestartRegistry(cfg: Config, s: State)
    requires Inv(cfg, s)
    ensures SameRegistry(s, Booted(cfg, s.disk))
  {
    hide Cleaned, Recoverable, BaseStores, BaseAliases, Directories, Selves, Emails;
  }

  /** A domain once known stays known, and the data directory stays where it is. */
  lemma StepKeepsDomains(cfg: Config, s: State, step: Step, d: string)
    requires Inv(cfg, s) && Known(cfg, s, d)
    ensures Known(cfg, Next(cfg, s, step), d) && Next(cfg, s, step).disk.root == s.disk.root
  {
    hide Inv, Admit, Provision, Finish, DeleteAs, Authenticate, Sweep, AddDomain, MakeDomainDir, Write, Booted, Tidied;
    match step
    case Provisioning(r, e, w) =>
      if Default(cfg, e) {
        ProvisionRegistry(cfg, s, r, e, w);
      }
    case Finishing(k, r, w) => FinishRegistry(s, Admitted(k), r, w);
    case Deletion(v, u, p, removes) => DeleteRegistry(cfg, s, Authenticate(cfg, s, v, u, p), removes);
    case Purge(peers, cutoff, stuck) => SweepRegistry(cfg, s, peers, cutoff, stuck);
    case DomainAddition(n, proven, secret, writes) => DomainShape(s, n, proven, secret, writes);
    case DomainToken(n) => DomainShape(s, n, false, "", false);
    case FileWrite(k, n, f) => WriteRegistry(cfg, s, k, n, f);
    case Restart => RestartRegistry(cfg, s);
  }

  /** No step of the run writes or removes the credential in directory l. */
  ghost predicate LeftAlone(cfg: Config, s: State, steps: seq<Step>, l: Key)
    decreases |steps|
  {
    steps != [] ==>
      Writes(cfg, s, steps[0], l).None? && !TakesAway(cfg, s, steps[0], l) &&
      LeftAlone(cfg, Next(cfg, s, steps[0]), steps[1..], l)
  }

  lemma SameLogin(cfg: Config, s: State, t: State, verify: Verifier, u: string, p: string, k: Key)
    requires Authenticate(cfg, s, verify, u, p) == Some(k) && Known(cfg, t, k.domain)
    requires HashAt(t.disk, k) == HashAt(s.disk, k)
    ensures Authenticate(cfg, t, verify, u, p) == Some(k)
  {
  }

  /** A login that works keeps working, as the same account, over every run of provisions, deletions, purges, domain
      registrations, file writes and restarts, until a step writes or removes the credential in the directory its name
      reaches. */
  lemma {:induction false} LoginLasts(cfg: Config, s: State, steps: seq<Step>, verify: Verifier, u: string, p: string, k: Key)
    requires WellFormed(cfg) && Inv(cfg, s) && Authenticate(cfg, s, verify, u, p) == Some(k)
    requires Place(s.disk.root, k).Some? ==> LeftAlone(cfg, s, steps, Place(s.disk.root, k).value)
    ensures Authenticate(cfg, Run(cfg, s, steps), verify, u, p) == Some(k)
    decreases |steps|
  {
    if steps != [] {
      var t := Next(cfg, s, steps[0]);
      AuthenticatedPlace(cfg, s, verify, u, p);
      StepInv(cfg, s, steps[0]);
      CredentialAfter(cfg, s, steps[0], Place(s.disk.root, k).value);
      StepKeepsDomains(cfg, s, steps[0], k.domain);
      SameLogin(cfg, s, t, verify, u, p, k);
      LoginLasts(cfg, t, steps[1..], verify, u, p, k);
    }
  }
}
