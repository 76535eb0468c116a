/** What holds of the registry in every reachable state, and when a restart brings the live memory back. */
module RegistryProof {
  import opened Text
  import opened Registry
  import Base64

  // ----- addresses -----------------------------------------------------------

  /** Joining localpart and domain is injective when domains hold no '@'. */
  lemma EmailInjective(k: Key, l: Key)
    requires '@' !in k.domain && '@' !in l.domain && Email(k) == Email(l)
    ensures k == l
  {
    var s := Email(k);
    LastAt(s, k.name, k.domain, |l.name|);
    LastAt(s, l.name, l.domain, |k.name|);
    assert s[|l.name|] == '@' && s[|k.name|] == '@';
    assert s[..|k.name|] == k.name && s[|k.name| + 1..] == k.domain;
    assert s[..|l.name|] == l.name && s[|l.name| + 1..] == l.domain;
  }

  lemma LastAt(s: string, a: string, b: string, i: nat)
    requires s == a + "@" + b && '@' !in b
    ensures |a| < i < |s| ==> s[i] != '@'
  {
  }

  /** Splitting an address at its first '@' undoes joining it. */
  lemma SplitEmail(k: Key)
    requires '@' !in k.name
    ensures Cut(Email(k), "@") == (k.name, Some(k.domain))
  {
    ContainsChar(k.name, '@');
    CutAt(k.name, "@", k.domain);
  }

  lemma JoinCut(s: string)
    ensures Cut(s, "@").1.Some? ==> Email(Key(Cut(s, "@").1.value, Cut(s, "@").0)) == s
  {
  }

  // ----- the invariant -------------------------------------------------------

  ghost predicate Known(cfg: Config, s: State, d: string) {
    Lookup(cfg, s.mem.domains, d).Some?
  }

  /** A dynamic account has a name that is one path component, under a known domain. */
  ghost predicate Listed(cfg: Config, s: State, u: string) {
    exists k :: Email(k) == u && Component(k.name) && Known(cfg, s, k.domain)
  }

  /** Kept by every step, whatever fails: alias targets and dynamic accounts have stores, dynamic accounts have clean
      names, every directory is under a known domain, and the registry in memory is the one on disk. */
  ghost predicate Inv(cfg: Config, s: State) {
    (forall a | a in s.mem.aliases :: s.mem.aliases[a] in s.mem.stores) &&
    s.mem.dyn <= s.mem.stores.Keys &&
    (forall u | u in s.mem.dyn :: Listed(cfg, s, u)) &&
    (forall k | k in s.disk.entries :: Known(cfg, s, k.domain)) &&
    s.mem.domains == Loaded(s.disk.domains) && OnDisk(s.disk)
  }

  /** The dynamic accounts a restart would find. */
  function Credentialed(cfg: Config, s: State): set<Key> {
    Recoverable(cfg, s.mem.domains, s.disk.entries)
  }

  lemma DomainsPlain(cfg: Config, s: State, k: Key)
    requires WellFormed(cfg) && Inv(cfg, s) && k in s.disk.entries
    ensures '@' !in k.domain
  {
  }

  // ----- cleanup and restart -------------------------------------------------

  /** Cleanup removes no directory with a credential under a known domain, and what the scan finds is the same before
      and after cleanup. */
  lemma CleanupKeepsCredentials(cfg: Config, domains: map<string, DomainConfig>, entries: map<Key, Entry>)
    ensures var cleaned := Cleaned(cfg, domains, entries);
            (forall k: Key :: Lookup(cfg, domains, k.domain).Some? && AuthHash(entries, k) != "" ==>
                         k in cleaned && cleaned[k] == entries[k]) &&
            Recoverable(cfg, domains, cleaned) == Recoverable(cfg, domains, entries)
  {
  }

  lemma CleanupTwice(cfg: Config, domains: map<string, DomainConfig>, entries: map<Key, Entry>)
    ensures Cleaned(cfg, domains, Cleaned(cfg, domains, entries)) == Cleaned(cfg, domains, entries)
  {
  }

  /** A restart computes its memory from the credentialed directories. */
  lemma BootedMemory(cfg: Config, s: State)
    requires s.mem.domains == Loaded(s.disk.domains)
    ensures Booted(cfg, s.disk).mem == Assembled(cfg, Credentialed(cfg, s), s.mem.domains)
  {
    CleanupKeepsCredentials(cfg, s.mem.domains, s.disk.entries);
  }

  /** Restarting twice is restarting once. */
  lemma RestartTwice(cfg: Config, disk: Disk)
    ensures Booted(cfg, Booted(cfg, disk).disk) == Booted(cfg, disk)
    ensures Agrees(cfg, Booted(cfg, disk))
  {
    CleanupTwice(cfg, Loaded(disk.domains), disk.entries);
  }

  // ----- the static part -----------------------------------------------------

  lemma PrimaryOf(cfg: Config, name: string)
    requires name in BaseNames(cfg)
    ensures BaseAliases(cfg)[name] in BaseStores(cfg)
  {
    var k := Owner(cfg, name);
    assert Primary(k) in Names(cfg, k);
  }

  lemma BaseIsSound(cfg: Config)
    ensures forall name | name in BaseAliases(cfg) :: BaseAliases(cfg)[name] in BaseStores(cfg)
  {
    forall name | name in BaseAliases(cfg) ensures BaseAliases(cfg)[name] in BaseStores(cfg) {
      PrimaryOf(cfg, name);
    }
  }

  lemma AssembledIsSound(cfg: Config, ks: set<Key>, domains: map<string, DomainConfig>)
    ensures var m := Assembled(cfg, ks, domains);
            (forall a | a in m.aliases :: m.aliases[a] in m.stores) && m.dyn <= m.stores.Keys
  {
    BaseIsSound(cfg);
    hide BaseStores, BaseAliases, BaseNames, KeyFor;
  }

  /** Startup from any disk establishes the invariant. */
  lemma BootInv(cfg: Config, disk: Disk)
    requires OnDisk(disk)
    ensures Inv(cfg, Booted(cfg, disk))
  {
    hide BaseStores, BaseAliases, Directories, Selves;
    var s := Booted(cfg, disk);
    var ks := Recoverable(cfg, Loaded(disk.domains), Cleaned(cfg, Loaded(disk.domains), disk.entries));
    AssembledIsSound(cfg, ks, Loaded(disk.domains));
    forall u | u in s.mem.dyn ensures Listed(cfg, s, u) {
      var k :| k in ks && Email(k) == u;
      assert Component(k.name) && Known(cfg, s, k.domain);
    }
  }

  // ----- single steps --------------------------------------------------------

  lemma ScannedIsThere(cfg: Config, domains: map<string, DomainConfig>, entries: map<Key, Entry>, k: Key)
    ensures k in Recoverable(cfg, domains, entries) <==> Scanned(cfg, domains, entries, k)
  {
  }

  /** Removing an entry or changing other files does not change which directories a restart finds. */
  lemma SameCredentials(cfg: Config, domains: map<string, DomainConfig>, domains': map<string, DomainConfig>,
                        entries: map<Key, Entry>, entries': map<Key, Entry>)
    requires forall k: Key :: AuthHash(entries, k) == AuthHash(entries', k)
    requires forall k | k in entries :: Lookup(cfg, domains, k.domain).Some?
    requires forall d | d in domains :: d in domains'
    ensures Recoverable(cfg, domains, entries) == Recoverable(cfg, domains', entries')
  {
  }

  lemma RemovalCredentials(cfg: Config, domains: map<string, DomainConfig>, entries: map<Key, Entry>, gone: set<Key>)
    ensures Recoverable(cfg, domains, entries - gone) == Recoverable(cfg, domains, entries) - gone
  {
  }

  lemma OtherFile(files: map<string, File>, name: string, f: File)
    requires name != HASH_FILE
    ensures HashIn(files[name := f]) == HashIn(files)
  {
  }

  lemma WriteHashes(cfg: Config, s: State, k: Key, name: string, f: File)
    ensures forall l: Key :: AuthHash(Write(cfg, s, k, name, f).disk.entries, l) == AuthHash(s.disk.entries, l)
  {
    forall l: Key ensures AuthHash(Write(cfg, s, k, name, f).disk.entries, l) == AuthHash(s.disk.entries, l) {
      WriteHash(cfg, s, k, name, f, l);
    }
  }

  lemma WriteHash(cfg: Config, s: State, k: Key, name: string, f: File, l: Key)
    ensures AuthHash(Write(cfg, s, k, name, f).disk.entries, l) == AuthHash(s.disk.entries, l)
  {
    if name != HASH_FILE && l == k {
      OtherFile(Files(s.disk.entries, k), name, f);
    }
  }

  lemma CredentialFile(files: map<string, File>, r: Request, now: int)
    ensures HashIn(WithCredential(files, r, now)) == Trim(r.hash)
  {
    assert HASH_FILE[0] == 'a' && ENVELOPE_FILE[0] == 'e';
  }

  lemma FilesWritten(entries: map<Key, Entry>, k: Key, files: map<string, File>)
    ensures Files(entries[k := Directory(files)], k) == files
  {
  }

  lemma ProvisionHash(entries: map<Key, Entry>, k: Key, r: Request, w: World)
    ensures AuthHash(Registry.Credentialed(entries, k, r, w), k) == Trim(r.hash)
  {
    var files := WithCredential(Files(entries, k), r, w.now);
    CredentialFile(Files(entries, k), r, w.now);
    FilesWritten(entries, k, files);
  }

  lemma OtherHash(entries: map<Key, Entry>, k: Key, l: Key, r: Request, w: World)
    requires l != k
    ensures AuthHash(Registry.Credentialed(entries, k, r, w), l) == AuthHash(entries, l)
  {
  }

  lemma AdmittedKey(cfg: Config, s: State, r: Request, d: string, w: World)
    requires Default(cfg, d) && Admit(cfg, s, r, d, w).Admitted?
    ensures var k := Admit(cfg, s, r, d, w).key;
            Finishable(cfg, s, k) && Email(k) !in s.mem.dyn && AuthHash(s.disk.entries, k) == "" && '@' !in k.name
  {
  }

  /** The domain a custom registration names is a path component without '@'. */
  lemma CustomDomainPlain(d: string)
    requires ValidCustomDomain(d)
    ensures PlainDomain(d)
  {
    var labels := Split(d, ".");
    forall i, c | 0 <= i < |labels| && c in labels[i] ensures c != '@' && c != '/' {
      if i < |labels| - 1 {
        assert ValidLabel(labels[i]);
      }
    }
    PiecesCover(d, ".", '@');
    PiecesCover(d, ".", '/');
    assert ValidLabel(labels[0]);
    assert labels[0][0] == d[0];
  }

  lemma {:induction false} PiecesCover(s: string, sep: string, c: char)
    requires sep != "" && c !in sep
    requires forall i | 0 <= i < |Split(s, sep)| :: c !in Split(s, sep)[i]
    ensures c !in s
    decreases |s|
  {
    var i := Index(s, sep);
    var parts := Split(s, sep);
    assert c !in parts[0];
    if i >= 0 {
      var t := s[i + |sep|..];
      forall j | 0 <= j < |Split(t, sep)| ensures c !in Split(t, sep)[j] {
        assert parts[j + 1] == Split(t, sep)[j];
      }
      PiecesCover(t, sep, c);
      assert s[i..i + |sep|] == sep;
      assert s == s[..i] + sep + t;
    }
  }

  /** Domains stay known and dynamic accounts stay listed while the registry grows. */
  lemma StillListed(cfg: Config, s: State, t: State)
    requires Inv(cfg, s) && t.mem.dyn <= s.mem.dyn && forall d :: Known(cfg, s, d) ==> Known(cfg, t, d)
    ensures forall u | u in t.mem.dyn :: Listed(cfg, t, u)
  {
    forall u | u in t.mem.dyn ensures Listed(cfg, t, u) {
      assert Listed(cfg, s, u);
      var k :| Email(k) == u && Component(k.name) && Known(cfg, s, k.domain);
      assert Known(cfg, t, k.domain);
    }
  }

  lemma UsernamePlain(u: string)
    requires ValidUsername(u)
    ensures '@' !in u && Component(u)
  {
  }

  lemma RegisteredInv(cfg: Config, s: State, k: Key, r: Request, w: World)
    requires Inv(cfg, s) && Known(cfg, s, k.domain) && Component(k.name)
    ensures Inv(cfg, Registered(s, k, r, w))
  {
    var t := Registered(s, k, r, w);
    forall u | u in t.mem.dyn ensures Listed(cfg, t, u) {
      if u in s.mem.dyn {
        var l :| Email(l) == u && Component(l.name) && Known(cfg, s, l.domain);
        assert Known(cfg, t, l.domain);
      } else {
        assert Email(k) == u && Known(cfg, t, k.domain);
      }
    }
    forall l | l in t.disk.entries ensures Known(cfg, t, l.domain) && Component(l.name) {
      assert l != k ==> Known(cfg, s, l.domain);
    }
  }

  lemma FinishInv(cfg: Config, s: State, k: Key, r: Request, w: World)
    requires Inv(cfg, s) && Finishable(cfg, s, k)
    ensures Inv(cfg, Finish(s, k, r, w).0)
  {
    UsernamePlain(k.name);
    RegisteredInv(cfg, s, k, r, w);
  }

  lemma ProvisionInv(cfg: Config, s: State, r: Request, d: string, w: World)
    requires Inv(cfg, s) && Default(cfg, d)
    ensures Inv(cfg, Provision(cfg, s, r, d, w).0)
  {
    hide Inv, Admit, Finish, Finishable;
    var a := Admit(cfg, s, Tidied(r), d, w);
    if a.Admitted? {
      AdmittedKey(cfg, s, Tidied(r), d, w);
      FinishInv(cfg, s, a.key, r, w);
    }
  }

  lemma RemovedInv(cfg: Config, s: State, gone: set<Key>, lost: set<Key>)
    requires Inv(cfg, s)
    ensures Inv(cfg, Removed(s, gone, lost))
  {
    var t := Removed(s, gone, lost);
    StillListed(cfg, s, t);
    forall a | a in t.mem.aliases ensures t.mem.aliases[a] in t.mem.stores {
      assert !Evicts(Emails(gone), a, s.mem.aliases[a]);
    }
    forall k | k in t.disk.entries ensures Known(cfg, t, k.domain) {
      assert Known(cfg, s, k.domain);
    }
  }

  lemma DeleteInv(cfg: Config, s: State, auth: Option<Key>, removes: bool)
    requires Inv(cfg, s)
    ensures Inv(cfg, DeleteAs(cfg, s, auth, removes).0)
  {
    if auth.Some? {
      RemovedInv(cfg, s, {auth.value}, if removes then Target(s.disk.root, auth.value) else {});
    }
  }

  lemma WithDomainInv(cfg: Config, s: State, d: string, dc: DomainConfig)
    requires Inv(cfg, s) && PlainDomain(d)
    ensures Inv(cfg, WithDomain(s, d, dc))
    ensures d !in s.disk.domains ==> Inv(cfg, WithDomainDir(s, d))
  {
    var t, u := WithDomain(s, d, dc), WithDomainDir(s, d);
    StillListed(cfg, s, t);
    assert t.mem.domains == Loaded(t.disk.domains);
    forall k | k in t.disk.entries ensures Known(cfg, t, k.domain) {
      assert Known(cfg, s, k.domain);
    }
    if d !in s.disk.domains {
      assert u.mem.domains == Loaded(u.disk.domains);
      StillListed(cfg, s, u);
      forall k | k in u.disk.entries ensures Known(cfg, u, k.domain) {
        assert Known(cfg, s, k.domain);
      }
    }
  }

  lemma DomainInv(cfg: Config, s: State, n: string, proven: bool, secret: string, writes: bool)
    requires Inv(cfg, s)
    ensures Inv(cfg, AddDomain(s, n, proven, secret, writes).0) && Inv(cfg, MakeDomainDir(s, n))
  {
    if ValidCustomDomain(Tidy(n)) {
      CustomDomainPlain(Tidy(n));
      WithDomainInv(cfg, s, Tidy(n), DomainConfig(map[], false, secret));
    }
  }

  lemma WriteInv(cfg: Config, s: State, k: Key, n: string, f: File)
    requires Inv(cfg, s)
    ensures Inv(cfg, Write(cfg, s, k, n, f))
  {
    var t := Write(cfg, s, k, n, f);
    StillListed(cfg, s, t);
    forall l | l in t.disk.entries ensures Known(cfg, t, l.domain) && Component(l.name) {
      assert l != k ==> Known(cfg, s, l.domain);
    }
  }

  lemma SweepInv(cfg: Config, s: State, peers: seq<map<Key, Entry>>, cutoff: int, stuck: set<Key>)
    requires Inv(cfg, s)
    ensures Inv(cfg, Sweep(cfg, s, peers, cutoff, stuck))
  {
    var gone := PurgedKeys(cfg, s.disk.entries, peers, cutoff);
    RemovedInv(cfg, s, gone, gone - stuck);
  }

  lemma RestartInv(cfg: Config, s: State)
    requires Inv(cfg, s)
    ensures Inv(cfg, Booted(cfg, s.disk))
  {
    BootInv(cfg, s.disk);
  }

  /** Registry well-formedness is kept by every step, whatever input and whatever fails. */
  lemma StepInv(cfg: Config, s: State, step: Step)
    requires Inv(cfg, s)
    ensures Inv(cfg, Next(cfg, s, step))
  {
    hide Inv, Admit, Provision, Finish, DeleteAs, Authenticate, Removed, AddDomain, MakeDomainDir, Write, Booted, OnDisk;
    match step
    case Provisioning(r, d, w) =>
      if Default(cfg, d) {
        ProvisionInv(cfg, s, r, d, w);
      }
    case Finishing(k, r, w) =>
      if Finishable(cfg, s, k) {
        FinishInv(cfg, s, k, r, w);
      }
    case Deletion(v, u, p, removes) =>
      DeleteInv(cfg, s, Authenticate(cfg, s, v, u, p), removes);
    case Purge(peers, cutoff, stuck) => SweepInv(cfg, s, peers, cutoff, stuck);
    case DomainAddition(n, proven, secret, writes) => DomainInv(cfg, s, n, proven, secret, writes);
    case DomainToken(n) => DomainInv(cfg, s, n, false, "", false);
    case FileWrite(k, n, f) => WriteInv(cfg, s, k, n, f);
    case Restart => RestartInv(cfg, s);
  }

  lemma {:induction false} RunInv(cfg: Config, s: State, steps: seq<Step>)
    requires Inv(cfg, s)
    ensures Inv(cfg, Run(cfg, s, steps))
    decreases |steps|
  {
    if steps != [] {
      StepInv(cfg, s, steps[0]);
      RunInv(cfg, Next(cfg, s, steps[0]), steps[1..]);
    }
  }

  /** From startup on any disk, over every run. */
  lemma ReachableInv(cfg: Config, disk: Disk, steps: seq<Step>)
    requires OnDisk(disk)
    ensures Inv(cfg, Run(cfg, Booted(cfg, disk), steps))
  {
    BootInv(cfg, disk);
    RunInv(cfg, Booted(cfg, disk), steps);
  }
}
