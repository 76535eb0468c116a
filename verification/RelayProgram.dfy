/** The running relay: the handler's maps, the custom-domain registry and the data directory, updated in place by
    startup and by each request. Go's map iteration has no order; every loop over a map or a directory here visits
    its elements in an arbitrary one. */
module RelayProgram {
  import opened Text
  import opened Registry
  import opened RegistryProof
  import opened RestartProof

  lemma EvictedTwice(m: Memory, es: set<string>, e: string)
    ensures Evicted(Evicted(m, es), {e}) == Evicted(m, es + {e})
  {
  }

  lemma BootPlain(cfg: Config, disk: Disk)
    requires WellFormed(cfg) && OnDisk(disk)
    ensures var domains := Loaded(disk.domains);
            Plain(Recoverable(cfg, domains, Cleaned(cfg, domains, disk.entries)))
  {
  }

  function Const(names: set<string>, v: string): map<string, string> {
    map n | n in names :: v
  }

  /** The part of the static alias map, and of the static stores, that some accounts make up. */
  ghost function OwnedAliases(cfg: Config, ks: set<Key>): map<string, string> {
    map n | n in BaseNames(cfg) && Owner(cfg, n) in ks :: Primary(Owner(cfg, n))
  }

  ghost function OwnedStores(cfg: Config, ks: set<Key>): map<string, Key> {
    Within(BaseStores(cfg), ks)
  }

  function Within(stores: map<string, Key>, ks: set<Key>): map<string, Key> {
    map p | p in stores && stores[p] in ks :: stores[p]
  }

  lemma WithinGrows(stores: map<string, Key>, ks: set<Key>, k: Key, p: string)
    requires p in stores && stores[p] == k && forall q | q in stores && stores[q] == k :: q == p
    ensures Within(stores, ks + {k}) == Within(stores, ks)[p := k]
  {
  }

  lemma OwnerIs(cfg: Config, k: Key, name: string)
    requires WellFormed(cfg) && IsStatic(cfg, k) && name in Names(cfg, k)
    ensures name in BaseNames(cfg) && Owner(cfg, name) == k
  {
    assert Answers(cfg, k, name) && k in StaticKeys(cfg);
  }

  lemma OwnerAnswers(cfg: Config, name: string)
    requires name in BaseNames(cfg)
    ensures IsStatic(cfg, Owner(cfg, name)) && name in Names(cfg, Owner(cfg, name))
  {
  }

  /** A map that has more names than another, all of them with one value. */
  lemma MapGrows<V>(small: map<string, V>, big: map<string, V>, extra: set<string>, v: V)
    requires forall n :: n in big <==> n in small || n in extra
    requires forall n | n in extra :: big[n] == v
    requires forall n | n in small && n !in extra :: big[n] == small[n]
    ensures big == small + map n | n in extra :: v
  {
  }

  lemma StaticStep(cfg: Config, done: set<Key>, k: Key)
    requires WellFormed(cfg) && k in StaticKeys(cfg)
    ensures OwnedAliases(cfg, done + {k}) == OwnedAliases(cfg, done) + Const(Names(cfg, k), Primary(k))
    ensures OwnedStores(cfg, done + {k}) == OwnedStores(cfg, done)[Primary(k) := k]
  {
    var small, big, extra := OwnedAliases(cfg, done), OwnedAliases(cfg, done + {k}), Names(cfg, k);
    forall n | n in extra ensures n in big && big[n] == Primary(k) {
      OwnerIs(cfg, k, n);
    }
    forall n ensures n in big <==> n in small || n in extra {
      if n in big && n !in small {
        OwnerAnswers(cfg, n);
      }
    }
    MapGrows(small, big, extra, Primary(k));
    StoresStep(cfg, done, k);
  }

  lemma PrimaryIs(cfg: Config, p: string)
    requires WellFormed(cfg) && p in BaseStores(cfg)
    ensures p == Primary(BaseStores(cfg)[p])
  {
    var l :| l in StaticKeys(cfg) && Primary(l) == p;
    OwnerIs(cfg, l, p);
  }

  lemma PrimaryStored(cfg: Config, k: Key)
    requires WellFormed(cfg) && k in StaticKeys(cfg)
    ensures Primary(k) in BaseStores(cfg) && BaseStores(cfg)[Primary(k)] == k
  {
    OwnerIs(cfg, k, Primary(k));
  }

  lemma StoresStep(cfg: Config, done: set<Key>, k: Key)
    requires WellFormed(cfg) && k in StaticKeys(cfg)
    ensures OwnedStores(cfg, done + {k}) == OwnedStores(cfg, done)[Primary(k) := k]
  {
    PrimaryStored(cfg, k);
    forall p | p in BaseStores(cfg) ensures p == Primary(BaseStores(cfg)[p]) {
      PrimaryIs(cfg, p);
    }
    WithinGrows(BaseStores(cfg), done, k, Primary(k));
  }

  lemma AllOwned(cfg: Config, all: set<Key>)
    requires all == StaticKeys(cfg)
    ensures OwnedAliases(cfg, all) == BaseAliases(cfg) && OwnedStores(cfg, all) == BaseStores(cfg)
  {
  }

  lemma ScanTest(cfg: Config, domains: map<string, DomainConfig>, entries: map<Key, Entry>, k: Key)
    requires k in entries && Lookup(cfg, domains, k.domain).Some?
    ensures k in Recoverable(cfg, domains, entries) <==>
            entries[k].Directory? && k.name != PEERS && !IsStatic(cfg, k) && AuthHash(entries, k) != ""
  {
  }

  function InDomain(ks: set<Key>, d: string): set<Key> {
    set k | k in ks && k.domain == d
  }

  lemma VisitOne(done: set<Key>, found: set<Key>, todo: set<Key>, k: Key)
    requires k in todo
    ensures done + (found - (todo - {k})) == if k in found then done + (found - todo) + {k} else done + (found - todo)
  {
  }

  lemma SurvivingOne(before: map<string, string>, after: map<string, string>, email: string)
    requires forall a | a in after :: a in before && after[a] == before[a]
    requires forall a | a in before :: a in after <==> !(before[a] == email || EqualFold(a, email))
    ensures after == Surviving(before, {email})
  {
  }

  lemma RemovedNone(s: State, stuck: set<Key>)
    ensures Removed(s, {}, {} - stuck) == s
  {
    assert {} - stuck == {};
    assert s.mem.stores - {} == s.mem.stores && s.mem.dyn - {} == s.mem.dyn && s.disk.entries - {} == s.disk.entries;
    assert Surviving(s.mem.aliases, {}) == s.mem.aliases;
  }

  /** Removing one more account of a state from which some are removed. */
  lemma RemovedOneMore(s: State, gone: set<Key>, stuck: set<Key>, k: Key)
    requires k !in gone
    ensures var t := Removed(s, gone, gone - stuck);
            Removed(s, gone + {k}, gone + {k} - stuck) ==
            State(Evicted(t.mem, {Email(k)}),
                  t.disk.(entries := if k in stuck then t.disk.entries else t.disk.entries - {k}))
  {
    EmailsAdd(gone, k);
    EvictedTwice(s.mem, Emails(gone), Email(k));
    if k in stuck {
      assert gone + {k} - stuck == gone - stuck;
    } else {
      assert gone + {k} - stuck == (gone - stuck) + {k};
    }
  }

  /** The listing of a domain none of whose accounts is removed yet. */
  lemma ListedAll(s: State, gone: set<Key>, stuck: set<Key>, d: string)
    requires InDomain(gone, d) == {}
    ensures InDomain(Removed(s, gone, gone - stuck).disk.entries.Keys, d) == InDomain(s.disk.entries.Keys, d)
    ensures InDomain(s.disk.entries.Keys, d) !! gone
  {
    forall k | k in gone ensures k.domain != d {
      assert k.domain == d ==> k in InDomain(gone, d);
    }
  }

  class Relay {
    const cfg: Config
    var stores: map<string, Key>
    var aliases: map<string, string>
    var dyn: set<string>
    var dynDomains: map<string, DomainConfig>
    var entries: map<Key, Entry>
    var domainDirs: map<string, Option<DomainConfig>>
    const root: seq<string>

    /** Memory and disk as one value. */
    ghost function St(): State
      reads this
    {
      State(Memory(stores, aliases, dyn, dynDomains), Disk(root, entries, domainDirs))
    }

    // ----- startup -----------------------------------------------------------

    /** main: load the registry, clean up, build the static accounts, scan for the others. */
    constructor Boot(cfg: Config, disk: Disk)
      requires WellFormed(cfg) && OnDisk(disk)
      ensures this.cfg == cfg && St() == Booted(cfg, disk)
    {
      this.cfg, root := cfg, disk.root;
      stores, aliases, dyn, dynDomains := map[], map[], {}, map[];
      entries, domainDirs := disk.entries, disk.domains;
      new;
      hide BaseStores, BaseAliases, Directories, Selves, Cleaned, Recoverable, Loaded, Emails, WellFormed;
      LoadDynDomains();
      assert map[] + Loaded(disk.domains) == Loaded(disk.domains);
      CleanupOrphanedData();
      BuildStatic();
      BootPlain(cfg, disk);
      ScanDynAccounts();
      assert {} + Emails(Recoverable(cfg, dynDomains, entries)) == Emails(Recoverable(cfg, dynDomains, entries));
    }

    /** loadDynDomains */
    method LoadDynDomains()
      modifies this`dynDomains
      ensures dynDomains == old(dynDomains) + Loaded(domainDirs)
    {
      var todo := domainDirs.Keys;
      while todo != {}
        invariant todo <= domainDirs.Keys
        invariant dynDomains == old(dynDomains) + Loaded(domainDirs - todo)
        decreases todo
      {
        var d :| d in todo;
        todo := todo - {d};
        if domainDirs[d].Some? {
          dynDomains := dynDomains[d := domainDirs[d].value];
        }
      }
      assert domainDirs - {} == domainDirs;
    }

    /** cleanupOrphanedData: whole directories of unknown domains, then orphaned account directories. */
    method CleanupOrphanedData()
      modifies this`entries
      ensures entries == Cleaned(cfg, dynDomains, old(entries))
    {
      ghost var before := entries;
      var todo := set k | k in entries :: k.domain;
      while todo != {}
        invariant forall k | k in before && k.domain !in todo :: k in entries <==> Kept(cfg, dynDomains, before, k)
        invariant forall k | k in before && k.domain in todo :: k in entries
        invariant forall k | k in entries :: k in before && entries[k] == before[k]
        decreases todo
      {
        var d :| d in todo;
        todo := todo - {d};
        if Lookup(cfg, dynDomains, d).None? {
          entries := map k | k in entries && k.domain != d :: entries[k];
        } else {
          CleanupDomain(d, Lookup(cfg, dynDomains, d).value);
        }
      }
      assert entries == Cleaned(cfg, dynDomains, before);
    }

    method CleanupDomain(d: string, dc: DomainConfig)
      requires Lookup(cfg, dynDomains, d) == Some(dc)
      modifies this`entries
      ensures forall k | k in entries :: k in old(entries) && entries[k] == old(entries)[k]
      ensures forall k | k in old(entries) :: k in entries <==> (k.domain == d ==> Kept(cfg, dynDomains, old(entries), k))
    {
      ghost var before := entries;
      var todo := set k | k in entries && k.domain == d;
      while todo != {}
        invariant forall k | k in todo :: k in entries && k.domain == d
        invariant forall k | k in entries :: k in before && entries[k] == before[k]
        invariant forall k | k in before && k !in todo :: k in entries <==> (k.domain == d ==> Kept(cfg, dynDomains, before, k))
        decreases todo
      {
        var k :| k in todo;
        todo := todo - {k};
        assert Files(entries, k) == Files(before, k);
        if entries[k].PlainFile? || k.name == PEERS || k.name in dc.accounts || AuthHash(entries, k) != "" {
          continue;
        }
        entries := entries - {k};
      }
    }

    /** The alias map and the stores of the configured accounts. */
    method BuildStatic()
      requires WellFormed(cfg) && aliases == map[] && stores == map[]
      modifies this`aliases, this`stores
      ensures aliases == BaseAliases(cfg) && stores == BaseStores(cfg)
    {
      var todo := StaticKeys(cfg);
      ghost var done: set<Key> := {};
      while todo != {}
        invariant todo <= StaticKeys(cfg) && done == StaticKeys(cfg) - todo
        invariant aliases == OwnedAliases(cfg, done) && stores == OwnedStores(cfg, done)
        decreases todo
      {
        var k :| k in todo;
        StaticStep(cfg, done, k);
        AddStatic(k);
        todo := todo - {k};
        done := done + {k};
      }
      AllOwned(cfg, done);
    }

    /** One configured account: its own address, its aliases, its store. */
    method AddStatic(k: Key)
      requires IsStatic(cfg, k)
      modifies this`aliases, this`stores
      ensures aliases == old(aliases) + Const(Names(cfg, k), Primary(k)) && stores == old(stores)[Primary(k) := k]
    {
      ghost var before := aliases;
      var primary := Primary(k);
      var names := cfg[k.domain].accounts[k.name].alias;
      aliases := aliases[primary := primary];
      ghost var seen: set<string> := {primary};
      assert before + Const(seen, primary) == before[primary := primary];
      hide AliasName, Primary;
      for i := 0 to |names|
        invariant seen == {primary} + set a | a in names[..i] :: AliasName(a, k.domain)
        invariant aliases == before + Const(seen, primary) && stores == old(stores)
      {
        var alias := AliasName(names[i], k.domain);
        aliases := aliases[alias := primary];
        assert names[..i + 1] == names[..i] + [names[i]];
        UnionAdd(before, Const(seen, primary), alias, primary);
        assert Const(seen + {alias}, primary) == Const(seen, primary)[alias := primary];
        seen := seen + {alias};
      }
      assert names[..|names|] == names;
      stores := stores[primary := k];
    }

    /** addDynAccount */
    method AddDynAccount(k: Key, opens: bool)
      modifies this`stores, this`aliases, this`dyn
      ensures St().mem == if opens then Added(old(St()).mem, k) else old(St()).mem
    {
      if !opens {
        return;
      }
      var email := Email(k);
      stores := stores[email := k];
      aliases := aliases[email := email];
      dyn := dyn + {email};
    }

    /** Memory is m0 with the accounts ks added. */
    ghost predicate Grown(m0: Memory, ks: set<Key>)
      reads this
    {
      St().mem == m0.(stores := m0.stores + Directories(ks), aliases := m0.aliases + Selves(Emails(ks)),
                      dyn := m0.dyn + Emails(ks))
    }

    lemma GrowOne(m0: Memory, m: Memory, ks: set<Key>, k: Key)
      requires Plain(ks + {k})
      requires m == m0.(stores := m0.stores + Directories(ks), aliases := m0.aliases + Selves(Emails(ks)),
                        dyn := m0.dyn + Emails(ks))
      ensures Added(m, k) == m0.(stores := m0.stores + Directories(ks + {k}),
                                 aliases := m0.aliases + Selves(Emails(ks + {k})), dyn := m0.dyn + Emails(ks + {k}))
    {
      var e := Email(k);
      DirectoriesAdd(ks, k);
      UnionAdd(m0.stores, Directories(ks), e, k);
      EmailsAdd(ks, k);
      SelvesAdd(Emails(ks), e);
      UnionAdd(m0.aliases, Selves(Emails(ks)), e, e);
      assert m0.dyn + Emails(ks) + {e} == m0.dyn + (Emails(ks) + {e});
    }

    /** scanDynAccounts: every directory with a credential, under every configured or custom domain. */
    method ScanDynAccounts()
      requires Plain(Recoverable(cfg, dynDomains, entries))
      modifies this`stores, this`aliases, this`dyn
      ensures Grown(old(St()).mem, Recoverable(cfg, dynDomains, entries))
    {
      ghost var m0 := St().mem;
      var todo := cfg.Keys + dynDomains.Keys;
      ghost var rec := Recoverable(cfg, dynDomains, entries);
      ghost var done: set<Key> := {};
      assert Directories({}) == map[] && Selves({}) == map[] && Emails({}) == {};
      while todo != {}
        invariant done == set k | k in rec && k.domain !in todo
        invariant Grown(m0, done) && dynDomains == m0.domains
        decreases todo
      {
        var d :| d in todo;
        todo := todo - {d};
        done := ScanDomain(d, m0, done);
      }
      assert done == rec;
    }

    method ScanDomain(d: string, ghost m0: Memory, ghost done: set<Key>) returns (ghost done': set<Key>)
      requires Grown(m0, done) && dynDomains == m0.domains && Lookup(cfg, dynDomains, d).Some?
      requires Plain(Recoverable(cfg, dynDomains, entries)) && done <= Recoverable(cfg, dynDomains, entries)
      modifies this`stores, this`aliases, this`dyn
      ensures Grown(m0, done')
      ensures done' == done + InDomain(Recoverable(cfg, dynDomains, entries), d)
    {
      var todo := InDomain(entries.Keys, d);
      ghost var rec := Recoverable(cfg, dynDomains, entries);
      done' := done;
      while todo != {}
        invariant todo <= InDomain(entries.Keys, d)
        invariant done' == done + (InDomain(rec, d) - todo) && done' <= rec
        invariant Grown(m0, done')
        decreases todo
      {
        var k :| k in todo;
        VisitOne(done, InDomain(rec, d), todo, k);
        done' := ScanEntry(k, m0, done');
        todo := todo - {k};
      }
    }

    /** One directory entry of a known domain. */
    method ScanEntry(k: Key, ghost m0: Memory, ghost done: set<Key>) returns (ghost done': set<Key>)
      requires k in entries && Lookup(cfg, dynDomains, k.domain).Some?
      requires Grown(m0, done)
      requires k in Recoverable(cfg, dynDomains, entries) ==> Plain(done + {k})
      modifies this`stores, this`aliases, this`dyn
      ensures Grown(m0, done')
      ensures done' == if k in Recoverable(cfg, dynDomains, entries) then done + {k} else done
    {
      done' := done;
      ScanTest(cfg, dynDomains, entries, k);
      if entries[k].PlainFile? || k.name == PEERS || IsStatic(cfg, k) {
        return;
      }
      if AuthHash(entries, k) != "" {
        AddScanned(k, m0, done);
        done' := done + {k};
      }
    }

    method AddScanned(k: Key, ghost m0: Memory, ghost done: set<Key>)
      requires Grown(m0, done) && Plain(done + {k})
      modifies this`stores, this`aliases, this`dyn
      ensures Grown(m0, done + {k})
    {
      GrowOne(m0, St().mem, done, k);
      AddDynAccount(k, true);
    }

    // ----- requests ----------------------------------------------------------

    /** provisionDomain: any open domain. */
    method ProvisionDomain() returns (d: string)
      ensures Default(cfg, d)
    {
      var todo := cfg.Keys;
      while todo != {}
        invariant todo <= cfg.Keys && forall e | e in cfg && e !in todo :: !cfg[e].allowProvision
        decreases todo
      {
        d :| d in todo;
        todo := todo - {d};
        if cfg[d].allowProvision {
          return;
        }
      }
      d := "";
    }

    /** /account/provision */
    method ProvisionAccount(r: Request, w: World) returns (response: Response, ghost default: string)
      modifies this
      ensures Default(cfg, default) && (St(), response) == Provision(cfg, old(St()), r, default, w)
    {
      hide AdmitRequest, AdmitKey, Finish, Default, Tidied, Lookup, Email;
      var open := ProvisionDomain();
      default := open;
      var t := Tidied(r);
      var named := NameAccount(t, open, w);
      if named.Refused? {
        return named.response, default;
      }
      response := Admission(t, named.key, w);
      if response != Done {
        return;
      }
      response := Register(r, named.key, w);
    }

    method NameAccount(t: Request, open: string, w: World) returns (named: Registry.Admission)
      requires Default(cfg, open)
      ensures named == AdmitRequest(cfg, dynDomains, t, open, w)
    {
      var domain := t.domain;
      if !ValidUsername(t.username) || t.hash == "" {
        return Refused(BadRequest);
      }
      if t.did != "" {
        if !w.anchored || t.didSig == "" {
          return Refused(BadRequest);
        }
      }
      if domain != "" {
        if Lookup(cfg, dynDomains, domain).None? {
          return Refused(BadRequest);
        }
      } else {
        domain := open;
        if domain == "" {
          return Refused(Forbidden);
        }
      }
      named := Admitted(Key(domain, t.username));
    }

    method Admission(r: Request, k: Key, w: World) returns (response: Response)
      requires Lookup(cfg, dynDomains, k.domain).Some?
      ensures AdmitKey(cfg, St(), r, k, w) == if response == Done then Admitted(k) else Refused(response)
    {
      var dc := Lookup(cfg, dynDomains, k.domain).value;
      if !dc.allowProvision {
        if dc.provisionSecret == "" || r.secret != dc.provisionSecret {
          return Forbidden;
        }
      }
      if Email(k) in dyn || AuthHash(entries, k) != "" {
        return Taken;
      }
      if r.did != "" {
        match w.verdict
        case Rejected => return Unauthorized;
        case Conflict => return Taken;
        case Unreachable => return Unavailable;
        case Proven =>
      }
      response := Done;
    }

    /** The writes, then memory. */
    method Register(r: Request, k: Key, w: World) returns (response: Response)
      modifies this
      ensures (St(), response) == Finish(old(St()), k, r, w)
    {
      if !w.writes || Blocked(entries, k) {
        return Failed;
      }
      var files := Files(entries, k)[HASH_FILE := File(r.hash, w.now)];
      if r.envelope.Some? {
        files := files[ENVELOPE_FILE := File(r.envelope.value, w.now)];
      }
      entries := entries[k := Directory(files)];
      AddDynAccount(k, w.opens);
      response := Created(Email(k));
    }

    /** The three deletions under the lock; aliases are deleted while the map is iterated. */
    method Evict(email: string)
      modifies this`stores, this`aliases, this`dyn
      ensures St().mem == Evicted(old(St()).mem, {email})
    {
      ghost var before := aliases;
      stores := stores - {email};
      dyn := dyn - {email};
      var todo := aliases.Keys;
      while todo != {}
        invariant todo <= aliases.Keys
        invariant forall a | a in aliases :: a in before && aliases[a] == before[a]
        invariant forall a | a in before && a !in todo :: a in aliases <==> !(before[a] == email || EqualFold(a, email))
        invariant stores == old(stores) - {email} && dyn == old(dyn) - {email}
        decreases todo
      {
        var a :| a in todo;
        todo := todo - {a};
        if aliases[a] == email || EqualFold(a, email) {
          aliases := aliases - {a};
        }
      }
      SurvivingOne(before, aliases, email);
    }

    /** /account/delete */
    method DeleteAccount(verify: Verifier, username: string, password: string, removes: bool) returns (response: Response)
      modifies this
      ensures (St(), response) == Delete(cfg, old(St()), verify, username, password, removes)
    {
      var auth := AuthenticateRequest(verify, username, password);
      response := RemoveOwn(auth, removes);
    }

    method RemoveOwn(auth: Option<Key>, removes: bool) returns (response: Response)
      modifies this
      ensures (St(), response) == DeleteAs(cfg, old(St()), auth, removes)
    {
      if auth.None? {
        return Unauthorized;
      }
      var k := auth.value;
      var dc := Lookup(cfg, dynDomains, k.domain);
      if dc.Some? && k.name in dc.value.accounts {
        return Forbidden;
      }
      Evict(Email(k));
      assert Emails({k}) == {Email(k)};
      if !removes {
        assert entries - {} == entries;
        return Failed;
      }
      entries := entries - Target(root, k);
      response := Done;
    }

    /** authenticate */
    method AuthenticateRequest(verify: Verifier, username: string, password: string) returns (auth: Option<Key>)
      ensures auth == Authenticate(cfg, St(), verify, username, password)
    {
      var parts := Cut(Lower(username), "@");
      if parts.1.None? {
        return None;
      }
      var k := Key(parts.1.value, parts.0);
      if Lookup(cfg, dynDomains, k.domain).None? {
        return None;
      }
      auth := if Accepts(verify, password, HashAt(Disk(root, entries, domainDirs), k)) then Some(k) else None;
    }

    /** /domain/add */
    method RegisterDomain(name: string, proven: bool, secret: string, writes: bool) returns (response: Response)
      modifies this`dynDomains, this`domainDirs
      ensures (St(), response) == AddDomain(old(St()), name, proven, secret, writes)
    {
      var domain := Tidy(name);
      if !ValidCustomDomain(domain) {
        return BadRequest;
      }
      if !proven {
        return Forbidden;
      }
      if !writes {
        return Failed;
      }
      var dc := DomainConfig(map[], false, secret);
      domainDirs := domainDirs[domain := Some(dc)];
      dynDomains := dynDomains[domain := dc];
      response := Done;
    }

    // ----- purge -------------------------------------------------------------

    /** lastActivity: the newest modification time below a directory, Go's zero time if there is none. */
    static method LastActivity(files: map<string, File>) returns (latest: int)
      ensures forall cutoff :: latest > cutoff <==> Active(files, cutoff)
    {
      latest := 0;
      var todo := files.Keys;
      while todo != {}
        invariant todo <= files.Keys && latest >= 0
        invariant forall f | f in files && f !in todo :: files[f].mtime <= latest
        invariant latest == 0 || exists f :: f in files && files[f].mtime == latest
        decreases todo
      {
        var f :| f in todo;
        todo := todo - {f};
        if files[f].mtime > latest {
          latest := files[f].mtime;
        }
      }
    }

    /** The tests one directory entry must pass to be purged. */
    method Inactive(k: Key, peers: seq<map<Key, Entry>>, cutoff: int) returns (purge: bool)
      requires k in entries && k.domain in cfg && cfg[k.domain].allowProvision
      ensures purge <==> Purged(cfg, entries, peers, cutoff, k)
    {
      if entries[k].PlainFile? || k.name in cfg[k.domain].accounts {
        return false;
      }
      var local := LastActivity(entries[k].files);
      if local > cutoff {
        return false;
      }
      for i := 0 to |peers|
        invariant forall j | 0 <= j < i :: !Active(Walked(peers[j], k), cutoff)
      {
        var there := LastActivity(Walked(peers[i], k));
        if there > cutoff {
          return false;
        }
      }
      purge := true;
    }

    /** Memory and disk are those of s0 with the accounts gone removed. */
    ghost predicate Shrunk(s0: State, gone: set<Key>, stuck: set<Key>)
      reads this
    {
      St() == Removed(s0, gone, gone - stuck)
    }

    /** purgeInactiveAccounts, with the directories whose removal fails. */
    method PurgeInactiveAccounts(peers: seq<map<Key, Entry>>, cutoff: int, stuck: set<Key>)
      modifies this
      ensures St() == Sweep(cfg, old(St()), peers, cutoff, stuck)
    {
      ghost var s0 := St();
      ghost var all := PurgedKeys(cfg, entries, peers, cutoff);
      ghost var gone: set<Key> := {};
      RemovedNone(s0, stuck);
      var todo := cfg.Keys;
      while todo != {}
        invariant todo <= cfg.Keys
        invariant gone == set k | k in all && k.domain !in todo
        invariant Shrunk(s0, gone, stuck)
        decreases todo
      {
        var d :| d in todo;
        todo := todo - {d};
        if cfg[d].allowProvision {
          gone := PurgeDomain(d, peers, cutoff, stuck, s0, gone);
        }
      }
      assert gone == all;
    }

    method PurgeDomain(d: string, peers: seq<map<Key, Entry>>, cutoff: int, stuck: set<Key>, ghost s0: State, ghost gone: set<Key>)
      returns (ghost gone': set<Key>)
      requires d in cfg && cfg[d].allowProvision && Shrunk(s0, gone, stuck) && InDomain(gone, d) == {}
      modifies this`stores, this`aliases, this`dyn, this`entries
      ensures gone' == gone + InDomain(PurgedKeys(cfg, s0.disk.entries, peers, cutoff), d)
      ensures Shrunk(s0, gone', stuck)
    {
      ghost var here := InDomain(PurgedKeys(cfg, s0.disk.entries, peers, cutoff), d);
      gone' := gone;
      assert gone + (here - here) == gone;
      var todo := InDomain(entries.Keys, d);
      ListedAll(s0, gone, stuck, d);
      while todo != {}
        invariant todo <= InDomain(s0.disk.entries.Keys, d) && todo !! gone'
        invariant gone' == gone + (here - todo)
        invariant Shrunk(s0, gone', stuck)
        decreases todo
      {
        var k :| k in todo;
        VisitOne(gone, here, todo, k);
        gone' := PurgeEntry(k, peers, cutoff, stuck, s0, gone');
        todo := todo - {k};
      }
    }

    method PurgeEntry(k: Key, peers: seq<map<Key, Entry>>, cutoff: int, stuck: set<Key>, ghost s0: State, ghost gone: set<Key>)
      returns (ghost gone': set<Key>)
      requires k in s0.disk.entries && k !in gone && k.domain in cfg && cfg[k.domain].allowProvision
      requires Shrunk(s0, gone, stuck)
      modifies this`stores, this`aliases, this`dyn, this`entries
      ensures gone' == if Purged(cfg, s0.disk.entries, peers, cutoff, k) then gone + {k} else gone
      ensures Shrunk(s0, gone', stuck)
    {
      gone' := gone;
      assert entries[k] == s0.disk.entries[k];
      var purge := Inactive(k, peers, cutoff);
      if purge {
        RemovedOneMore(s0, gone, stuck, k);
        Evict(Email(k));
        if k !in stuck {
          entries := entries - {k};
        }
        gone' := gone + {k};
      }
    }
  }
}
