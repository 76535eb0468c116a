/** Concrete user names and requests on which the account handling does less than its documentation promises. */
module AccountCounterexamples {
  import opened Text
  import opened Registry
  import opened RegistryProof
  import opened RestartProof
  import Base64
  import Paths

  const OPEN: Config := map["d" := DomainConfig(map[], true, "")]
  const EMPTY := Disk([], map[], map[])
  const PEERS_REQUEST := Request("peers", "d", "", "", "h", "", None)
  const FINE := World(false, Proven, true, true, 0)

  lemma TidyPlain(s: string)
    requires s == Lower(s) && Trimmed(s)
    ensures Tidy(s) == s
  {
  }

  lemma OpenIsWellFormed()
    ensures WellFormed(OPEN)
  {
  }

  /** No restart registers an account named peers, whatever its directory holds. */
  lemma PeersNeverFound(cfg: Config, disk: Disk, k: Key)
    requires WellFormed(cfg) && OnDisk(disk)
    requires k.name == PEERS && '@' !in k.domain
    ensures Email(k) !in Booted(cfg, disk).mem.dyn
  {
    var s := Booted(cfg, disk);
    BootInv(cfg, disk);
    CredentialsPlain(cfg, s);
    BootedMemory(cfg, s);
    RestartTwice(cfg, disk);
    var ks := RegistryProof.Credentialed(cfg, s);
    if Email(k) in s.mem.dyn {
      var l :| l in ks && Email(l) == Email(k);
      EmailInjective(k, l);
    }
  }

  lemma PeersAdmitted(s: State)
    requires s.mem.dyn == {} && s.disk.entries == map[]
    ensures Admit(OPEN, s, PEERS_REQUEST, "d", FINE) == Admitted(Key("d", "peers"))
  {
  }

  lemma PeersTidied()
    ensures Tidied(PEERS_REQUEST) == PEERS_REQUEST
  {
    TidyPlain("peers");
    TidyPlain("d");
  }

  lemma AdmittedIsCreated(cfg: Config, s: State, r: Request, d: string, w: World,
                          k: Key)
    requires Default(cfg, d) && Admit(cfg, s, Tidied(r), d, w) == Admitted(k)
    requires w.writes && !Blocked(s.disk.entries, k)
    ensures Provision(cfg, s, r, d, w) == (Registered(s, k, r, w), Created(Email(k)))
  {
  }

  lemma PeersCreated(s: State)
    requires s.mem.dyn == {} && s.disk.entries == map[]
    ensures Provision(OPEN, s, PEERS_REQUEST, "d", FINE) ==
            (Registered(s, Key("d", "peers"), PEERS_REQUEST, FINE), Created("peers" + "@" + "d"))
  {
    PeersTidied();
    PeersAdmitted(s);
    AdmittedIsCreated(OPEN, s, PEERS_REQUEST, "d", FINE, Key("d", "peers"));
  }

  lemma EmptyBoots()
    ensures var s := Booted(OPEN, EMPTY); s.mem.dyn == {} && s.disk.entries == map[] && s.disk.domains == map[]
  {
  }

  lemma PeersRegistered(s: State, k: Key, r: Request, w: World)
    requires w.opens && OnDisk(s.disk) && Component(k.name)
    ensures Email(k) in Registered(s, k, r, w).mem.dyn && OnDisk(Registered(s, k, r, w).disk)
  {
  }

  /** The name peers can be provisioned, is told that it was created, and is gone after a restart. */
  lemma PeersIsLost()
    ensures var (s, response) := Provision(OPEN, Booted(OPEN, EMPTY), PEERS_REQUEST, "d", FINE);
            var email := "peers" + "@" + "d";
            response == Created(email) && email in s.mem.dyn && email !in Booted(OPEN, s.disk).mem.dyn
  {
    var k := Key("d", "peers");
    EmptyBoots();
    OpenIsWellFormed();
    hide Provision, Booted, Registered;
    var s0 := Booted(OPEN, EMPTY);
    PeersCreated(s0);
    PeersRegistered(s0, k, PEERS_REQUEST, FINE);
    PeersNeverFound(OPEN, Registered(s0, k, PEERS_REQUEST, FINE).disk, k);
  }

  // ----- other names for an account ------------------------------------------

  lemma NotListed(cfg: Config, s: State, verify: Verifier, u: string, p: string, k: Key)
    requires Lower(u) == Email(k) && '@' !in k.name && k.domain in cfg && !IsStatic(cfg, k)
    requires u !in s.mem.dyn && Accepts(verify, p, HashAt(s.disk, k))
    ensures Authenticate(cfg, s, verify, u, p) == Some(k) && AuthFunc(cfg, s, verify, u, p) == None
  {
    SplitEmail(k);
  }

  const ALICE := Key("d", "a")
  const DOTTED := Key("d", "./" + "a")
  const ALICE_FILES := map[HASH_FILE := File("h", 0)]
  const ALICE_STATE := State(
    Memory(map["a@d" := ALICE], map["a@d" := "a@d"], {"a@d"}, map[]),
    Disk([], map[ALICE := Directory(ALICE_FILES)], map[]))

  lemma AliceLowered()
    ensures Lower("A@d") == Email(ALICE) && "A@d" != "a@d"
  {
  }

  lemma AliceAccepted(verify: Verifier, disk: Disk, k: Key)
    requires Files(disk.entries, ALICE) == ALICE_FILES && Place(disk.root, k) == Some(ALICE) && forall t, h :: verify(t, h)
    ensures Accepts(verify, "", HashAt(disk, k))
  {
    assert "" == Base64.Encode([], Base64.STD);
    Base64.TokenRoundTrip([], Base64.STD);
    TrimSelf("h");
  }

  lemma AlicePlaces(root: seq<string>)
    ensures Place(root, ALICE) == Some(ALICE) && Place(root, DOTTED) == Some(ALICE)
  {
    Paths.ComponentPlace(root, ALICE);
    Paths.DotPlace(root, ALICE);
  }

  /** A user name in capitals: authenticate lowers it before it looks, AuthFunc looks for it as typed. */
  lemma CapitalsDisagree()
    ensures Authenticate(OPEN, ALICE_STATE, (t, h) => true, "A@d", "") == Some(ALICE)
    ensures AuthFunc(OPEN, ALICE_STATE, (t, h) => true, "A@d", "") == None
  {
    AliceLowered();
    AlicePlaces([]);
    AliceAccepted((t, h) => true, ALICE_STATE.disk, ALICE);
    NotListed(OPEN, ALICE_STATE, (t, h) => true, "A@d", "", ALICE);
  }

  lemma DottedLowered()
    ensures Lower("./a@d") == Email(DOTTED) && |"./a@d"| != |"a@d"|
  {
  }

  lemma DottedAccepted(verify: Verifier)
    requires forall t, h :: verify(t, h)
    ensures Authenticate(OPEN, ALICE_STATE, verify, "./a@d", "") == Some(DOTTED)
    ensures AuthFunc(OPEN, ALICE_STATE, verify, "./a@d", "") == None
  {
    DottedLowered();
    AlicePlaces([]);
    AliceAccepted(verify, ALICE_STATE.disk, DOTTED);
    NotListed(OPEN, ALICE_STATE, verify, "./a@d", "", DOTTED);
  }

  /** A user name that path cleaning changes: authenticate finds the account's credential, AuthFunc does not know the
      name. */
  lemma DottedDisagree()
    ensures Authenticate(OPEN, ALICE_STATE, (t, h) => true, "./a@d", "") == Some(DOTTED)
    ensures AuthFunc(OPEN, ALICE_STATE, (t, h) => true, "./a@d", "") == None
  {
    DottedAccepted((t, h) => true);
  }

  lemma DeletesElsewhere(cfg: Config, s: State, k: Key, p: Key)
    requires !IsConfigured(cfg, s, k) && Place(s.disk.root, k) == Some(p) && Email(p) in s.mem.dyn && Email(p) != Email(k)
    ensures var (t, response) := DeleteAs(cfg, s, Some(k), true);
            response == Done && p !in t.disk.entries && Email(p) in t.mem.dyn
  {
    hide Place, Email;
    assert Emails({k}) == {Email(k)};
  }

  lemma AliceIsListed()
    ensures Email(ALICE) in ALICE_STATE.mem.dyn && Email(ALICE) != Email(DOTTED) && !IsConfigured(OPEN, ALICE_STATE, DOTTED)
  {
    assert Email(ALICE) == "a@d";
    assert |Email(DOTTED)| == 5;
  }

  /** Deleting under such a name removes the account's directory and leaves the account in memory. */
  lemma DottedDeletes()
    ensures var (s, response) := Delete(OPEN, ALICE_STATE, (t, h) => true, "./a@d", "", true);
            response == Done && ALICE !in s.disk.entries && Email(ALICE) in s.mem.dyn
  {
    DottedAccepted((t, h) => true);
    AlicePlaces([]);
    AliceIsListed();
    hide Authenticate, DeleteAs, Place, Email, IsConfigured;
    DeletesElsewhere(OPEN, ALICE_STATE, DOTTED, ALICE);
  }

  // ----- two provisions of one name ------------------------------------------

  const FIRST := Request("a", "d", "", "", "h", "", None)
  const SECOND := Request("a", "d", "", "", "g", "", None)

  lemma AdmittedAlice(s: State, r: Request)
    requires s.mem.dyn == {} && s.disk.entries == map[] && (r == FIRST || r == SECOND)
    ensures Admit(OPEN, s, r, "d", FINE) == Admitted(ALICE)
  {
  }

  lemma FinishWrites(s: State, k: Key, r: Request, w: World)
    requires w.writes && !Blocked(s.disk.entries, k)
    ensures var (t, response) := Finish(s, k, r, w);
            response.Created? && AuthHash(t.disk.entries, k) == Trim(r.hash) && !Blocked(t.disk.entries, k)
  {
    hide Trim;
    ProvisionHash(s.disk.entries, k, r, w);
  }

  /** Both requests pass their checks before either writes: both succeed, and the second takes the account over. */
  lemma SecondOverwrites()
    ensures var s := Booted(OPEN, EMPTY);
            var (t, first) := Finish(s, ALICE, FIRST, FINE);
            var (u, second) := Finish(t, ALICE, SECOND, FINE);
            Admit(OPEN, s, FIRST, "d", FINE) == Admitted(ALICE) && Admit(OPEN, s, SECOND, "d", FINE) == Admitted(ALICE) &&
            first.Created? && second.Created? && AuthHash(t.disk.entries, ALICE) == "h" && AuthHash(u.disk.entries, ALICE) == "g"
  {
    EmptyBoots();
    TrimSelf("h");
    TrimSelf("g");
    hide Booted, Finish, Admit, AuthHash, Trim;
    var s := Booted(OPEN, EMPTY);
    AdmittedAlice(s, FIRST);
    AdmittedAlice(s, SECOND);
    FinishWrites(s, ALICE, FIRST, FINE);
    FinishWrites(Finish(s, ALICE, FIRST, FINE).0, ALICE, SECOND, FINE);
  }
}
