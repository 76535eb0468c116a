/** Accounts in memory and on disk: the static configuration, the handler's three maps, the custom-domain registry and
    the data directory, and what each request does to them. */
module Registry {
  import opened Text
  import opened BitStrings
  import Base64

  // ----- configuration, disk and memory --------------------------------------

  datatype Account = Account(alias: seq<string>)

  datatype DomainConfig = DomainConfig(accounts: map<string, Account>, allowProvision: bool, provisionSecret: string)

  /** cfg.Domains */
  type Config = map<string, DomainConfig>

  datatype File = File(content: string, mtime: int)

  /** What stands under data/<domain>/<name>: an account directory with the files below it, or a plain file. */
  datatype Entry = Directory(files: map<string, File>) | PlainFile(file: File)

  datatype Key = Key(domain: string, name: string)

  /** The data directory, by the components of its path, its contents, and data/_domains with the parsed domain.json of
      each custom domain that has one. */
  datatype Disk = Disk(root: seq<string>, entries: map<Key, Entry>, domains: map<string, Option<DomainConfig>>)

  /** handler.stores (each store by the directory it lives in), handler.aliases, handler.dyn, and dynDomains. */
  datatype Memory = Memory(stores: map<string, Key>, aliases: map<string, string>, dyn: set<string>,
                           domains: map<string, DomainConfig>)

  datatype State = State(mem: Memory, disk: Disk)

  const HASH_FILE := "auth_token_hash"
  const ENVELOPE_FILE := "envelope.json"
  const PEERS := "peers"

  function Email(k: Key): string {
    k.name + "@" + k.domain
  }

  function Emails(ks: set<Key>): set<string> {
    set k | k in ks :: Email(k)
  }

  /** domainConfig: static configuration first, then the registry. */
  function Lookup(cfg: Config, domains: map<string, DomainConfig>, d: string): Option<DomainConfig> {
    if d in cfg then Some(cfg[d]) else if d in domains then Some(domains[d]) else None
  }

  /** readAuthHash */
  function AuthHash(entries: map<Key, Entry>, k: Key): string {
    HashIn(Files(entries, k))
  }

  /** The trimmed credential among the files of a directory, or "". */
  function HashIn(files: map<string, File>): string {
    if HASH_FILE in files then Trim(files[HASH_FILE].content) else ""
  }

  /** The files of an account directory; none if there is no such directory. */
  function Files(entries: map<Key, Entry>, k: Key): map<string, File> {
    if k in entries && entries[k].Directory? then entries[k].files else map[]
  }

  /** What lastActivity walks at this path: the files of a directory, or the plain file itself. */
  function Walked(entries: map<Key, Entry>, k: Key): map<string, File> {
    if k in entries && entries[k].PlainFile? then map["" := entries[k].file] else Files(entries, k)
  }

  // ----- paths ---------------------------------------------------------------

  /** One path component that cleaning leaves as it is. */
  predicate Component(c: string) {
    c != "" && c != "." && c != ".." && '/' !in c
  }

  /** The lexical cleaning of filepath.Join, component by component. */
  function CleanOnto(path: seq<string>, parts: seq<string>): seq<string>
    decreases |parts|
  {
    if parts == [] then path
    else CleanOnto(
      if parts[0] == "" || parts[0] == "." then path
      else if parts[0] != ".." then path + [parts[0]]
      else if path == [] then [] else path[..|path| - 1],
      parts[1..])
  }

  /** The account directory that filepath.Join(dataDir, domain, name) names, if it names one. */
  function Place(root: seq<string>, k: Key): Option<Key> {
    var path := CleanOnto(root, Split(k.domain + "/" + k.name, "/"));
    if |path| == |root| + 2 && path[..|root|] == root then Some(Key(path[|root|], path[|root| + 1])) else None
  }

  /** readAuthHash for a name that comes from outside. */
  function HashAt(disk: Disk, k: Key): string {
    match Place(disk.root, k) case None => "" case Some(p) => AuthHash(disk.entries, p)
  }

  /** The directories that os.RemoveAll takes away for such a name. */
  function Target(root: seq<string>, k: Key): set<Key> {
    match Place(root, k) case None => {} case Some(p) => {p}
  }

  predicate PlainDomain(d: string) {
    Component(d) && '@' !in d
  }

  /** Directory entries are components; and so are the names of the directories of custom domains. */
  ghost predicate OnDisk(disk: Disk) {
    (forall k | k in disk.entries :: Component(k.name)) && (forall d | d in disk.domains :: PlainDomain(d))
  }

  predicate IsStatic(cfg: Config, k: Key) {
    k.domain in cfg && k.name in cfg[k.domain].accounts
  }

  // ----- the static accounts -------------------------------------------------

  function StaticKeys(cfg: Config): set<Key> {
    set d, n | d in cfg && n in cfg[d].accounts :: Key(d, n)
  }

  function Primary(k: Key): string {
    Lower(k.name) + "@" + k.domain
  }

  function AliasName(alias: string, domain: string): string {
    if '@' in Lower(alias) then Lower(alias) else Lower(alias) + "@" + domain
  }

  /** The addresses a static account answers to. */
  function Names(cfg: Config, k: Key): set<string>
    requires IsStatic(cfg, k)
  {
    {Primary(k)} + set a | a in cfg[k.domain].accounts[k.name].alias :: AliasName(a, k.domain)
  }

  predicate Answers(cfg: Config, k: Key, name: string) {
    IsStatic(cfg, k) && name in Names(cfg, k)
  }

  /** No address belongs to two static accounts, and domain names are path components without '@'. */
  ghost predicate WellFormed(cfg: Config) {
    (forall k, l, name :: Answers(cfg, k, name) && Answers(cfg, l, name) ==> k == l) &&
    (forall d | d in cfg :: PlainDomain(d))
  }

  function BaseNames(cfg: Config): set<string> {
    set k, name | k in StaticKeys(cfg) && name in Names(cfg, k) :: name
  }

  ghost function Owner(cfg: Config, name: string): Key
    requires name in BaseNames(cfg)
  {
    var k :| k in StaticKeys(cfg) && Answers(cfg, k, name);
    k
  }

  /** The alias map built from the configuration. */
  ghost function BaseAliases(cfg: Config): map<string, string> {
    map name | name in BaseNames(cfg) :: Primary(Owner(cfg, name))
  }

  /** The stores built from the configuration. */
  ghost function BaseStores(cfg: Config): map<string, Key> {
    map p | p in (set k | k in StaticKeys(cfg) :: Primary(k)) && p in BaseNames(cfg) :: Owner(cfg, p)
  }

  // ----- startup -------------------------------------------------------------

  /** loadDynDomains */
  function Loaded(domains: map<string, Option<DomainConfig>>): map<string, DomainConfig> {
    map d | d in domains && domains[d].Some? :: domains[d].value
  }

  /** Does cleanupOrphanedData leave this entry in place? */
  predicate Kept(cfg: Config, domains: map<string, DomainConfig>, entries: map<Key, Entry>, k: Key) {
    match Lookup(cfg, domains, k.domain)
    case None => false
    case Some(dc) =>
      k in entries &&
      (entries[k].PlainFile? || k.name == PEERS || k.name in dc.accounts || AuthHash(entries, k) != "")
  }

  function Cleaned(cfg: Config, domains: map<string, DomainConfig>, entries: map<Key, Entry>): map<Key, Entry> {
    map k | k in entries && Kept(cfg, domains, entries, k) :: entries[k]
  }

  /** Does scanDynAccounts register this directory? */
  predicate Scanned(cfg: Config, domains: map<string, DomainConfig>, entries: map<Key, Entry>, k: Key) {
    Lookup(cfg, domains, k.domain).Some? && k.name != PEERS && !IsStatic(cfg, k) && AuthHash(entries, k) != ""
  }

  function Recoverable(cfg: Config, domains: map<string, DomainConfig>, entries: map<Key, Entry>): set<Key> {
    set k | k in entries && Scanned(cfg, domains, entries, k)
  }

  ghost function KeyFor(ks: set<Key>, email: string): Key
    requires email in Emails(ks)
  {
    var k :| k in ks && Email(k) == email;
    k
  }

  ghost function Directories(ks: set<Key>): map<string, Key> {
    map e | e in Emails(ks) :: KeyFor(ks, e)
  }

  function Selves(emails: set<string>): map<string, string> {
    map e | e in emails :: e
  }

  /** The memory a set of dynamic accounts and a registry give on top of the configuration. */
  ghost function Assembled(cfg: Config, ks: set<Key>, domains: map<string, DomainConfig>): Memory {
    Memory(BaseStores(cfg) + Directories(ks), BaseAliases(cfg) + Selves(Emails(ks)), Emails(ks), domains)
  }

  /** Startup: registry, cleanup, static accounts, scan. */
  ghost function Booted(cfg: Config, disk: Disk): State {
    var domains := Loaded(disk.domains);
    var entries := Cleaned(cfg, domains, disk.entries);
    State(Assembled(cfg, Recoverable(cfg, domains, entries), domains), disk.(entries := entries))
  }

  /** A restart now would bring back exactly the memory there is. */
  ghost predicate Agrees(cfg: Config, s: State) {
    Booted(cfg, s.disk).mem == s.mem
  }

  // ----- provisioning --------------------------------------------------------

  predicate LowerOrDigit(c: char) {
    'a' <= c <= 'z' || '0' <= c <= '9'
  }

  predicate ValidUsername(u: string) {
    1 <= |u| <= 31 && LowerOrDigit(u[0]) && forall i | 1 <= i < |u| :: LowerOrDigit(u[i]) || u[i] == '_' || u[i] == '-'
  }

  datatype Request = Request(username: string, domain: string, did: string, didSig: string, hash: string, secret: string,
                             envelope: Option<string>)

  datatype Verdict = Proven | Rejected | Conflict | Unreachable

  /** What the world answers while a request runs: the identity anchor, the file system, the store library, the clock. */
  datatype World = World(anchored: bool, verdict: Verdict, writes: bool, opens: bool, now: int)

  datatype Response = Created(email: string) | BadRequest | Forbidden | Taken | Unauthorized | Unavailable | Failed | Done

  datatype Admission = Refused(response: Response) | Admitted(key: Key)

  /** What provisionDomain may return: any open configured domain, or nothing if there is none. */
  predicate Default(cfg: Config, d: string) {
    (d in cfg && cfg[d].allowProvision) || (d == "" && forall e | e in cfg :: !cfg[e].allowProvision)
  }

  /** strings.ToLower(strings.TrimSpace(s)) */
  function Tidy(s: string): string {
    Lower(Trim(s))
  }

  /** A request as decoded: user name and domain are tidied before anything looks at them. */
  function Tidied(r: Request): Request {
    r.(username := Tidy(r.username), domain := Tidy(r.domain))
  }

  /** The checks of /account/provision, in order, on a tidied request. */
  function Admit(cfg: Config, s: State, r: Request, default: string, w: World): Admission
    requires Default(cfg, default)
  {
    match AdmitRequest(cfg, s.mem.domains, r, default, w)
    case Refused(response) => Refused(response)
    case Admitted(k) => AdmitKey(cfg, s, r, k, w)
  }

  /** The checks that lead to the name of the account. */
  function AdmitRequest(cfg: Config, domains: map<string, DomainConfig>, r: Request, default: string, w: World): (a: Admission)
    requires Default(cfg, default)
    ensures a.Admitted? ==> Lookup(cfg, domains, a.key.domain).Some?
  {
    if !ValidUsername(r.username) || r.hash == "" then Refused(BadRequest)
    else if r.did != "" && (!w.anchored || r.didSig == "") then Refused(BadRequest)
    else if r.domain != "" && Lookup(cfg, domains, r.domain).None? then Refused(BadRequest)
    else if r.domain == "" && default == "" then Refused(Forbidden)
    else Admitted(Key(if r.domain != "" then r.domain else default, r.username))
  }

  /** The checks that follow once the account is named. */
  function AdmitKey(cfg: Config, s: State, r: Request, k: Key, w: World): Admission
    requires Lookup(cfg, s.mem.domains, k.domain).Some?
  {
    var dc := Lookup(cfg, s.mem.domains, k.domain).value;
    if !dc.allowProvision && (dc.provisionSecret == "" || r.secret != dc.provisionSecret) then Refused(Forbidden)
    else if Email(k) in s.mem.dyn || AuthHash(s.disk.entries, k) != "" then Refused(Taken)
    else if r.did == "" then Admitted(k)
    else match w.verdict
      case Rejected => Refused(Unauthorized)
      case Conflict => Refused(Taken)
      case Unreachable => Refused(Unavailable)
      case Proven => Admitted(k)
  }

  predicate Blocked(entries: map<Key, Entry>, k: Key) {
    k in entries && entries[k].PlainFile?
  }

  /** The account directory after its credential, and the envelope if one came along, are written. */
  function Credentialed(entries: map<Key, Entry>, k: Key, r: Request, w: World): map<Key, Entry> {
    entries[k := Directory(WithCredential(Files(entries, k), r, w.now))]
  }

  function WithCredential(files: map<string, File>, r: Request, now: int): map<string, File> {
    var written := files[HASH_FILE := File(r.hash, now)];
    match r.envelope case None => written case Some(e) => written[ENVELOPE_FILE := File(e, now)]
  }

  /** addDynAccount */
  function Added(m: Memory, k: Key): Memory {
    m.(stores := m.stores[Email(k) := k], aliases := m.aliases[Email(k) := Email(k)], dyn := m.dyn + {Email(k)})
  }

  function Provision(cfg: Config, s: State, r: Request, default: string, w: World): (State, Response)
    requires Default(cfg, default)
  {
    match Admit(cfg, s, Tidied(r), default, w)
    case Refused(response) => (s, response)
    case Admitted(k) => Finish(s, k, r, w)
  }

  /** What a provision does once it is admitted; other requests can come between the two. */
  function Finish(s: State, k: Key, r: Request, w: World): (State, Response) {
    if !w.writes || Blocked(s.disk.entries, k) then (s, Failed)
    else (Registered(s, k, r, w), Created(Email(k)))
  }

  /** The credential is on disk; the account is in memory if its store opens. */
  function Registered(s: State, k: Key, r: Request, w: World): State {
    State(if w.opens then Added(s.mem, k) else s.mem, s.disk.(entries := Credentialed(s.disk.entries, k, r, w)))
  }

  // ----- authentication ------------------------------------------------------

  /** jmapserver.VerifyAuthToken, which is not part of this model. */
  type Verifier = (seq<byte>, string) -> bool

  function Accepts(verify: Verifier, password: string, hash: string): bool {
    match Base64.DecodeAuthToken(password)
    case None => false
    case Some(token) => hash != "" && verify(token, hash)
  }

  /** authenticate, for the JMAP side endpoints: the account it resolves to. */
  function Authenticate(cfg: Config, s: State, verify: Verifier, username: string, password: string): Option<Key> {
    match Cut(Lower(username), "@")
    case (_, None) => None
    case (lp, Some(dm)) =>
      if Lookup(cfg, s.mem.domains, dm).None? then None
      else if Accepts(verify, password, HashAt(s.disk, Key(dm, lp))) then Some(Key(dm, lp))
      else None
  }

  /** cfg.AuthFunc, for JMAP itself: the account id it answers with. */
  function AuthFunc(cfg: Config, s: State, verify: Verifier, username: string, password: string): Option<string> {
    match Cut(Lower(username), "@")
    case (_, None) => None
    case (lp, Some(dm)) =>
      if !IsStatic(cfg, Key(dm, lp)) && username !in s.mem.dyn then None
      else if Accepts(verify, password, HashAt(s.disk, Key(dm, lp))) then Some(username)
      else None
  }

  // ----- removal -------------------------------------------------------------

  /** Does an address fold to one of these? */
  predicate Folds(a: string, emails: set<string>) {
    exists e | e in emails :: EqualFold(a, e)
  }

  /** An alias goes away with an account if it points at it or folds to its address. */
  predicate Evicts(emails: set<string>, alias: string, target: string) {
    target in emails || Folds(alias, emails)
  }

  function Surviving(aliases: map<string, string>, emails: set<string>): map<string, string> {
    map a | a in aliases && !Evicts(emails, a, aliases[a]) :: aliases[a]
  }

  function Evicted(m: Memory, emails: set<string>): Memory {
    m.(stores := m.stores - emails, dyn := m.dyn - emails, aliases := Surviving(m.aliases, emails))
  }

  /** Memory and disk after the accounts gone leave memory and the directories lost are removed. */
  function Removed(s: State, gone: set<Key>, lost: set<Key>): State {
    State(Evicted(s.mem, Emails(gone)), s.disk.(entries := s.disk.entries - lost))
  }

  /** /account/delete */
  function Delete(cfg: Config, s: State, verify: Verifier, username: string, password: string, removes: bool)
    : (State, Response)
  {
    DeleteAs(cfg, s, Authenticate(cfg, s, verify, username, password), removes)
  }

  /** What follows authentication: configured accounts are refused, others leave memory, then the disk. */
  function DeleteAs(cfg: Config, s: State, auth: Option<Key>, removes: bool): (State, Response) {
    match auth
    case None => (s, Unauthorized)
    case Some(k) =>
      if IsConfigured(cfg, s, k) then (s, Forbidden)
      else (Removed(s, {k}, if removes then Target(s.disk.root, k) else {}), if removes then Done else Failed)
  }

  predicate IsConfigured(cfg: Config, s: State, k: Key) {
    match Lookup(cfg, s.mem.domains, k.domain)
    case None => false
    case Some(dc) => k.name in dc.accounts
  }

  /** lastActivity(dir).After(cutoff): the newest file of the directory, or Go's zero time. */
  predicate Active(files: map<string, File>, cutoff: int) {
    0 > cutoff || exists f | f in files :: files[f].mtime > cutoff
  }

  /** Is this directory purged by one sweep? peers lists the data directories of sibling relays. */
  predicate Purged(cfg: Config, entries: map<Key, Entry>, peers: seq<map<Key, Entry>>, cutoff: int, k: Key) {
    k.domain in cfg && cfg[k.domain].allowProvision && k in entries && entries[k].Directory? && !IsStatic(cfg, k) &&
    !Active(entries[k].files, cutoff) && forall i | 0 <= i < |peers| :: !Active(Walked(peers[i], k), cutoff)
  }

  function PurgedKeys(cfg: Config, entries: map<Key, Entry>, peers: seq<map<Key, Entry>>, cutoff: int): set<Key> {
    set k | k in entries && Purged(cfg, entries, peers, cutoff, k)
  }

  function Sweep(cfg: Config, s: State, peers: seq<map<Key, Entry>>, cutoff: int, stuck: set<Key>): State {
    var gone := PurgedKeys(cfg, s.disk.entries, peers, cutoff);
    Removed(s, gone, gone - stuck)
  }

  // ----- custom domains ------------------------------------------------------

  predicate ValidLabel(l: string) {
    1 <= |l| <= 63 && LowerOrDigit(l[0]) && LowerOrDigit(l[|l| - 1]) &&
    forall i | 0 <= i < |l| :: LowerOrDigit(l[i]) || l[i] == '-'
  }

  /** validCustomDomain */
  predicate ValidCustomDomain(d: string) {
    var labels := Split(d, ".");
    var last := labels[|labels| - 1];
    |labels| >= 2 && (forall i | 0 <= i < |labels| - 1 :: ValidLabel(labels[i])) &&
    |last| >= 2 && forall i | 0 <= i < |last| :: 'a' <= last[i] <= 'z'
  }

  /** /domain/add, with the TXT verdict and the provisioning secret of the domain. */
  function AddDomain(s: State, name: string, proven: bool, secret: string, writes: bool): (State, Response) {
    var d := Tidy(name);
    if !ValidCustomDomain(d) then (s, BadRequest)
    else if !proven then (s, Forbidden)
    else if !writes then (s, Failed)
    else (WithDomain(s, d, DomainConfig(map[], false, secret)), Done)
  }

  function WithDomain(s: State, d: string, dc: DomainConfig): State {
    State(s.mem.(domains := s.mem.domains[d := dc]), s.disk.(domains := s.disk.domains[d := Some(dc)]))
  }

  /** /domain/verify-token makes the directory of a valid domain name. */
  function MakeDomainDir(s: State, name: string): State {
    var d := Tidy(name);
    if !ValidCustomDomain(d) || d in s.disk.domains then s else WithDomainDir(s, d)
  }

  function WithDomainDir(s: State, d: string): State {
    s.(disk := s.disk.(domains := s.disk.domains[d := None]))
  }

  /** Any write of another file into a directory under a known domain: messages, keys, envelopes, peer keys. */
  function Write(cfg: Config, s: State, k: Key, name: string, f: File): State {
    if Lookup(cfg, s.mem.domains, k.domain).None? || !Component(k.name) || name == HASH_FILE || Blocked(s.disk.entries, k)
    then s
    else s.(disk := s.disk.(entries := s.disk.entries[k := Directory(Files(s.disk.entries, k)[name := f])]))
  }

  // ----- runs ----------------------------------------------------------------

  datatype Step =
    | Provisioning(request: Request, default: string, world: World)
    | Finishing(key: Key, request: Request, world: World)
    | Deletion(verify: Verifier, username: string, password: string, removes: bool)
    | Purge(peers: seq<map<Key, Entry>>, cutoff: int, stuck: set<Key>)
    | DomainAddition(name: string, proven: bool, secret: string, writes: bool)
    | DomainToken(name: string)
    | FileWrite(key: Key, file: string, content: File)
    | Restart

  /** The name of an admitted provision is valid and its domain known. */
  predicate Finishable(cfg: Config, s: State, k: Key) {
    ValidUsername(k.name) && Lookup(cfg, s.mem.domains, k.domain).Some?
  }

  ghost function Next(cfg: Config, s: State, step: Step): State {
    match step
    case Provisioning(r, d, w) => if Default(cfg, d) then Provision(cfg, s, r, d, w).0 else s
    case Finishing(k, r, w) => if Finishable(cfg, s, k) then Finish(s, k, r, w).0 else s
    case Deletion(v, u, p, removes) => Delete(cfg, s, v, u, p, removes).0
    case Purge(peers, cutoff, stuck) => Sweep(cfg, s, peers, cutoff, stuck)
    case DomainAddition(n, proven, secret, writes) => AddDomain(s, n, proven, secret, writes).0
    case DomainToken(n) => MakeDomainDir(s, n)
    case FileWrite(k, n, f) => Write(cfg, s, k, n, f)
    case Restart => Booted(cfg, s.disk)
  }

  ghost function Run(cfg: Config, s: State, steps: seq<Step>): State
    decreases |steps|
  {
    if steps == [] then s else Run(cfg, Next(cfg, s, steps[0]), steps[1..])
  }
}
