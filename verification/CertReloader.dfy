/** main.go: the certificate cache of the inbound TLS listener, with files an external writer renews at any time. */
module CertReloader {
  import opened Text

  /** The certificate file with its modification time, and the key file. */
  datatype CertFile = CertFile(content: string, mtime: int)

  datatype Files = Files(cert: Option<CertFile>, key: Option<string>)

  /** A certificate and the private key that belongs to it; the same key can be written in many ways. */
  datatype Pair = Pair(cert: string, key: string)

  /** tls.X509KeyPair: the private key a key file holds, if it belongs to the certificate. */
  type Matching = (string, string) -> Option<string>

  /** tls.LoadX509KeyPair: a pair loads when the files are there and the key belongs to the certificate. */
  function Load(matches: Matching, cert: Option<string>, key: Option<string>): Option<Pair> {
    if cert.None? || key.None? then None
    else match matches(cert.value, key.value) case None => None case Some(k) => Some(Pair(cert.value, k))
  }

  function Content(f: Files): Option<string> {
    match f.cert case None => None case Some(c) => Some(c.content)
  }

  /** What loading the files as they stand gives. */
  function Direct(matches: Matching, f: Files): Option<Pair> {
    Load(matches, Content(f), f.key)
  }

  /** The cache: the last good pair and the modification time noted with it. */
  datatype Cache = Cache(cached: Option<Pair>, modTime: int)

  function StatTime(f: Files): Option<int> {
    match f.cert case None => None case Some(c) => Some(c.mtime)
  }

  predicate Hit(c: Cache, stat: Option<int>) {
    stat.Some? && c.cached.Some? && stat.value == c.modTime
  }

  /** The cache after a load: a failed one changes nothing, a good one is noted with the time of the stat, if that
      succeeded. */
  function Refreshed(c: Cache, stat: Option<int>, loaded: Option<Pair>): Cache {
    match loaded
    case None => c
    case Some(p) => Cache(Some(p), if stat.Some? then stat.value else c.modTime)
  }

  /** certReloader.get. The stat, the read of the certificate and the read of the key each see the files as they are at
      that moment. */
  class Reloader {
    var cached: Option<Pair>
    var modTime: int

    constructor ()
      ensures State() == Cache(None, 0)
    {
      cached, modTime := None, 0;
    }

    function State(): Cache
      reads this
    {
      Cache(cached, modTime)
    }

    method Get(matches: Matching, atStat: Files, atCert: Files, atKey: Files) returns (r: Option<Pair>)
      modifies this
      ensures var stat := StatTime(atStat);
              if Hit(old(State()), stat) then State() == old(State()) && r == old(cached)
              else State() == Refreshed(old(State()), stat, Load(matches, Content(atCert), atKey.key)) && r == cached
      ensures old(cached).Some? ==> r.Some?
    {
      var fi := StatTime(atStat);
      if fi.Some? && cached.Some? && fi.value == modTime {
        return cached;
      }
      var cert := Load(matches, Content(atCert), atKey.key);
      if cert.None? {
        return cached;
      }
      cached := cert;
      if fi.Some? {
        modTime := fi.value;
      }
      r := cached;
    }
  }

  // ----- runs with a writer in between ---------------------------------------

  /** Where a get stands: between calls, after the stat, or after the certificate was read. */
  datatype Phase = Idle | Statted(stat: Option<int>) | ReadCert(stat: Option<int>, cert: Option<string>)

  /** clock is not less than any modification time given out so far. */
  datatype World = World(files: Files, clock: int, cache: Cache, phase: Phase, answer: Option<Pair>)

  datatype Step =
    | WriteCert(content: string, mtime: int)
    | RemoveCert
    | WriteKey(content: string)
    | RemoveKey
    | Stat
    | OpenCert
    | OpenKey

  /** The writer gives every new certificate file a later time than any before; a get runs its three reads in order. */
  function Next(matches: Matching, w: World, s: Step): World {
    match s
    case WriteCert(content, mtime) =>
      if mtime > w.clock then w.(files := w.files.(cert := Some(CertFile(content, mtime))), clock := mtime) else w
    case RemoveCert => w.(files := w.files.(cert := None))
    case WriteKey(content) => w.(files := w.files.(key := Some(content)))
    case RemoveKey => w.(files := w.files.(key := None))
    case Stat =>
      if !w.phase.Idle? then w
      else if Hit(w.cache, StatTime(w.files)) then w.(answer := w.cache.cached)
      else w.(phase := Statted(StatTime(w.files)))
    case OpenCert => if w.phase.Statted? then w.(phase := ReadCert(w.phase.stat, Content(w.files))) else w
    case OpenKey =>
      if !w.phase.ReadCert? then w
      else
        var c := Refreshed(w.cache, w.phase.stat, Load(matches, w.phase.cert, w.files.key));
        w.(cache := c, phase := Idle, answer := c.cached)
  }

  function Run(matches: Matching, w: World, steps: seq<Step>): World
    decreases |steps|
  {
    if steps == [] then w else Run(matches, Next(matches, w, steps[0]), steps[1..])
  }

  /** Before the first get, with a clock past Go's zero time. */
  predicate Start(w: World) {
    w.cache == Cache(None, 0) && w.phase == Idle && w.clock >= 0 &&
    (w.files.cert.Some? ==> 0 < w.files.cert.value.mtime <= w.clock)
  }

  /** If a noted time is the time of the certificate file now, the noted content is what the file holds now. */
  ghost predicate Noted(f: Files, time: int, content: string) {
    StatTime(f) == Some(time) ==> Content(f) == Some(content)
  }

  /** A pair that some key file gives. */
  ghost predicate Genuine(matches: Matching, p: Pair) {
    exists k :: matches(p.cert, k) == Some(p.key)
  }

  ghost predicate CacheInv(matches: Matching, f: Files, clock: int, c: Cache) {
    0 <= c.modTime <= clock &&
    (c.cached.Some? ==> Genuine(matches, c.cached.value) && Noted(f, c.modTime, c.cached.value.cert))
  }

  /** A get under way: the time its stat saw is past; what it read belongs to that time if that is still the file's. A
      get whose stat failed can only have read a file newer than the cache. */
  ghost predicate PhaseInv(f: Files, clock: int, c: Cache, p: Phase) {
    match p
    case Idle => true
    case Statted(stat) => if stat.Some? then 0 < stat.value <= clock else StatTime(f) != Some(c.modTime)
    case ReadCert(stat, cert) =>
      if stat.Some? then 0 < stat.value <= clock && (cert.Some? ==> Noted(f, stat.value, cert.value))
      else StatTime(f) != Some(c.modTime)
  }

  ghost predicate Inv(matches: Matching, w: World) {
    (w.files.cert.Some? ==> 0 < w.files.cert.value.mtime <= w.clock) &&
    CacheInv(matches, w.files, w.clock, w.cache) && PhaseInv(w.files, w.clock, w.cache, w.phase)
  }

  lemma StartInv(matches: Matching, w: World)
    requires Start(w)
    ensures Inv(matches, w)
  {
  }

  lemma StepInv(matches: Matching, w: World, s: Step)
    requires Inv(matches, w)
    ensures Inv(matches, Next(matches, w, s))
  {
  }

  lemma {:induction false} RunInv(matches: Matching, w: World, steps: seq<Step>)
    requires Inv(matches, w)
    ensures Inv(matches, Run(matches, w, steps))
    decreases |steps|
  {
    if steps != [] {
      StepInv(matches, w, steps[0]);
      RunInv(matches, Next(matches, w, steps[0]), steps[1..]);
    }
  }

  /** A certificate has one private key, whichever file it is written in. */
  ghost predicate OneKey(matches: Matching) {
    forall c, k, l :: matches(c, k).Some? && matches(c, l).Some? ==> matches(c, k) == matches(c, l)
  }

  /** Cache coherence: after any run of gets and writes, a get during which the files stay put and are a valid pair
      answers with what a direct load gives. */
  lemma Coherent(matches: Matching, w0: World, steps: seq<Step>)
    requires Start(w0) && OneKey(matches)
    ensures var w := Run(matches, w0, steps);
            w.phase.Idle? && Direct(matches, w.files).Some? ==>
            Run(matches, w, [Stat, OpenCert, OpenKey]).answer == Direct(matches, w.files)
  {
    StartInv(matches, w0);
    RunInv(matches, w0, steps);
    var w := Run(matches, w0, steps);
    if w.phase.Idle? && Direct(matches, w.files).Some? {
      var w1 := Next(matches, w, Stat);
      var w2 := Next(matches, w1, OpenCert);
      RunThree(matches, w, Stat, OpenCert, OpenKey);
      var p := Direct(matches, w.files).value;
      if Hit(w.cache, StatTime(w.files)) {
        assert w.cache.cached.value.cert == p.cert;
        var k :| matches(p.cert, k) == Some(w.cache.cached.value.key);
        assert matches(p.cert, w.files.key.value) == Some(p.key);
      }
    }
  }

  lemma RunThree(matches: Matching, w: World, a: Step, b: Step, c: Step)
    ensures Run(matches, w, [a, b, c]) == Next(matches, Next(matches, Next(matches, w, a), b), c)
  {
    assert [a, b, c][1..] == [b, c] && [b, c][1..] == [c] && [c][1..] == [];
    var x := Next(matches, w, a);
    assert Run(matches, x, [b, c]) == Run(matches, Next(matches, x, b), [c]);
  }

  /** A failed load serves the last good certificate: once one was cached, whatever the writer does, the cache holds a
      matching pair and no get answers without one. */
  lemma {:induction false} NeverLost(matches: Matching, w: World, steps: seq<Step>)
    requires Inv(matches, w) && w.cache.cached.Some? && w.answer.Some?
    ensures var t := Run(matches, w, steps);
            t.cache.cached.Some? && t.answer.Some? && Genuine(matches, t.cache.cached.value)
    decreases |steps|
  {
    if steps != [] {
      StepInv(matches, w, steps[0]);
      NeverLost(matches, Next(matches, w, steps[0]), steps[1..]);
    }
  }
}
