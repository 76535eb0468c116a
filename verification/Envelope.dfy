/** cryptenv/envelope.go: the key envelope, its password changes and its nonce framing. */
module Envelope {
  import opened Text
  import opened BitStrings

  type Bytes = seq<byte>

  const NONCE_SIZE := 12
  const VERSION := 1

  datatype KdfParams = KdfParams(time: nat, memory: nat, threads: nat)

  const DEFAULT_KDF := KdfParams(3, 65536, 4)

  /** The primitives, as functions: Argon2id, AES-GCM with an explicit nonce, HKDF with its context, SHA-256. */
  datatype Crypto = Crypto(
    argon2: (string, Bytes, KdfParams) -> Bytes,
    seal: (Bytes, Bytes, Bytes) -> Bytes,
    open: (Bytes, Bytes, Bytes) -> Option<Bytes>,
    hkdf: (Bytes, string) -> Bytes,
    sha256: Bytes -> Bytes)

  /** Authenticated-encryption correctness: opening with the key and nonce of the seal gives the plain text, opening with
      another key fails. Key separation: another password gives another key. */
  ghost predicate Sound(c: Crypto) {
    (forall k, n, p :: c.open(k, n, c.seal(k, n, p)) == Some(p)) &&
    (forall k, l, n, p :: k != l ==> c.open(l, n, c.seal(k, n, p)) == None) &&
    (forall p, q, s, d :: p != q ==> c.argon2(p, s, d) != c.argon2(q, s, d))
  }

  datatype Envelope = Envelope(version: int, salt: Bytes, kdf: KdfParams, wrapped: Bytes, authHash: Bytes)

  datatype Secrets = Secrets(token: Bytes, kek: Bytes)

  const AUTH_INFO := "biset-jmapsmtp/auth/v1"
  const KEK_INFO := "biset-jmapsmtp/enc/v1"

  /** deriveAuthAndKEK */
  function Derive(c: Crypto, master: Bytes): Secrets {
    Secrets(c.hkdf(master, AUTH_INFO), c.hkdf(master, KEK_INFO))
  }

  /** aesGCMSeal: the nonce in front of the cipher text. */
  function SealFramed(c: Crypto, key: Bytes, nonce: Bytes, plain: Bytes): Bytes {
    nonce + c.seal(key, nonce, plain)
  }

  /** aesGCMOpen: twelve bytes of nonce, the rest cipher text. */
  function OpenFramed(c: Crypto, key: Bytes, sealed: Bytes): Option<Bytes> {
    if |sealed| < NONCE_SIZE then None else c.open(key, sealed[..NONCE_SIZE], sealed[NONCE_SIZE..])
  }

  lemma FramingOpens(c: Crypto, key: Bytes, other: Bytes, nonce: Bytes, plain: Bytes)
    requires Sound(c) && |nonce| == NONCE_SIZE
    ensures OpenFramed(c, other, SealFramed(c, key, nonce, plain)) == if other == key then Some(plain) else None
  {
  }

  /** An envelope around a master secret. */
  function Wrap(c: Crypto, password: string, master: Bytes, salt: Bytes, nonce: Bytes): Envelope {
    Envelope(VERSION, salt, DEFAULT_KDF, SealFramed(c, c.argon2(password, salt, DEFAULT_KDF), nonce, master),
      c.sha256(Derive(c, master).token))
  }

  /** NewEnvelope, with the random bytes it draws. */
  function NewEnvelope(c: Crypto, password: string, master: Bytes, salt: Bytes, nonce: Bytes): Option<(Envelope, Secrets)> {
    if password == "" then None else Some((Wrap(c, password, master, salt, nonce), Derive(c, master)))
  }

  function Unseal(c: Crypto, e: Envelope, password: string): Option<Secrets> {
    if e.version != VERSION then None
    else match OpenFramed(c, c.argon2(password, e.salt, e.kdf), e.wrapped)
      case None => None
      case Some(master) => Some(Derive(c, master))
  }

  /** Rewrap, with the random bytes it draws. It does not look at the version. */
  function Rewrap(c: Crypto, e: Envelope, oldPassword: string, newPassword: string, salt: Bytes, nonce: Bytes): Option<Envelope> {
    if newPassword == "" then None
    else match OpenFramed(c, c.argon2(oldPassword, e.salt, e.kdf), e.wrapped)
      case None => None
      case Some(master) => Some(Wrap(c, newPassword, master, salt, nonce))
  }

  function VerifyAuth(c: Crypto, e: Envelope, token: Bytes): bool {
    c.sha256(token) == e.authHash
  }

  /** One password change as asked for, with its random bytes. */
  datatype Change = Change(oldPassword: string, newPassword: string, salt: Bytes, nonce: Bytes)

  /** A chain of changes: a refused one leaves the envelope as it is. */
  function Changed(c: Crypto, e: Envelope, x: Change): Envelope {
    match Rewrap(c, e, x.oldPassword, x.newPassword, x.salt, x.nonce) case None => e case Some(f) => f
  }

  function ChangeAll(c: Crypto, e: Envelope, xs: seq<Change>): Envelope
    decreases |xs|
  {
    if xs == [] then e else ChangeAll(c, Changed(c, e, xs[0]), xs[1..])
  }

  /** The password after a chain of changes: a change counts if it names the current password and a non-empty new one. */
  function Latest(password: string, xs: seq<Change>): string
    decreases |xs|
  {
    if xs == [] then password
    else Latest(if xs[0].oldPassword == password && xs[0].newPassword != "" then xs[0].newPassword else password, xs[1..])
  }

  /** e is a version-1 envelope of this master secret under this password. */
  ghost predicate Holds(c: Crypto, e: Envelope, master: Bytes, password: string) {
    exists salt, nonce :: |nonce| == NONCE_SIZE && e == Wrap(c, password, master, salt, nonce)
  }

  lemma WrapOpens(c: Crypto, password: string, other: string, master: Bytes, salt: Bytes, nonce: Bytes)
    requires Sound(c) && |nonce| == NONCE_SIZE
    ensures var e := Wrap(c, password, master, salt, nonce);
            OpenFramed(c, c.argon2(other, e.salt, e.kdf), e.wrapped) == if other == password then Some(master) else None
  {
  }

  /** An envelope opens with its password, to its own secrets, and with no other. */
  lemma HoldsUnseals(c: Crypto, e: Envelope, master: Bytes, password: string, other: string)
    requires Sound(c) && Holds(c, e, master, password)
    ensures Unseal(c, e, other) == if other == password then Some(Derive(c, master)) else None
  {
  }

  lemma LatestOne(password: string, x: Change)
    ensures Latest(password, [x]) == if x.oldPassword == password && x.newPassword != "" then x.newPassword else password
  {
  }

  lemma ChangedHolds(c: Crypto, e: Envelope, master: Bytes, password: string, x: Change)
    requires Sound(c) && Holds(c, e, master, password) && |x.nonce| == NONCE_SIZE
    ensures Holds(c, Changed(c, e, x), master, Latest(password, [x]))
    ensures Rewrap(c, e, x.oldPassword, x.newPassword, x.salt, x.nonce).Some? <==>
            x.oldPassword == password && x.newPassword != ""
  {
    var salt, nonce :| |nonce| == NONCE_SIZE && e == Wrap(c, password, master, salt, nonce);
    WrapOpens(c, password, x.oldPassword, master, salt, nonce);
    LatestOne(password, x);
    if x.oldPassword == password && x.newPassword != "" {
      assert Changed(c, e, x) == Wrap(c, x.newPassword, master, x.salt, x.nonce);
    } else {
      assert Changed(c, e, x) == e;
    }
  }

  lemma LatestCons(password: string, x: Change, xs: seq<Change>)
    ensures Latest(password, [x] + xs) == Latest(Latest(password, [x]), xs)
  {
  }

  lemma {:induction false} ChainHolds(c: Crypto, e: Envelope, master: Bytes, password: string, xs: seq<Change>)
    requires Sound(c) && Holds(c, e, master, password) && forall i | 0 <= i < |xs| :: |xs[i].nonce| == NONCE_SIZE
    ensures Holds(c, ChangeAll(c, e, xs), master, Latest(password, xs))
    decreases |xs|
  {
    if xs != [] {
      ChangedHolds(c, e, master, password, xs[0]);
      LatestCons(password, xs[0], xs[1..]);
      assert xs == [xs[0]] + xs[1..];
      ChainHolds(c, Changed(c, e, xs[0]), master, Latest(password, [xs[0]]), xs[1..]);
    }
  }

  /** From a new envelope, any chain of password changes preserves the secrets: the latest password unseals to the
      original token and KEK, every other password fails, and the original token is still accepted. */
  lemma ChainPreservesSecrets(c: Crypto, password: string, master: Bytes, salt: Bytes, nonce: Bytes, xs: seq<Change>, other: string)
    requires Sound(c) && password != "" && |nonce| == NONCE_SIZE && forall i | 0 <= i < |xs| :: |xs[i].nonce| == NONCE_SIZE
    ensures var (e, secrets) := NewEnvelope(c, password, master, salt, nonce).value;
            var f := ChangeAll(c, e, xs);
            (Unseal(c, f, other) == if other == Latest(password, xs) then Some(secrets) else None) &&
            f.authHash == e.authHash && VerifyAuth(c, f, secrets.token)
  {
    var e := Wrap(c, password, master, salt, nonce);
    assert Holds(c, e, master, password);
    ChainHolds(c, e, master, password, xs);
    var f := ChangeAll(c, e, xs);
    HoldsUnseals(c, f, master, Latest(password, xs), other);
    assert f.authHash == c.sha256(Derive(c, master).token);
  }

  /** Rewrap accepts envelopes Unseal rejects: it never reads the version, and what it makes has the current one. */
  lemma RewrapIgnoresVersion(c: Crypto, e: Envelope, master: Bytes, password: string, version: int, x: Change)
    requires Sound(c) && Holds(c, e, master, password) && |x.nonce| == NONCE_SIZE && version != VERSION
    requires x.oldPassword == password && x.newPassword != ""
    ensures Unseal(c, e.(version := version), password) == None
    ensures Unseal(c, Changed(c, e.(version := version), x), x.newPassword) == Some(Derive(c, master))
  {
  }
}
