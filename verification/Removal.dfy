/** Deletion and purge are exact: what goes, what stays, and which aliases go with it. */
module Removal {
  import opened Text
  import opened Registry
  import opened RegistryProof
  import opened RestartProof

  /** Removing takes account l out of memory exactly if it is to leave it, out of the data directory exactly if its
      directory is to go, and changes nothing else about it. */
  lemma AccountRemoved(s: State, ks: set<Key>, lost: set<Key>, l: Key)
    requires Plain(ks) && '@' !in l.domain
    ensures var t := Removed(s, ks, lost); var e := Email(l);
            (e in t.mem.stores <==> e in s.mem.stores && l !in ks) &&
            (e in t.mem.stores ==> t.mem.stores[e] == s.mem.stores[e]) &&
            (e in t.mem.dyn <==> e in s.mem.dyn && l !in ks) &&
            (l in t.disk.entries <==> l in s.disk.entries && l !in lost) &&
            (l in t.disk.entries ==> t.disk.entries[l] == s.disk.entries[l])
  {
    EmailOfRemoved(ks, l);
  }

  lemma EmailOfRemoved(ks: set<Key>, l: Key)
    requires Plain(ks) && '@' !in l.domain
    ensures Email(l) in Emails(ks) <==> l in ks
  {
    forall k | k in ks && Email(k) == Email(l) ensures k == l {
      EmailInjective(k, l);
    }
  }

  /** An alias of account l goes exactly if l does, or if the alias itself spells a removed address up to case. */
  lemma AliasRemoved(s: State, ks: set<Key>, lost: set<Key>, l: Key, alias: string)
    requires Plain(ks) && '@' !in l.domain
    requires alias in s.mem.aliases && s.mem.aliases[alias] == Email(l)
    ensures var t := Removed(s, ks, lost);
            (alias in t.mem.aliases <==> l !in ks && forall k | k in ks :: !EqualFold(alias, Email(k))) &&
            (alias in t.mem.aliases ==> t.mem.aliases[alias] == Email(l))
  {
    EmailOfRemoved(ks, l);
    forall k | k in ks ensures Email(k) in Emails(ks) {}
  }

  /** No alias is left pointing at a removed account. */
  lemma NoAliasLeft(s: State, ks: set<Key>, lost: set<Key>, k: Key)
    requires k in ks
    ensures var t := Removed(s, ks, lost); forall a | a in t.mem.aliases :: t.mem.aliases[a] != Email(k)
  {
  }

  /** No file of the directory is newer than the cutoff. */
  predicate Idle(files: map<string, File>, cutoff: int) {
    forall f | f in files :: files[f].mtime <= cutoff
  }

  /** What the operator asked to have purged. */
  predicate Expired(cfg: Config, disk: Disk, peers: seq<map<Key, Entry>>, cutoff: int, l: Key) {
    l in disk.entries && disk.entries[l].Directory? &&
    l.domain in cfg && cfg[l.domain].allowProvision && l.name !in cfg[l.domain].accounts &&
    0 <= cutoff && Idle(disk.entries[l].files, cutoff) && forall i | 0 <= i < |peers| :: Idle(Walked(peers[i], l), cutoff)
  }

  lemma ExpiredIsPurged(cfg: Config, disk: Disk, peers: seq<map<Key, Entry>>, cutoff: int, l: Key)
    ensures l in PurgedKeys(cfg, disk.entries, peers, cutoff) <==> Expired(cfg, disk, peers, cutoff, l)
  {
  }

  /** Purge is exact: one sweep takes an account from memory and from disk if and only if it is expired. A static account,
      an account under a closed domain, and one with a file after the cutoff here or at any peer stay as they are. */
  lemma SweepExactly(cfg: Config, s: State, peers: seq<map<Key, Entry>>, cutoff: int, l: Key)
    requires WellFormed(cfg) && Inv(cfg, s) && '@' !in l.domain
    ensures var t := Sweep(cfg, s, peers, cutoff, {}); var e := Email(l);
            var gone := Expired(cfg, s.disk, peers, cutoff, l);
            (l in t.disk.entries <==> l in s.disk.entries && !gone) &&
            (l in t.disk.entries ==> t.disk.entries[l] == s.disk.entries[l]) &&
            (e in t.mem.stores <==> e in s.mem.stores && !gone) &&
            (e in t.mem.stores ==> t.mem.stores[e] == s.mem.stores[e]) &&
            (e in t.mem.dyn <==> e in s.mem.dyn && !gone) &&
            (gone ==> forall a | a in t.mem.aliases :: t.mem.aliases[a] != e)
  {
    var ks := PurgedKeys(cfg, s.disk.entries, peers, cutoff);
    PurgedPlain(cfg, s, peers, cutoff);
    ExpiredIsPurged(cfg, s.disk, peers, cutoff, l);
    AccountRemoved(s, ks, ks - {}, l);
    if l in ks {
      NoAliasLeft(s, ks, ks - {}, l);
    }
  }

  lemma PurgedPlain(cfg: Config, s: State, peers: seq<map<Key, Entry>>, cutoff: int)
    requires WellFormed(cfg) && Inv(cfg, s)
    ensures Plain(PurgedKeys(cfg, s.disk.entries, peers, cutoff))
  {
  }

  /** Deletion is exact: an accepted request takes out of memory the account its credentials name, and out of the data
      directory the one directory that name reaches; everything else, and every alias that neither points at the account
      nor spells the user name, is untouched. Account and directory are one and the same exactly if the local part is one
      clean path component. */
  lemma DeleteExactly(cfg: Config, s: State, verify: Verifier, u: string, p: string, l: Key)
    requires WellFormed(cfg) && Inv(cfg, s) && '@' !in l.domain
    ensures var (t, response) := Delete(cfg, s, verify, u, p, true); var e := Email(l);
            var auth := if response == Done then Authenticate(cfg, s, verify, u, p) else None;
            var gone := auth == Some(l);
            (response == Done ==> auth.Some? && (Place(s.disk.root, auth.value) == auth <==> Component(auth.value.name))) &&
            (l in t.disk.entries <==> l in s.disk.entries && !(auth.Some? && Place(s.disk.root, auth.value) == Some(l))) &&
            (e in t.mem.stores <==> e in s.mem.stores && !gone) &&
            (e in t.mem.dyn <==> e in s.mem.dyn && !gone) &&
            (gone ==> EqualFold(e, u) && forall a | a in t.mem.aliases :: t.mem.aliases[a] != e) &&
            (forall a | a in s.mem.aliases && s.mem.aliases[a] == e :: a in t.mem.aliases <==>
              !gone && (auth.Some? ==> !EqualFold(a, u)))
  {
    var auth := Authenticate(cfg, s, verify, u, p);
    AuthenticatedPlace(cfg, s, verify, u, p);
    if auth.Some? && !IsConfigured(cfg, s, auth.value) {
      var k := auth.value;
      var lost := Target(s.disk.root, k);
      FoldsLowered(u, k);
      AccountRemoved(s, {k}, lost, l);
      NoAliasLeft(s, {k}, lost, k);
      forall a | a in s.mem.aliases && s.mem.aliases[a] == Email(l)
        ensures a in Removed(s, {k}, lost).mem.aliases <==> l != k && !EqualFold(a, u)
      {
        AliasRemoved(s, {k}, lost, l, a);
      }
    }
  }

  lemma FoldsLowered(u: string, k: Key)
    requires Email(k) == Lower(u)
    ensures EqualFold(Email(k), u) && forall a :: EqualFold(a, Email(k)) <==> EqualFold(a, u)
  {
  }
}
