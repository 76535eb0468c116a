# Verification of the JMAP/SMTP relay

A Dafny 4.11 model of the relay's core logic, with proofs. It follows the Go code branch by branch: the handler's maps,
the SMTP session, the incoming buffer, the certificate cache and a submitted message are classes with fields that
methods update; the loops that build text or maps are methods with invariants. Each such method is proved equal to a
small specification function, and the theorems are lemmas about those functions, over every input and every run.

`dafny verify dfyconfig.toml` checks everything.

## What is modelled

- **Accounts** (`Registry`, `Paths`, `RegistryProof`, `RestartProof`, `AuthProof`, `Removal`, `Credentials`,
  `RelayProgram`). Memory is the handler's `stores`, `aliases` and `dyn` maps and the custom-domain registry; the disk is
  the path of the data directory, a map from (domain, name) to a directory or a plain file, and the parsed `domain.json`
  files. A user name reaches a directory through the path cleaning of `filepath.Join`. Startup, cleanup, scan, provision,
  delete, purge, domain registration, other file writes and restarts are steps, with every failure of the file system,
  the store library and the identity anchor as an input. A provision is one step, or two with other requests in between.
  `RelayProgram.Relay` is the program itself; `Registry` is what each of its methods is proved to do.
- **Inbound mail** (`Delivery`, `DeliveryProof`, `DeliveryOrder`, `AtRest`, `Inbound`). A state machine interleaves
  sessions, the recipient loop one recipient at a time, any number of drainers whose receive, lookup and put are three
  steps, and arbitrary changes of aliases and stores; `Inbound` is the code on the heap, where all copies of one parsed
  message share their body map and their keyword map.
- **Outbound mail** (`HeaderInjection`, `PgpMime`, `PgpMimeProof`, `Mime`, `Submission`, `Outbound`). The injected header
  fields, the RFC 3156 rewrapping, the recipient check, the two views of a submission, and grouping by domain. `Mime` is
  an independent reader of RFC 5322 headers and RFC 2046 multiparts, against which the output is judged.
- **Codecs** (`BitStrings`, `ZBase32`, `Base64`, `Autocrypt`). The z-base-32 packing loop with its wrapping 64-bit
  accumulator, the four-way base64 token decoder, and the Autocrypt header.
- **Certificate cache** (`CertReloader`) and **password envelope** (`Envelope`).
- **`Counterexamples`** and **`AccountCounterexamples`** hold concrete inputs on which the code does less than it
  promises; the theorem for each says exactly when the promise is kept.

## What the proofs found

- The restart promise has exact conditions (`RestartProof.StepAgrees`). A provision is lost at the next restart if the
  name is `peers`, the credential is only white space, or the account is static: the request is answered with success
  all the same. A delete or purge breaks agreement if a directory stays behind, if it is not the account's own, or if an
  address that a restart would bring back equals a removed one up to case.
- A local part that is not one clean path component, such as `./alice`, reaches the directory of another name.
  `authenticate` accepts it with that account's credential, `AuthFunc` does not, and deleting under it removes the
  directory but leaves the account in memory.
- `AuthFunc` looks for a dynamic account under the user name as typed, `authenticate` under the lower-cased one; with a
  capital letter the first rejects what the second accepts. Apart from such local parts and an unregistered `peers`
  directory that is the only difference (`AuthProof.AuthenticatorsAgree`).
- Of two provisions of one name that both pass their checks before either writes, both succeed and the second takes the
  account over (`Credentials.OverwritesExactly`).
- Requests drain the queue without a lock: two of them can put two messages of one account in the wrong order
  (`DeliveryOrder.OrderExactly`).
- In a DATA for several accounts the shared body is encrypted for the first account that has a working key, and every
  other account, earlier or later, with a key or without, gets that text (`AtRest.LegibleExactly`). The later ones find
  it marked `$e2e` as if the sender had encrypted it; if the message came with keywords, so do all. Encryption never
  stacks.
- Sending panics when the first end mark ends before the first begin mark starts. If they touch or overlap it does not,
  but an empty or senseless block is sent. The rewrapping keeps the continuation lines of a folded Content-Type or
  Content-Transfer-Encoding, and loses its header if the message starts with a line break.
- An address with a line break adds header lines of its own.
- A `Chat-Version:` line in the body suppresses the header field.
- `Rewrap` does not look at the envelope version, so it accepts and upgrades envelopes that `Unseal` rejects.

## Hypotheses

- `Registry.WellFormed`: no address belongs to two static accounts (the map order would decide) and configured domains
  are single path components without `@`, none of them `_domains`. `Registry.OnDisk`: so are the directory names under
  `data/_domains`, and entries of a directory are single path components.
- A file `auth_token_hash` stands only where the program writes it, directly in an account directory.
- `AtRest.Sound`: a message without text values has no body, one whose text values are all one armoured text has an
  armoured body, and encryption makes armoured text.
- `Envelope.Sound`: decryption inverts encryption, fails under another key, and other passwords give other keys.
- `AtRest.KeysApart`: text encrypted with one key is not text encrypted with another.
- `Witnesses` gives toy primitives that meet `AtRest.Sound`, `AtRest.KeysApart` and `Envelope.Sound`.
- `CertReloader`: the writer gives every new certificate file a later modification time; a certificate has one private
  key, however it is written.

## Model

| member | source | states |
|---|---|---|
| RestartProof.RestartRecovers | main.go:1109-1198 | from startup on any disk, after any run of steps each of which is safe, starting again on the disk gives the same stores, aliases, dynamic accounts and domains |
| RestartProof.StepAgrees | main.go:1109-1198 | a step keeps memory equal to what a restart would rebuild if and only if it meets conditions that can be checked before it |
| RestartProof.ProvisionAgrees | provision.go:178-189 | finishing a provision keeps that agreement exactly when the account is in memory afterwards if and only if the hash is not blank, the name is not peers and the account is not static |
| RestartProof.RemovedAgrees | provision.go:243-257 | a removal keeps it exactly when the credentialed directories that go are those of the accounts that leave memory, and no address a restart brings back folds to one of theirs |
| RestartProof.SafeDeletionName | provision.go:231-257 | a successful deletion is safe exactly when no address clashes and the local part is one clean path component, or the directory it reached held no dynamic account |
| Paths.OwnPlace | auth_env.go:28-30 | a name under a clean domain reaches the directory of that very name if and only if it is one clean path component |
| RegistryProof.ReachableInv | provision.go:149-265 | in every reachable state, whatever fails, every alias target and every dynamic account has a store, dynamic accounts have clean names under known domains, every directory is under a known domain, and the registry in memory is the one on disk |
| RegistryProof.StepInv | maintenance.go:51-109 | each single step keeps that invariant |
| RegistryProof.CleanupKeepsCredentials | main.go:1042-1084 | cleanup keeps every credentialed directory of a known domain unchanged, and the scan finds the same accounts before and after it |
| RegistryProof.RestartTwice | main.go:1109-1198 | restarting twice is restarting once, and a restarted relay agrees with its disk |
| RegistryProof.EmailInjective | main.go:380-393 | joining local part and domain is injective for domains without '@' |
| RegistryProof.SplitEmail | auth_env.go:74-85 | splitting at the first '@' undoes the joining |
| AuthProof.AuthenticatorsAgree | auth_env.go:74-99 | AuthFunc accepts nothing authenticate rejects, and both give the same answer and account exactly when authenticate rejects, or the user name is in lower case and its local part is configured or is one clean path component other than an unregistered peers |
| AuthProof.ReachableAuthenticatorsAgree | main.go:1122-1157 | the same in every state reachable while file system and stores do what they are asked |
| Credentials.LoginLasts | auth_env.go:74-99 | a login that works keeps working, as the same account, over every run of steps and restarts until a step writes or removes the credential in the directory its name reaches |
| Credentials.CredentialAfter | provision.go:149-199 | the credential of every account after every step: what the step writes for it, none if the step removes its directory, otherwise the one before |
| Credentials.OverwritesExactly | provision.go:151-189 | a provision that finishes after other requests overwrites a credential exactly when, since its check, another provision of the name wrote one that nothing has removed |
| Credentials.StepKeepsDomains | customdomain.go:174-242 | no step forgets a domain, registrations and restarts included |
| RegistryProof.CustomDomainPlain | customdomain.go:174-200 | a domain that passes the pattern is one path component without an at sign |
| Credentials.CreatedExactly | provision.go:58-199 | a provision succeeds exactly when the tidied name is valid and free, the domain is known and open or its secret was given, a credential and any claimed identity's proof are there, and the credential can be written |
| Removal.SweepExactly | maintenance.go:51-109 | one sweep takes an account from memory and disk if and only if its domain is open, it is not static, and none of its files is newer than the cutoff here or, directory or plain file, at any peer; no alias is left pointing at it |
| Removal.DeleteExactly | provision.go:231-265 | an accepted delete takes out of memory the account its credentials name and from disk the directory that name reaches, the same one exactly for a clean path component; an alias of any account survives unless that account is the removed one or the alias spells the user name up to case |
| Removal.AliasRemoved | provision.go:246-254 | which aliases of an account go with a set of removed accounts, both directions |
| Removal.AccountRemoved | maintenance.go:93-107 | what removal changes about one account in memory and on disk, and that it changes nothing else about it |
| RelayProgram.Relay.Boot | main.go:1109-1198 | startup, step by step, reaches exactly the state the specification of a restart gives |
| RelayProgram.Relay.LoadDynDomains | customdomain.go:95-123 | the registry after the loop is what is on disk |
| RelayProgram.Relay.CleanupOrphanedData | main.go:1042-1084 | the disk after both loops holds exactly the entries to be kept |
| RelayProgram.Relay.BuildStatic | main.go:1177-1195 | the alias and store maps, whatever the map order |
| RelayProgram.Relay.ScanDynAccounts | main.go:400-431 | exactly the credentialed, non-static directories not named peers are registered |
| RelayProgram.Relay.AddDynAccount | main.go:380-393 | the three maps after a registration, or unchanged if the store does not open |
| RelayProgram.Relay.ProvisionAccount | provision.go:58-199 | memory, disk and answer of a provision request, every refusal included |
| RelayProgram.Relay.DeleteAccount | provision.go:231-265 | memory, disk and answer of a delete request |
| RelayProgram.Relay.LastActivity | maintenance.go:24-35 | the result lies after a time exactly when the modification time of some file walked, or Go's zero time, does |
| RelayProgram.Relay.PurgeInactiveAccounts | maintenance.go:51-109 | memory and disk after a sweep, whatever the order of domains and directories |
| DeliveryProof.Conservation | main.go:476-510 | over every interleaving, with any number of drainers: the queue never exceeds 256 and is first in, first out; offered = placed + orphaned + dropped + held by drainers + still queued, as multisets; a store holds exactly what was put into it, in that order |
| DeliveryOrder.OrderExactly | main.go:433-510 | over every interleaving the messages of an account are done with in the order they were kept if and only if no drainer overtakes another that holds one of them |
| DeliveryOrder.AloneKeepsOrder | main.go:433-510 | that is so while no two drainers hold messages of the account at once |
| DeliveryOrder.TwoCanOvertake | main.go:433-510 | and as soon as two do, the later one can overtake |
| DeliveryOrder.SwappedRun | main.go:484-510 | two requests drain at once and a store ends up with the second message before the first |
| DeliveryProof.DataOffers | main.go:582-628 | over every interleaving each DATA has offered exactly one message per distinct primary its recipients resolved to, in first-occurrence order |
| DeliveryProof.AloneOffers | main.go:582-628 | an uninterrupted DATA resolves all its recipients with the aliases it started with and offers one message per distinct primary |
| DeliveryProof.DedupOrder | main.go:582-590 | the offered accounts are in the order of their first occurrences, none twice |
| Inbound.Handler.BufferEmail | main.go:476-482 | a full queue drops the message, otherwise it comes last |
| Inbound.Handler.DrainBuffer | main.go:484-510 | run by one request without interruption, the queue ends empty and the stores are those of draining it in order |
| Inbound.DrainAppends | main.go:484-510 | such a drain appends to each store just its messages in order and makes no store |
| Inbound.Session.Rcpt | main.go:537-546 | a recipient is remembered, in lower case, if and only if it is an alias |
| Inbound.Session.Data | main.go:582-628 | on the shared heap: one copy per distinct primary, in order; each copy is the original or encrypted with its own recipient's key, and its keywords hold $e2e, exactly under conditions on the original message, the keys and the recipient list |
| AtRest.NeverStacks | main.go:593-625 | for any recipients and keys the shared body ends as the original or as one encryption of it, and each copy's verdict is determined by the original message alone |
| AtRest.LegibleExactly | main.go:593-625 | every recipient, with a working key or without, gets the original or a text encrypted with its own key if and only if nobody's key encrypts the body or the first that does is its own |
| AtRest.MarkedExactly | main.go:593-612 | a copy's keywords hold $e2e exactly when its recipient came to an armoured body, or, with a keyword map the message brought, when any recipient did or the mark was there before |
| Submission.ReplyOnlyRuns | main.go:302-317 | over whole runs, deletions included, every recipient a restricted account handed to sending is up to case a From address of a message placed in its store before |
| Submission.ReplyOnlyExempt | provision.go:20-33 | the search finds exactly the listed senders and domains |
| Submission.MayReply | main.go:302-317 | accepts exactly the recipient lists all of whose members wrote to the account |
| Submission.Account.Submit | main.go:318-348 | the SMTP view, its body map and every value behind it are unchanged whichever parts share a value; the stored copy is encrypted on a map of its own; a refused submission changes nothing |
| Outbound.SendDirect | main.go:809-840 | a malformed address means no attempt at all and the first one is reported; otherwise every domain group is attempted once in any map order, success means all succeeded, and the reported failure is the first |
| Outbound.Partition | main.go:809-817 | together the groups hold every occurrence of every recipient exactly once |
| ZBase32.Encode | wkd.go:18-35 | for bytes of any length the loop, with its unmasked wrapping accumulator, emits the 5-bit big-endian groups of the unbounded bit string, the last one padded with zeros |
| ZBase32.DecodeInverts | wkd.go:18-35 | a decoder recovers the bytes from the digits |
| ZBase32.DigitsInjective | wkd.go:18-35 | different bytes have different digits |
| ZBase32.DigitsLength | wkd.go:18-35 | there are ceil(8n/5) digits; 20 bytes make 32 with no padded tail |
| ZBase32.WkdHash | wkd.go:18-35 | 32 digits that decode to the digest of the lower-cased local part |
| Base64.TokenUnambiguous | auth_env.go:101-115 | the decoder accepts what any of the four variants accepts, any variant that accepts gives the same bytes, and they are the octets of the symbols' bits |
| Base64.TokenRoundTrip | auth_env.go:101-115 | every byte string encoded in any variant decodes to itself |
| Base64.DecodeMeans | auth_env.go:101-115 | a variant accepts exactly the well-formed strings of its alphabet and padding, and what it answers does not depend on the variant |
| Autocrypt.RoundTrip | autocrypt.go:54-71 | header built, key data folded anyhow, parsed, stripped and decoded: the key comes back for every address, the address exactly when it has no semicolon and no outer white space |
| Autocrypt.ParseHeader | autocrypt.go:116-131 | the attribute loop computes the fold over the attributes in which later ones win |
| Autocrypt.AddressReadsBack | autocrypt.go:116-146 | which addresses a parser gets back, both directions |
| PgpMime.WrapInline | autocrypt.go:251-290 | the buffer writes add up to the specified rewrapping, its errors and its panic included |
| PgpMimeProof.WrapReadsBack | autocrypt.go:251-290 | a multipart reader gets back the other fields in order, one Content-Type, the Version part and the block with CRLF endings if and only if the message does not start with a line break, no dropped field is folded, and no line of the block starts with the delimiter |
| PgpMimeProof.KeptFields | autocrypt.go:269-275 | dropping lines drops exactly the named fields if and only if none of those is folded |
| PgpMimeProof.CrlfInverts | autocrypt.go:287-288 | the original block is recovered from its CRLF lines |
| PgpMimeProof.BlockShape | autocrypt.go:258-265 | what is wrapped starts with a begin mark and ends with an end mark exactly when the first begin mark does not come behind the first end mark |
| HeaderInjection.InjectionFrames | autocrypt.go:37-95 | both injections keep every header line and the body, append each field at most once, and move the blank line by exactly the inserted length if and only if the address holds no line break; without a blank line nothing changes |
| HeaderInjection.InjectedIsRead | main.go:562-580 | a receiver takes the first Autocrypt field: it reads the injected key and address if the message had none, otherwise what it would have read without the injection |
| HeaderInjection.OutgoingPanics | main.go:776-792 | sending panics exactly on a message with a blank line whose body holds both marks with the first end mark ending before the first begin mark |
| HeaderInjection.ChatVersionPresent | autocrypt.go:37-51 | the header ends up with a Chat-Version line exactly when there is a blank line and the header had one or no such line stands anywhere |
| HeaderInjection.ChatVersionTwice | autocrypt.go:37-51 | Chat-Version injection is idempotent |
| HeaderInjection.OutgoingReadsBack | main.go:776-792 | the whole outgoing pipeline, for every address: both injections and the rewrapping together read back as the message's own fields, the added ones and the block, with the exact condition |
| CertReloader.Coherent | main.go:704-723 | after any interleaving of gets and writes, a get during which the files stay put and are a valid pair equals a direct load |
| CertReloader.NeverLost | main.go:704-723 | once a certificate is cached no get answers without one, whatever the writer does |
| CertReloader.Reloader.Get | main.go:704-723 | cache and answer of one get whose three reads may each see different files |
| Envelope.ChainPreservesSecrets | cryptenv/envelope.go:67-148 | after any chain of password changes, refused ones included, the latest password unseals to the original token and KEK, every other password fails, the hash is the same and the original token is still accepted |
| Envelope.FramingOpens | cryptenv/envelope.go:188-219 | the nonce prefix is split off where it was put, so the right key opens and another does not |
| Envelope.RewrapIgnoresVersion | cryptenv/envelope.go:95-140 | an envelope of another version is rejected by Unseal, accepted by Rewrap, and opens afterwards |
| AccountCounterexamples.PeersIsLost | main.go:423-424 | provisioning peers is answered with success and gone after a restart |
| AccountCounterexamples.PeersNeverFound | main.go:423-424 | no restart from any disk registers an account of that name |
| AccountCounterexamples.CapitalsDisagree | main.go:1136-1143 | a user name in capitals that authenticate accepts and AuthFunc rejects |
| AccountCounterexamples.DottedDisagree | auth_env.go:74-99 | a user name ./a@d that authenticate accepts and AuthFunc rejects |
| AccountCounterexamples.DottedDeletes | provision.go:231-265 | deleting under it removes the directory of a and leaves a in memory |
| AccountCounterexamples.SecondOverwrites | provision.go:151-189 | two provisions of one name both succeed and the second takes over |
| Counterexamples.FoldedTypeIsLost | autocrypt.go:269-275 | a message with a folded Content-Type that does not read back |
| Counterexamples.ReversedMarksPanic | autocrypt.go:258-265 | a body on which sending panics |
| Counterexamples.TouchingMarksAreLost | autocrypt.go:258-265 | reversed marks that touch: no panic, and an empty block is sent |
| Counterexamples.BrokenAddressIsNotFramed | autocrypt.go:54-71 | an address whose line break makes header lines |
| Counterexamples.BodyMentionSuppresses | autocrypt.go:37-40 | a body that keeps the Chat-Version field out of the header |
| Counterexamples.SecondRecipientCannotRead | main.go:593-625 | two accounts with keys, one DATA: the second gets the first one's encryption, marked as the sender's |
| Counterexamples.FirstRecipientCannotRead | main.go:593-625 | only the second account has a key: the first gets text encrypted with it, unmarked |
| Counterexamples.SharedMapMarksAll | main.go:593-612 | a message with keywords: a copy encrypted with its own recipient's key is marked because a later copy shares the map |

## Left out

- HTTP routing and parsing, CORS, setup tokens, metrics, activity log, quotas, mailboxes, message ids and receive times, subscriptions: plumbing around the modelled decisions.
- TCP, TLS and SMTP dialogue, DNS and relay-host mode: a send or a lookup succeeds or fails, as an input.
- OpenPGP, Argon2, AES-GCM, HKDF, SHA-1, SHA-256, X.509 and DKIM: functions with the hypotheses above; no secrecy is claimed.
- The `go-jmapserver` library (store, MIME parser and builder, token verification): a store is a map or a list of messages; `VerifyAuthToken` is a parameter; stores open at startup.
- The identity anchor: its verdict on a provision is an input.
- File operations that fail half-way: a credential is written or not, a directory is removed or stays whole.
- Failing reads of directories and files; `domain.json` is modelled as parsed.
- Letter case beyond ASCII; message bytes are characters; Go's regular expressions are written out as predicates.
- A directory `peers` under an open domain is purged like an account, as in the code.
- A nil body value in a submitted message: the code would panic on it; the model's body map holds values only.
- The second `store.Put` after a successful send, which only sets the message id.
- `NewEnvelope`, `Rewrap` and `aesGCMSeal` are modelled on values: the buffers they fill are fresh and not shared.
- `encoding/base64`, `strings` and `net/mail` are modelled from their documentation.
- `pgpEncryptMIME`, `encryptMessage` and `loadPeerPrefer`: not on the sending path.
