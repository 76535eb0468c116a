/** Encryption of inbound mail at rest: one parsed message, copied per recipient, with one body map behind all copies. */
module AtRest {
  import opened Text
  import opened Delivery

  const BEGIN_MARK := "-----BEGIN PGP MESSAGE-----"
  const E2E := "$e2e"

  /** jmapserver.MessageBody, as a function of the values of the text parts, and pgpEncryptInline with its key, plain
      text and randomness; both are outside this model. */
  datatype Cipher = Cipher(bodyOf: seq<string> -> string, encrypt: (string, string, nat) -> Option<string>)

  function Copies(n: nat, v: string): seq<string> {
    seq(n, i => v)
  }

  /** A message without text values has no body; a message all of whose text values are one armoured text has a body
      with a begin mark in it; encryption makes armoured text. */
  ghost predicate Sound(c: Cipher) {
    c.bodyOf([]) == "" &&
    (forall n: nat, v | n > 0 && Contains(v, BEGIN_MARK) :: Contains(c.bodyOf(Copies(n, v)), BEGIN_MARK)) &&
    (forall k, p, r :: c.encrypt(k, p, r).Some? ==> Contains(c.encrypt(k, p, r).value, BEGIN_MARK))
  }

  // ----- values --------------------------------------------------------------

  /** The values of the text parts that are there, in order. */
  function TextValues(values: map<string, string>, text: seq<string>): seq<string> {
    if text == [] then []
    else (if text[0] in values then [values[text[0]]] else []) + TextValues(values, text[1..])
  }

  /** Every text part gets the value v. */
  function Overwritten(values: map<string, string>, text: seq<string>, v: string): map<string, string> {
    values + map p | p in text :: v
  }

  /** What happens to one recipient's copy. */
  datatype Verdict = Plain | Marked | Sealed(text: string)

  function Judge(c: Cipher, keys: map<string, string>, body: string, primary: string, n: nat): Verdict {
    if '@' !in primary || body == "" then Plain
    else if Contains(body, BEGIN_MARK) then Marked
    else if primary !in keys then Plain
    else match c.encrypt(keys[primary], body, n) case None => Plain case Some(t) => Sealed(t)
  }

  function After(values: map<string, string>, text: seq<string>, v: Verdict): map<string, string> {
    match v case Sealed(t) => Overwritten(values, text, t) case _ => values
  }

  datatype Outcome = Outcome(values: map<string, string>, verdicts: seq<Verdict>)

  /** The recipient loop on the shared body values, recipient by recipient. */
  function SealAll(c: Cipher, keys: map<string, string>, text: seq<string>, values: map<string, string>,
                   primaries: seq<string>): (o: Outcome)
    ensures |o.verdicts| == |primaries|
  {
    if primaries == [] then Outcome(values, [])
    else
      var n := |primaries| - 1;
      var o := SealAll(c, keys, text, values, primaries[..n]);
      var v := Judge(c, keys, c.bodyOf(TextValues(o.values, text)), primaries[n], n);
      Outcome(After(o.values, text, v), o.verdicts + [v])
  }

  // ----- the closed form -----------------------------------------------------

  /** The first recipient whose key encrypts the original body, if the original body is to be encrypted at all. */
  function Sealer(c: Cipher, keys: map<string, string>, body: string, primaries: seq<string>): (r: Option<nat>)
    ensures r.Some? ==> r.value < |primaries| && Judge(c, keys, body, primaries[r.value], r.value).Sealed?
    ensures r.Some? ==> forall i | 0 <= i < r.value :: !Judge(c, keys, body, primaries[i], i).Sealed?
    ensures r.None? ==> forall i | 0 <= i < |primaries| :: !Judge(c, keys, body, primaries[i], i).Sealed?
  {
    if primaries == [] then None
    else
      var n := |primaries| - 1;
      match Sealer(c, keys, body, primaries[..n])
      case Some(i) => Some(i)
      case None => if Judge(c, keys, body, primaries[n], n).Sealed? then Some(n) else None
  }

  /** The shared body after the loop: as it was, or its text parts replaced by one encryption of the original body, made
      with the key of the first recipient that has a working one. */
  function FinalValues(c: Cipher, keys: map<string, string>, text: seq<string>, values: map<string, string>,
                       primaries: seq<string>): map<string, string>
  {
    var body := c.bodyOf(TextValues(values, text));
    match Sealer(c, keys, body, primaries)
    case None => values
    case Some(i) => Overwritten(values, text, Judge(c, keys, body, primaries[i], i).text)
  }

  /** A copy's verdict, from the original message alone. */
  function FinalVerdict(c: Cipher, keys: map<string, string>, body: string, primaries: seq<string>, i: nat): Verdict
    requires i < |primaries|
  {
    match Sealer(c, keys, body, primaries[..i])
    case None => Judge(c, keys, body, primaries[i], i)
    case Some(_) => if '@' in primaries[i] then Marked else Plain
  }

  lemma {:induction false} OverwrittenValues(values: map<string, string>, text: seq<string>, all: seq<string>, v: string)
    requires forall p | p in text :: p in all
    ensures TextValues(Overwritten(values, all, v), text) == Copies(|text|, v)
  {
    if text != [] {
      assert text[0] in text;
      OverwrittenValues(values, text[1..], all, v);
      assert Copies(|text|, v) == [v] + Copies(|text[1..]|, v);
    }
  }

  /** Once sealed, the body is seen as armoured by every later recipient. */
  lemma SealedBody(c: Cipher, values: map<string, string>, text: seq<string>, v: string)
    requires Sound(c) && Contains(v, BEGIN_MARK) && c.bodyOf(TextValues(values, text)) != ""
    ensures Contains(c.bodyOf(TextValues(Overwritten(values, text, v), text)), BEGIN_MARK)
  {
    OverwrittenValues(values, text, text, v);
    assert text != [];
  }

  lemma MarkedBodyNotEmpty(s: string)
    requires Contains(s, BEGIN_MARK)
    ensures s != ""
  {
  }

  /** The loop refines the closed form: encryption at rest never stacks. After any recipient list and key set every
      body value is the original or exactly one encryption of the original body, and a body already armoured is never
      encrypted. */
  lemma {:induction false} NeverStacks(c: Cipher, keys: map<string, string>, text: seq<string>, values: map<string, string>,
                                       primaries: seq<string>)
    requires Sound(c)
    ensures var o := SealAll(c, keys, text, values, primaries);
            o.values == FinalValues(c, keys, text, values, primaries) &&
            forall i | 0 <= i < |primaries| ::
              o.verdicts[i] == FinalVerdict(c, keys, c.bodyOf(TextValues(values, text)), primaries, i)
  {
    if primaries != [] {
      var n := |primaries| - 1;
      var front := primaries[..n];
      var body := c.bodyOf(TextValues(values, text));
      NeverStacks(c, keys, text, values, front);
      LastVerdict(c, keys, text, values, primaries, n);
      forall i | 0 <= i < n ensures FinalVerdict(c, keys, body, front, i) == FinalVerdict(c, keys, body, primaries, i) {
        assert front[..i] == primaries[..i];
      }
    }
  }

  lemma LastVerdict(c: Cipher, keys: map<string, string>, text: seq<string>, values: map<string, string>,
                    primaries: seq<string>, n: nat)
    requires Sound(c) && |primaries| == n + 1
    ensures var body := c.bodyOf(TextValues(values, text));
            var v := Judge(c, keys, c.bodyOf(TextValues(FinalValues(c, keys, text, values, primaries[..n]), text)), primaries[n], n);
            v == FinalVerdict(c, keys, body, primaries, n) &&
            After(FinalValues(c, keys, text, values, primaries[..n]), text, v) == FinalValues(c, keys, text, values, primaries)
  {
    var body := c.bodyOf(TextValues(values, text));
    var s := Sealer(c, keys, body, primaries[..n]);
    assert Sealer(c, keys, body, primaries) ==
           if s.Some? then s else if Judge(c, keys, body, primaries[n], n).Sealed? then Some(n) else None;
    if s.Some? {
      var first := Judge(c, keys, body, primaries[..n][s.value], s.value);
      SealedBody(c, values, text, first.text);
      MarkedBodyNotEmpty(c.bodyOf(TextValues(Overwritten(values, text, first.text), text)));
    }
  }

  // ----- what a recipient gets -----------------------------------------------

  /** Text encrypted with one key is not text encrypted with another. */
  ghost predicate KeysApart(c: Cipher) {
    forall k, l, p, q, r, t :: c.encrypt(k, p, r).Some? && c.encrypt(k, p, r) == c.encrypt(l, q, t) ==> k == l
  }

  function Body(c: Cipher, text: seq<string>, values: map<string, string>): string {
    c.bodyOf(TextValues(values, text))
  }

  /** Is this the original message, or its body encrypted with the recipient's own key? */
  ghost predicate Legible(c: Cipher, keys: map<string, string>, text: seq<string>, values: map<string, string>,
                          final: map<string, string>, primary: string)
  {
    final == values ||
    (primary in keys && exists r, t :: c.encrypt(keys[primary], Body(c, text, values), r) == Some(t) &&
                                       final == Overwritten(values, text, t))
  }

  /** Nobody's key encrypts the body, or the first that does is this recipient's. */
  predicate ForReader(c: Cipher, keys: map<string, string>, body: string, primaries: seq<string>, primary: string) {
    match Sealer(c, keys, body, primaries)
    case None => true
    case Some(j) => primary in keys && primaries[j] in keys && keys[primary] == keys[primaries[j]]
  }

  lemma OverwrittenOnce(values: map<string, string>, text: seq<string>, v: string, w: string)
    requires text != [] && Overwritten(values, text, v) == Overwritten(values, text, w)
    ensures v == w
  {
    assert text[0] in text;
    assert Overwritten(values, text, v)[text[0]] == v && Overwritten(values, text, w)[text[0]] == w;
  }

  /** A body that is to be encrypted is not there yet. */
  lemma SealChanges(c: Cipher, text: seq<string>, values: map<string, string>, t: string)
    requires Sound(c) && Contains(t, BEGIN_MARK) && Body(c, text, values) != "" && !Contains(Body(c, text, values), BEGIN_MARK)
    ensures text != [] && Overwritten(values, text, t) != values
  {
    hide Contains;
    assert text == [] ==> TextValues(values, text) == [];
    if Overwritten(values, text, t) == values {
      SealedBody(c, values, text, t);
    }
  }

  /** Every recipient of a DATA, with a working key or without one, gets the original message or one encrypted with its
      own key if and only if nobody's key encrypts the body or the first that does is its own. */
  lemma LegibleExactly(c: Cipher, keys: map<string, string>, text: seq<string>, values: map<string, string>,
                       primaries: seq<string>, i: nat)
    requires Sound(c) && KeysApart(c) && i < |primaries|
    ensures Legible(c, keys, text, values, SealAll(c, keys, text, values, primaries).values, primaries[i]) <==>
            ForReader(c, keys, Body(c, text, values), primaries, primaries[i])
  {
    NeverStacks(c, keys, text, values, primaries);
    hide SealAll;
    var body := Body(c, text, values);
    var s := Sealer(c, keys, body, primaries);
    if s.Some? {
      var j := s.value;
      var t := Judge(c, keys, body, primaries[j], j).text;
      assert c.encrypt(keys[primaries[j]], body, j) == Some(t);
      SealChanges(c, text, values, t);
      LegibleSealed(c, keys, text, values, primaries[j], j, t, primaries[i]);
    }
  }

  lemma LegibleSealed(c: Cipher, keys: map<string, string>, text: seq<string>, values: map<string, string>,
                      sealer: string, j: nat, t: string, primary: string)
    requires KeysApart(c) && text != [] && Overwritten(values, text, t) != values
    requires sealer in keys && c.encrypt(keys[sealer], Body(c, text, values), j) == Some(t)
    ensures Legible(c, keys, text, values, Overwritten(values, text, t), primary) <==>
            primary in keys && keys[primary] == keys[sealer]
  {
    hide Overwritten, Body;
    var body, final := Body(c, text, values), Overwritten(values, text, t);
    if Legible(c, keys, text, values, final, primary) {
      var r, u :| c.encrypt(keys[primary], body, r) == Some(u) && final == Overwritten(values, text, u);
      OverwrittenOnce(values, text, t, u);
      assert c.encrypt(keys[primary], body, r) == c.encrypt(keys[sealer], body, j);
    }
  }

  predicate AnyMarked(verdicts: seq<Verdict>) {
    exists i | 0 <= i < |verdicts| :: verdicts[i].Marked?
  }

  /** The keywords of the i-th copy once DATA is over: a map that the parsed message brought is shared by all copies. */
  function CopyWords(shared: bool, words: set<string>, verdicts: seq<Verdict>, i: nat): set<string>
    requires i < |verdicts|
  {
    if shared then words + (if AnyMarked(verdicts) then {E2E} else {})
    else if verdicts[i].Marked? then {E2E} else {}
  }

  /** The i-th recipient comes to a body that is armoured, by the sender or for an earlier recipient. */
  ghost predicate FindsArmour(c: Cipher, keys: map<string, string>, body: string, primaries: seq<string>, i: nat)
    requires i < |primaries|
  {
    '@' in primaries[i] &&
    (Contains(body, BEGIN_MARK) || exists j | 0 <= j < i :: Judge(c, keys, body, primaries[j], j).Sealed?)
  }

  /** When a copy is marked as encrypted end to end. */
  ghost predicate MarkedFor(c: Cipher, keys: map<string, string>, body: string, primaries: seq<string>, shared: bool,
                            words: set<string>, i: nat)
    requires i < |primaries|
  {
    if shared then E2E in words || exists j | 0 <= j < |primaries| :: FindsArmour(c, keys, body, primaries, j)
    else FindsArmour(c, keys, body, primaries, i)
  }

  lemma VerdictMarked(c: Cipher, keys: map<string, string>, text: seq<string>, values: map<string, string>,
                      primaries: seq<string>, i: nat)
    requires Sound(c) && i < |primaries|
    ensures SealAll(c, keys, text, values, primaries).verdicts[i].Marked? <==>
            FindsArmour(c, keys, Body(c, text, values), primaries, i)
  {
    var body := Body(c, text, values);
    NeverStacks(c, keys, text, values, primaries);
    var s := Sealer(c, keys, body, primaries[..i]);
    if s.Some? {
      assert Judge(c, keys, body, primaries[s.value], s.value).Sealed?;
    } else {
      assert forall j | 0 <= j < i :: primaries[..i][j] == primaries[j];
    }
    if Contains(body, BEGIN_MARK) {
      MarkedBodyNotEmpty(body);
    }
  }

  /** A copy is marked end-to-end encrypted exactly when its recipient came to an armoured body; but if the message brought
      keywords of its own, every copy is as soon as any is. */
  lemma MarkedExactly(c: Cipher, keys: map<string, string>, text: seq<string>, values: map<string, string>,
                      primaries: seq<string>, shared: bool, words: set<string>, i: nat)
    requires Sound(c) && i < |primaries|
    ensures E2E in CopyWords(shared, words, SealAll(c, keys, text, values, primaries).verdicts, i) <==>
            MarkedFor(c, keys, Body(c, text, values), primaries, shared, words, i)
  {
    hide SealAll, FindsArmour;
    forall j | 0 <= j < |primaries|
      ensures SealAll(c, keys, text, values, primaries).verdicts[j].Marked? <==>
              FindsArmour(c, keys, Body(c, text, values), primaries, j)
    {
      VerdictMarked(c, keys, text, values, primaries, j);
    }
  }
}
