/** main.go, OnSubmitEmail: who may be written to, and the stored copy beside the message handed to SMTP. */
module Submission {
  import opened Text
  import opened AtRest
  import opened Inbound

  const DRAFT := "$draft"

  /** email.BodyValue, reached by reference. */
  class BodyValue {
    var value: string

    constructor (value: string)
      ensures this.value == value
    {
      this.value := value;
    }
  }

  /** map[string]*email.BodyValue; two parts may point at one value. */
  class ValueMap {
    var values: map<string, BodyValue>

    constructor ()
      ensures values == map[]
    {
      values := map[];
    }
  }

  datatype Message = Message(from: seq<string>, text: seq<string>, html: seq<string>, body: ValueMap?, keywords: KeywordMap?)

  /** The texts behind a body map. */
  function View(m: ValueMap?): map<string, string>
    reads m, if m == null then {} else m.values.Values
  {
    if m == null then map[] else map p | p in m.values :: m.values[p].value
  }

  // ----- reply-only ----------------------------------------------------------

  function Addresses(from: seq<string>): set<string> {
    set a | a in from && a != "" :: Lower(a)
  }

  /** The folded addresses some stored message came from. */
  function Senders(messages: map<string, seq<string>>): set<string> {
    set id, a | id in messages && a in messages[id] && a != "" :: Lower(a)
  }

  predicate Answerable(known: set<string>, rcpts: seq<string>) {
    forall i | 0 <= i < |rcpts| :: Lower(rcpts[i]) in known
  }

  /** The text after the last '@', or "" if there is none. */
  function AfterLastAt(s: string): string {
    if s == "" then ""
    else if s[|s| - 1] == '@' then ""
    else if '@' in s then AfterLastAt(s[..|s| - 1]) + [s[|s| - 1]]
    else ""
  }

  /** The exemption list as it is compared. */
  function Entries(list: seq<string>): (r: seq<string>)
    ensures |r| == |list|
  {
    seq(|list|, i requires 0 <= i < |list| => Lower(Trim(list[i])))
  }

  /** Is this sender, or its domain, on the exemption list? */
  predicate Exempt(list: seq<string>, sender: string) {
    Lower(sender) in Entries(list) || AfterLastAt(Lower(sender)) in Entries(list)
  }

  /** replyOnlyExempt */
  method ReplyOnlyExempt(list: seq<string>, sender: string) returns (r: bool)
    ensures r <==> Exempt(list, sender)
  {
    r := Listed(list, Lower(sender), AfterLastAt(Lower(sender)));
  }

  method Listed(list: seq<string>, senderLow: string, senderDomain: string) returns (r: bool)
    ensures r <==> senderLow in Entries(list) || senderDomain in Entries(list)
  {
    ghost var names := Entries(list);
    for i := 0 to |list|
      invariant Missing(names, i, senderLow) && Missing(names, i, senderDomain)
    {
      var e := Lower(Trim(list[i]));
      assert names[i] == e;
      if e == senderLow || e == senderDomain {
        return true;
      }
      MissingStep(names, i, senderLow);
      MissingStep(names, i, senderDomain);
    }
    assert names[..|list|] == names;
    r := false;
  }

  predicate Missing(names: seq<string>, n: nat, x: string)
    requires n <= |names|
  {
    x !in names[..n]
  }

  lemma MissingStep(names: seq<string>, i: nat, x: string)
    requires i < |names| && Missing(names, i, x) && names[i] != x
    ensures Missing(names, i + 1, x)
  {
  }

  /** The set OnSubmitEmail builds from all stored messages, in whatever order it meets them. */
  method KnownSenders(messages: map<string, seq<string>>) returns (known: set<string>)
    ensures known == Senders(messages)
  {
    known := {};
    var todo := messages.Keys;
    while todo != {}
      invariant todo <= messages.Keys
      invariant known == Senders(map id | id in messages && id !in todo :: messages[id])
      decreases todo
    {
      var id :| id in todo;
      todo := todo - {id};
      ghost var before := known;
      var from := messages[id];
      for i := 0 to |from|
        invariant known == before + Addresses(from[..i])
      {
        assert from[..i + 1] == from[..i] + [from[i]];
        if from[i] != "" {
          known := known + {Lower(from[i])};
        }
      }
      assert from[..|from|] == from;
    }
    assert (map id | id in messages && id !in {} :: messages[id]) == messages;
  }

  /** The recipient check: refused at the first recipient that never wrote. */
  method MayReply(messages: map<string, seq<string>>, rcpts: seq<string>) returns (ok: bool)
    ensures ok <==> Answerable(Senders(messages), rcpts)
  {
    var known := KnownSenders(messages);
    for i := 0 to |rcpts|
      invariant forall j | 0 <= j < i :: Lower(rcpts[j]) in known
    {
      if Lower(rcpts[i]) !in known {
        return false;
      }
    }
    ok := true;
  }

  /** A recipient list handed to sending, and how many messages had been placed in the store by then. */
  datatype Sending = Sending(before: nat, rcpts: seq<string>)

  /** One account's store (the From addresses of each message), with everything ever placed in it and sent from it. */
  datatype Box = Box(messages: map<string, seq<string>>, placed: seq<seq<string>>, sent: seq<Sending>)

  datatype Action =
    | Place(id: string, from: seq<string>)
    | Erase(id: string)
    | Submit(id: string, from: seq<string>, rcpts: seq<string>)

  function Placed(b: Box, id: string, from: seq<string>): Box {
    b.(messages := b.messages[id := from], placed := b.placed + [from])
  }

  /** One action of a restricted account. A submission that passes the check is stored, then sent. */
  function Act(b: Box, a: Action): Box {
    match a
    case Place(id, from) => Placed(b, id, from)
    case Erase(id) => b.(messages := b.messages - {id})
    case Submit(id, from, rcpts) =>
      if Answerable(Senders(b.messages), rcpts)
      then Placed(b, id, from).(sent := b.sent + [Sending(|b.placed|, rcpts)]) else b
  }

  function ActAll(b: Box, actions: seq<Action>): Box
    decreases |actions|
  {
    if actions == [] then b else ActAll(Act(b, actions[0]), actions[1..])
  }

  /** Is this address, up to case, a From address among the first n messages placed? */
  ghost predicate Wrote(placed: seq<seq<string>>, n: nat, rcpt: string) {
    exists i, a | 0 <= i < n && i < |placed| && a in placed[i] :: a != "" && EqualFold(a, rcpt)
  }

  ghost predicate Answered(placed: seq<seq<string>>, s: Sending) {
    s.before <= |placed| && forall i | 0 <= i < |s.rcpts| :: Wrote(placed, s.before, s.rcpts[i])
  }

  ghost predicate Sane(b: Box) {
    (forall id | id in b.messages :: b.messages[id] in b.placed) &&
    (forall i | 0 <= i < |b.sent| :: Answered(b.placed, b.sent[i]))
  }

  lemma AnsweredGrows(placed: seq<seq<string>>, from: seq<string>, s: Sending)
    requires Answered(placed, s)
    ensures Answered(placed + [from], s)
  {
    forall k | 0 <= k < |s.rcpts| ensures Wrote(placed + [from], s.before, s.rcpts[k]) {
      var i, a :| 0 <= i < s.before && i < |placed| && a in placed[i] && a != "" && EqualFold(a, s.rcpts[k]);
      assert (placed + [from])[i] == placed[i];
    }
  }

  lemma KnownWrote(b: Box, rcpt: string)
    requires Sane(b) && Lower(rcpt) in Senders(b.messages)
    ensures Wrote(b.placed, |b.placed|, rcpt)
  {
    var id, a :| id in b.messages && a in b.messages[id] && a != "" && Lower(a) == Lower(rcpt);
    var i :| 0 <= i < |b.placed| && b.placed[i] == b.messages[id];
    assert EqualFold(a, rcpt);
  }

  lemma PlacedSane(b: Box, id: string, from: seq<string>)
    requires Sane(b)
    ensures Sane(Placed(b, id, from))
  {
    var t := Placed(b, id, from);
    assert t.placed[|b.placed|] == from;
    forall i | 0 <= i < |b.sent| ensures Answered(t.placed, b.sent[i]) {
      AnsweredGrows(b.placed, from, b.sent[i]);
    }
    forall x | x in t.messages ensures t.messages[x] in t.placed {
      if x != id {
        assert b.messages[x] in b.placed;
      }
    }
  }

  lemma SubmitSane(b: Box, id: string, from: seq<string>, rcpts: seq<string>)
    requires Sane(b) && Answerable(Senders(b.messages), rcpts)
    ensures Sane(Placed(b, id, from).(sent := b.sent + [Sending(|b.placed|, rcpts)]))
  {
    var s := Sending(|b.placed|, rcpts);
    forall i | 0 <= i < |rcpts| ensures Wrote(b.placed, |b.placed|, rcpts[i]) {
      KnownWrote(b, rcpts[i]);
    }
    AnsweredGrows(b.placed, from, s);
    PlacedSane(b, id, from);
  }

  /** Reply-only over whole runs: every recipient a restricted account ever handed to sending is, up to case, a From
      address of some message placed in its store before that, even if that message has been deleted since. */
  lemma {:induction false} ReplyOnlyRuns(b: Box, actions: seq<Action>)
    requires Sane(b)
    ensures Sane(ActAll(b, actions))
    decreases |actions|
  {
    if actions != [] {
      match actions[0]
      case Place(id, from) => PlacedSane(b, id, from); ReplyOnlyRuns(Act(b, actions[0]), actions[1..]);
      case Erase(id) => ReplyOnlyRuns(Act(b, actions[0]), actions[1..]);
      case Submit(id, from, rcpts) =>
        if Answerable(Senders(b.messages), rcpts) {
          SubmitSane(b, id, from, rcpts);
        }
        ReplyOnlyRuns(Act(b, actions[0]), actions[1..]);
    }
  }

  // ----- the two views of a submission ---------------------------------------

  /** The message SMTP gets and the message the store keeps. */
  datatype Views = Refused | Views(smtp: Message, stored: Message)

  /** The froms of the messages of a store. */
  function Froms(messages: map<string, Message>): map<string, seq<string>> {
    map id | id in messages :: messages[id].from
  }

  class Account {
    const address: string
    const replyOnly: bool
    const exempt: seq<string>
    var messages: map<string, Message>

    constructor (address: string, replyOnly: bool, exempt: seq<string>)
      ensures this.address == address && this.replyOnly == replyOnly && this.exempt == exempt && messages == map[]
    {
      this.address, this.replyOnly, this.exempt, messages := address, replyOnly, exempt, map[];
    }

    /** May this account write to these recipients now? */
    ghost predicate Permitted(rcpts: seq<string>)
      reads this
    {
      !replyOnly || Exempt(exempt, address) || Answerable(Senders(Froms(messages)), rcpts)
    }

    /** A copy of the body map: a new map, and a new value for every part. */
    static method CopyValues(body: ValueMap?) returns (copy: ValueMap)
      ensures fresh(copy) && View(copy) == View(body)
      ensures forall p | p in copy.values :: fresh(copy.values[p])
    {
      copy := new ValueMap();
      if body == null {
        return;
      }
      var todo := body.values.Keys;
      while todo != {}
        invariant fresh(copy) && forall p | p in copy.values :: fresh(copy.values[p])
        invariant copy.values.Keys + todo == body.values.Keys && copy.values.Keys !! todo
        invariant forall p | p in copy.values :: copy.values[p].value == body.values[p].value
        modifies copy
        decreases todo
      {
        var p :| p in todo;
        todo := todo - {p};
        var v := new BodyValue(body.values[p].value);
        copy.values := copy.values[p := v];
      }
    }

    /** Point one part at a value of its own that holds v. */
    static method SetPart(body: ValueMap, part: string, v: string)
      modifies body
      ensures View(body) == old(View(body))[part := v]
    {
      var bv := new BodyValue(v);
      body.values := body.values[part := bv];
    }

    /** Point every text part at a value of its own that holds v. */
    static method SetText(body: ValueMap, text: seq<string>, v: string)
      modifies body
      ensures View(body) == Overwritten(old(View(body)), text, v)
    {
      ghost var before := View(body);
      assert Overwritten(before, text[..0], v) == before;
      hide View, Overwritten;
      for i := 0 to |text|
        invariant View(body) == Overwritten(before, text[..i], v)
      {
        OverwrittenSnoc(before, text, i, v);
        SetPart(body, text[i], v);
      }
      assert text[..|text|] == text;
    }

    /** The recipient check of a restricted account. */
    method Check(rcpts: seq<string>) returns (ok: bool)
      ensures ok <==> Permitted(rcpts)
    {
      ok := true;
      if replyOnly {
        var exempted := ReplyOnlyExempt(exempt, address);
        if !exempted {
          ok := MayReply(Froms(messages), rcpts);
        }
      }
    }

    /** The copy the store keeps. */
    static method MakeStored(msg: Message, key: Option<string>, c: Cipher, random: nat) returns (stored: Message)
      modifies msg.keywords
      ensures View(msg.body) == old(View(msg.body))
      ensures StoredCopy(msg, stored, key, c, random)
      ensures msg.keywords != null ==> stored.keywords == msg.keywords
      ensures msg.keywords != null ==> msg.keywords.words == old(msg.keywords.words) + Mark(msg, c)
      ensures msg.keywords == null ==> OwnKeywords(msg, stored, c)
      ensures msg.keywords == null && stored.keywords != null ==> fresh(stored.keywords)
    {
      hide TextValues, Overwritten;
      stored := msg;
      var body := BodyOf(msg, c);
      if body == "" {
        return;
      }
      if stored.keywords == null {
        var words := new KeywordMap({});
        stored := stored.(keywords := words);
      }
      if Contains(body, BEGIN_MARK) {
        stored.keywords.words := stored.keywords.words + {E2E};
      } else if key.Some? {
        var enc := c.encrypt(key.value, body, random);
        if enc.Some? {
          var values := CopyValues(msg.body);
          SetText(values, msg.text, enc.value);
          stored := stored.(body := values, html := []);
        }
      }
    }

    /** OnSubmitEmail up to the hand-over: the check, the draft mark, the stored copy, the store. The SMTP view is a copy
        of the struct taken before the body is touched; the body map it points at, and the values behind that, are
        unchanged, whichever parts share a value. */
    method Submit(id: string, msg: Message, rcpts: seq<string>, key: Option<string>, c: Cipher, random: nat)
      returns (v: Views)
      modifies this`messages, msg.keywords
      ensures v.Refused? <==> !old(Permitted(rcpts))
      ensures v.Refused? ==> messages == old(messages) && WordsOf(msg.keywords) == old(WordsOf(msg.keywords))
      ensures v.Views? ==> messages == old(messages)[id := v.stored] && v.smtp == msg
      ensures View(msg.body) == old(View(msg.body))
      ensures v.Views? ==> StoredCopy(msg, v.stored, key, c, random)
      ensures v.Views? && msg.keywords != null ==>
              msg.keywords.words == old(msg.keywords.words) - {DRAFT} + Mark(msg, c)
      ensures v.Views? && msg.keywords == null ==> OwnKeywords(msg, v.stored, c)
    {
      hide View, StoredCopy, OwnKeywords, Mark, Permitted;
      ghost var view := View(msg.body);
      var ok := Check(rcpts);
      if !ok {
        return Refused;
      }
      if msg.keywords != null {
        msg.keywords.words := msg.keywords.words - {DRAFT};
      }
      assert View(msg.body) == view;
      var stored := MakeStored(msg, key, c, random);
      assert View(msg.body) == view;
      messages := messages[id := stored];
      v := Views(msg, stored);
    }
  }

  /** jmapserver.MessageBody of a submitted message. */
  function BodyOf(msg: Message, c: Cipher): string
    reads msg.body, if msg.body == null then {} else msg.body.values.Values
  {
    c.bodyOf(TextValues(View(msg.body), msg.text))
  }

  function Mark(msg: Message, c: Cipher): set<string>
    reads msg.body, if msg.body == null then {} else msg.body.values.Values
  {
    var body := BodyOf(msg, c);
    if body != "" && Contains(body, BEGIN_MARK) then {E2E} else {}
  }

  /** The stored copy of a message without keywords has a keyword map of its own, unless there is no body. */
  ghost predicate OwnKeywords(msg: Message, stored: Message, c: Cipher)
    reads msg.body, if msg.body == null then {} else msg.body.values.Values
    reads stored.keywords
  {
    (stored.keywords != null <==> BodyOf(msg, c) != "") && WordsOf(stored.keywords) == Mark(msg, c)
  }

  /** The encryption of the body for the stored copy, if there is to be one. */
  function Encrypted(body: string, key: Option<string>, c: Cipher, random: nat): Option<string> {
    if body == "" || Contains(body, BEGIN_MARK) || key.None? then None else c.encrypt(key.value, body, random)
  }

  /** The stored copy: encrypted on a body map of its own, or sharing the message's. */
  ghost predicate StoredCopy(msg: Message, stored: Message, key: Option<string>, c: Cipher, random: nat)
    reads msg.body, if msg.body == null then {} else msg.body.values.Values
    reads stored.body, if stored.body == null then {} else stored.body.values.Values
  {
    stored.from == msg.from && stored.text == msg.text &&
    match Encrypted(BodyOf(msg, c), key, c, random)
    case Some(t) => stored.html == [] && stored.body != msg.body &&
                    View(stored.body) == Overwritten(View(msg.body), msg.text, t)
    case None => stored.html == msg.html && stored.body == msg.body
  }
}
