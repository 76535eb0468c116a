/** main.go: the SMTP session and the incoming buffer, on the heap they share. */
module Inbound {
  import opened Text
  import opened Delivery
  import opened DeliveryProof
  import opened AtRest

  /** map[string]*email.BodyValue; a value is replaced in the map, never written through. */
  class BodyMap {
    var values: map<string, string>

    constructor (values: map<string, string>)
      ensures this.values == values
    {
      this.values := values;
    }
  }

  /** map[string]bool */
  class KeywordMap {
    var words: set<string>

    constructor (words: set<string>)
      ensures this.words == words
    {
      this.words := words;
    }
  }

  /** email.Email, as far as delivery touches it: a struct whose two maps are shared by its copies. */
  datatype Email = Email(text: seq<string>, html: seq<string>, body: BodyMap?, keywords: KeywordMap?)

  datatype Incoming = Incoming(account: string, msg: Email)

  function ValuesOf(b: BodyMap?): map<string, string>
    reads b
  {
    if b == null then map[] else b.values
  }

  function WordsOf(k: KeywordMap?): set<string>
    reads k
  {
    if k == null then {} else k.words
  }

  /** A queue after items are offered to it one by one. */
  function PushAll(queue: seq<Incoming>, items: seq<Incoming>): seq<Incoming> {
    if items == [] then queue
    else
      var q := PushAll(queue, items[..|items| - 1]);
      if |q| < CAPACITY then q + [items[|items| - 1]] else q
  }

  lemma PushSnoc(queue: seq<Incoming>, items: seq<Incoming>, x: Incoming)
    ensures PushAll(queue, items + [x]) ==
            if |PushAll(queue, items)| < CAPACITY then PushAll(queue, items) + [x] else PushAll(queue, items)
  {
  }

  /** Stores after a queue is drained into them: items without a store are lost. */
  function DrainAll(stores: map<string, seq<Email>>, queue: seq<Incoming>): map<string, seq<Email>> {
    if queue == [] then stores
    else DrainAll(if queue[0].account in stores then stores[queue[0].account := stores[queue[0].account] + [queue[0].msg]]
                  else stores, queue[1..])
  }

  /** The messages a queue holds for an account, in order. */
  function MessagesFor(queue: seq<Incoming>, account: string): seq<Email> {
    if queue == [] then []
    else (if queue[0].account == account then [queue[0].msg] else []) + MessagesFor(queue[1..], account)
  }

  /** Draining appends to every store just its messages, in their order, and makes no store. */
  lemma {:induction false} DrainAppends(stores: map<string, seq<Email>>, queue: seq<Incoming>)
    ensures DrainAll(stores, queue).Keys == stores.Keys
    ensures forall a | a in stores :: DrainAll(stores, queue)[a] == stores[a] + MessagesFor(queue, a)
    decreases |queue|
  {
    if queue != [] {
      var x := queue[0];
      var next := if x.account in stores then stores[x.account := stores[x.account] + [x.msg]] else stores;
      DrainAppends(next, queue[1..]);
    }
  }

  class Handler {
    var aliases: map<string, string>
    var stores: map<string, seq<Email>>
    var bufCh: seq<Incoming>

    constructor (aliases: map<string, string>, stores: map<string, seq<Email>>)
      ensures this.aliases == aliases && this.stores == stores && bufCh == []
    {
      this.aliases, this.stores, this.bufCh := aliases, stores, [];
    }

    /** bufferEmail: a full buffer drops the message. */
    method BufferEmail(account: string, e: Email)
      requires |bufCh| <= CAPACITY
      modifies this`bufCh
      ensures bufCh == (if |old(bufCh)| < CAPACITY then old(bufCh) + [Incoming(account, e)] else old(bufCh))
      ensures |bufCh| <= CAPACITY
    {
      if |bufCh| < CAPACITY {
        bufCh := bufCh + [Incoming(account, e)];
      }
    }

    /** drainBuffer */
    method DrainBuffer()
      modifies this`stores, this`bufCh
      ensures bufCh == [] && stores == DrainAll(old(stores), old(bufCh))
    {
      while bufCh != []
        invariant DrainAll(stores, bufCh) == DrainAll(old(stores), old(bufCh))
        decreases |bufCh|
      {
        var inc := bufCh[0];
        bufCh := bufCh[1..];
        if inc.account in stores {
          stores := stores[inc.account := stores[inc.account] + [inc.msg]];
        }
      }
    }
  }

  /** What the copy for one recipient looks like once DATA is over. */
  ghost predicate CopyOf(parsed: Email, primary: string, v: Verdict, x: Incoming)
    reads x.msg.keywords
  {
    x.account == primary && x.msg.text == parsed.text && x.msg.body == parsed.body &&
    x.msg.html == (if v.Sealed? then [] else parsed.html) &&
    (parsed.keywords != null ==> x.msg.keywords == parsed.keywords) &&
    (parsed.keywords == null ==>
      (x.msg.keywords != null <==> v.Marked?) && (x.msg.keywords != null ==> x.msg.keywords.words == {E2E}))
  }

  /** The copies made so far, and the two shared maps, are as the recipients handled so far leave them. */
  ghost predicate Progress(parsed: Email, keys: map<string, string>, c: Cipher, values: map<string, string>,
                           words: set<string>, done: seq<string>, items: seq<Incoming>)
    reads parsed.body, parsed.keywords, set x | x in items :: x.msg.keywords
  {
    var o := SealAll(c, keys, parsed.text, values, done);
    |items| == |done| &&
    (forall i | 0 <= i < |items| :: CopyOf(parsed, done[i], o.verdicts[i], items[i])) &&
    ValuesOf(parsed.body) == o.values &&
    WordsOf(parsed.keywords) == words + (if parsed.keywords != null && AnyMarked(o.verdicts) then {E2E} else {})
  }

  lemma SealAllSnoc(c: Cipher, keys: map<string, string>, text: seq<string>, values: map<string, string>,
                    done: seq<string>, primary: string)
    ensures var o := SealAll(c, keys, text, values, done);
            var v := Judge(c, keys, c.bodyOf(TextValues(o.values, text)), primary, |done|);
            SealAll(c, keys, text, values, done + [primary]) == Outcome(After(o.values, text, v), o.verdicts + [v])
  {
  }

  lemma MarkedSnoc(verdicts: seq<Verdict>, v: Verdict)
    ensures AnyMarked(verdicts + [v]) <==> AnyMarked(verdicts) || v.Marked?
  {
    if v.Marked? {
      assert (verdicts + [v])[|verdicts|] == v;
    }
    if i :| 0 <= i < |verdicts| && verdicts[i].Marked? {
      assert (verdicts + [v])[i].Marked?;
    }
  }

  lemma PrimariesSnoc(aliases: map<string, string>, to: seq<string>, i: nat)
    requires i < |to|
    ensures Primaries(aliases, to[..i + 1]) == Primaries(aliases, to[..i]) + [Resolve(aliases, to[i])]
  {
  }

  lemma OverwrittenSnoc(values: map<string, string>, text: seq<string>, i: nat, v: string)
    requires i < |text|
    ensures Overwritten(values, text[..i + 1], v) == Overwritten(values, text[..i], v)[text[i] := v]
  {
  }

  /** What the recipients seen so far resolved to: each primary once, and as a set. */
  ghost predicate Heard(aliases: map<string, string>, to: seq<string>, i: nat, done: seq<string>, delivered: set<string>)
    requires i <= |to|
  {
    done == Dedup(Primaries(aliases, to[..i])) && forall p :: p in delivered <==> p in Primaries(aliases, to[..i])
  }

  lemma HeardNext(aliases: map<string, string>, to: seq<string>, i: nat, done: seq<string>, delivered: set<string>)
    requires i < |to| && Heard(aliases, to, i, done, delivered)
    ensures var p := Resolve(aliases, to[i]);
            Heard(aliases, to, i + 1, if p in delivered then done else done + [p], delivered + {p})
    ensures Resolve(aliases, to[i]) in delivered ==> delivered + {Resolve(aliases, to[i])} == delivered
  {
    PrimariesSnoc(aliases, to, i);
    DedupSnoc(Primaries(aliases, to[..i]), Resolve(aliases, to[i]));
  }

  lemma HeardAll(aliases: map<string, string>, to: seq<string>, done: seq<string>, delivered: set<string>)
    requires Heard(aliases, to, |to|, done, delivered)
    ensures done == Dedup(Primaries(aliases, to))
  {
    assert to[..|to|] == to;
  }

  class Session {
    const h: Handler
    var from: string
    var to: seq<string>

    constructor (h: Handler)
      ensures this.h == h && to == [] && from == ""
    {
      this.h, from, to := h, "", [];
    }

    method Mail(from: string)
      modifies this`from
      ensures this.from == from
    {
      this.from := from;
    }

    /** A recipient that is no alias is accepted and forgotten. */
    method Rcpt(rcpt: string)
      modifies this`to
      ensures to == if Lower(rcpt) in h.aliases then old(to) + [Lower(rcpt)] else old(to)
    {
      var addr := Lower(rcpt);
      if addr in h.aliases {
        to := to + [addr];
      }
    }

    method Reset()
      modifies this`from, this`to
      ensures from == "" && to == []
    {
      from, to := "", [];
    }

    /** The turn of one distinct primary: the copy, its mark, its encryption. n is the randomness of the encryption. */
    method DeliverCopy(parsed: Email, keys: map<string, string>, c: Cipher, primary: string, n: nat) returns (e: Email)
      requires Sound(c)
      modifies parsed.body, parsed.keywords
      ensures var v := Judge(c, keys, old(c.bodyOf(TextValues(ValuesOf(parsed.body), parsed.text))), primary, n);
              CopyOf(parsed, primary, v, Incoming(primary, e)) &&
              ValuesOf(parsed.body) == After(old(ValuesOf(parsed.body)), parsed.text, v) &&
              WordsOf(parsed.keywords) == old(WordsOf(parsed.keywords)) +
                (if parsed.keywords != null && v.Marked? then {E2E} else {})
      ensures parsed.keywords == null && e.keywords != null ==> fresh(e.keywords)
    {
      e := parsed;
      if '@' in primary {
        var body := c.bodyOf(TextValues(ValuesOf(e.body), e.text));
        if body != "" {
          if Contains(body, BEGIN_MARK) {
            if e.keywords == null {
              var words := new KeywordMap({});
              e := e.(keywords := words);
            }
            e.keywords.words := e.keywords.words + {E2E};
          } else if primary in keys {
            var enc := c.encrypt(keys[primary], body, n);
            if enc.Some? {
              NoBodyNoText(e.text);
              Overwrite(e.body, e.text, enc.value);
              e := e.(html := []);
            }
          }
        }
      }
    }

    /** DeliverCopy, seen as one more turn of the loop. */
    method NextCopy(parsed: Email, keys: map<string, string>, c: Cipher, primary: string, n: nat,
                    ghost values: map<string, string>, ghost words: set<string>, ghost done: seq<string>,
                    ghost items: seq<Incoming>) returns (e: Email)
      requires Sound(c) && n == |done| && Progress(parsed, keys, c, values, words, done, items)
      modifies parsed.body, parsed.keywords
      ensures Progress(parsed, keys, c, values, words, done + [primary], items + [Incoming(primary, e)])
    {
      SealAllSnoc(c, keys, parsed.text, values, done, primary);
      ghost var o := SealAll(c, keys, parsed.text, values, done);
      ghost var v := Judge(c, keys, c.bodyOf(TextValues(o.values, parsed.text)), primary, n);
      MarkedSnoc(o.verdicts, v);
      e := DeliverCopy(parsed, keys, c, primary, n);
      ghost var more := items + [Incoming(primary, e)];
      forall i | 0 <= i < |more| ensures CopyOf(parsed, (done + [primary])[i], (o.verdicts + [v])[i], more[i]) {
        if i < |items| {
          assert CopyOf(parsed, done[i], o.verdicts[i], items[i]);
        }
      }
    }

    static lemma NoBodyNoText(text: seq<string>)
      ensures TextValues(map[], text) == []
    {
    }

    /** The loop over the text parts. */
    static method Overwrite(body: BodyMap, text: seq<string>, v: string)
      modifies body
      ensures body.values == Overwritten(old(body.values), text, v)
    {
      ghost var before := body.values;
      assert Overwritten(before, text[..0], v) == before;
      for i := 0 to |text|
        invariant body.values == Overwritten(before, text[..i], v)
      {
        OverwrittenSnoc(before, text, i, v);
        body.values := body.values[text[i] := v];
      }
      assert text[..|text|] == text;
    }

    /** Data, recipient by recipient: each copy, in the order of first occurrences, is the original or encrypted for its own
        reader, and is marked, exactly when the given conditions on the original message hold. */
    method Data(parsed: Email, keys: map<string, string>, c: Cipher) returns (ghost items: seq<Incoming>)
      requires Sound(c) && |h.bufCh| <= CAPACITY
      modifies h`bufCh, parsed.body, parsed.keywords
      ensures h.bufCh == PushAll(old(h.bufCh), items) && |h.bufCh| <= CAPACITY
      ensures var primaries, values := Dedup(Primaries(h.aliases, to)), old(ValuesOf(parsed.body));
              |items| == |primaries| &&
              forall i | 0 <= i < |items| ::
                items[i].account == primaries[i] &&
                (KeysApart(c) ==>
                  (Legible(c, keys, parsed.text, values, ValuesOf(items[i].msg.body), primaries[i]) <==>
                   ForReader(c, keys, Body(c, parsed.text, values), primaries, primaries[i])))
      ensures var primaries, values := Dedup(Primaries(h.aliases, to)), old(ValuesOf(parsed.body));
              |items| == |primaries| &&
              forall i | 0 <= i < |items| ::
                (E2E in WordsOf(items[i].msg.keywords) <==>
                 MarkedFor(c, keys, Body(c, parsed.text, values), primaries, parsed.keywords != null,
                           old(WordsOf(parsed.keywords)), i))
    {
      hide SealAll, Legible, ForReader, MarkedFor, Dedup, Primaries, Sound, KeysApart;
      ghost var values, words := ValuesOf(parsed.body), WordsOf(parsed.keywords);
      ghost var primaries := Dedup(Primaries(h.aliases, to));
      items := Deliver(parsed, keys, c);
      ghost var o := SealAll(c, keys, parsed.text, values, primaries);
      forall i | 0 <= i < |items|
        ensures items[i].account == primaries[i] && ValuesOf(items[i].msg.body) == o.values
        ensures WordsOf(items[i].msg.keywords) == CopyWords(parsed.keywords != null, words, o.verdicts, i)
      {
        assert CopyOf(parsed, primaries[i], o.verdicts[i], items[i]);
      }
      forall i | 0 <= i < |items|
        ensures KeysApart(c) ==>
                (Legible(c, keys, parsed.text, values, o.values, primaries[i]) <==>
                 ForReader(c, keys, Body(c, parsed.text, values), primaries, primaries[i]))
        ensures E2E in CopyWords(parsed.keywords != null, words, o.verdicts, i) <==>
                MarkedFor(c, keys, Body(c, parsed.text, values), primaries, parsed.keywords != null, words, i)
      {
        if KeysApart(c) {
          LegibleExactly(c, keys, parsed.text, values, primaries, i);
        }
        MarkedExactly(c, keys, parsed.text, values, primaries, parsed.keywords != null, words, i);
      }
    }

    /** The copies DATA offers to the buffer, one per distinct primary. */
    method Deliver(parsed: Email, keys: map<string, string>, c: Cipher) returns (ghost items: seq<Incoming>)
      requires Sound(c) && |h.bufCh| <= CAPACITY
      modifies h`bufCh, parsed.body, parsed.keywords
      ensures h.bufCh == PushAll(old(h.bufCh), items) && |h.bufCh| <= CAPACITY
      ensures var primaries := Dedup(Primaries(h.aliases, to));
              var o := SealAll(c, keys, parsed.text, old(ValuesOf(parsed.body)), primaries);
              |items| == |primaries| &&
              (forall i | 0 <= i < |items| :: CopyOf(parsed, primaries[i], o.verdicts[i], items[i])) &&
              ValuesOf(parsed.body) == o.values &&
              WordsOf(parsed.keywords) == old(WordsOf(parsed.keywords)) +
                (if parsed.keywords != null && AnyMarked(o.verdicts) then {E2E} else {})
    {
      hide SealAll, Judge, CopyOf, PushAll, Dedup, Primaries, Sound;
      items := Loop(parsed, keys, c);
    }

    /** The recipient loop of Data. */
    method Loop(parsed: Email, keys: map<string, string>, c: Cipher) returns (ghost items: seq<Incoming>)
      requires Sound(c) && |h.bufCh| <= CAPACITY
      modifies h`bufCh, parsed.body, parsed.keywords
      ensures h.bufCh == PushAll(old(h.bufCh), items) && |h.bufCh| <= CAPACITY
      ensures Progress(parsed, keys, c, old(ValuesOf(parsed.body)), old(WordsOf(parsed.keywords)),
                       Dedup(Primaries(h.aliases, to)), items)
    {
      items := [];
      ghost var values, words, queue := ValuesOf(parsed.body), WordsOf(parsed.keywords), h.bufCh;
      ghost var done: seq<string> := [];
      var delivered: set<string> := {};
      var copies := 0;
      var rcpts := to;
      assert Progress(parsed, keys, c, values, words, done, items);
      assert PushAll(queue, items) == queue && Heard(h.aliases, rcpts, 0, done, delivered);
      hide Progress, Heard, PushAll, Dedup, Primaries, Sound, Resolve;
      for i := 0 to |rcpts|
        invariant |h.bufCh| <= CAPACITY && copies == |done| && h.bufCh == PushAll(queue, items)
        invariant Heard(h.aliases, rcpts, i, done, delivered)
        invariant Progress(parsed, keys, c, values, words, done, items)
      {
        var primary := Resolve(h.aliases, rcpts[i]);
        HeardNext(h.aliases, rcpts, i, done, delivered);
        if primary !in delivered {
          delivered := delivered + {primary};
          items := OfferCopy(parsed, keys, c, primary, copies, values, words, done, items, queue);
          done := done + [primary];
          copies := copies + 1;
        }
      }
      HeardAll(h.aliases, rcpts, done, delivered);
    }

    /** One copy, offered to the buffer. */
    method OfferCopy(parsed: Email, keys: map<string, string>, c: Cipher, primary: string, n: nat,
                     ghost values: map<string, string>, ghost words: set<string>, ghost done: seq<string>,
                     ghost items: seq<Incoming>, ghost queue: seq<Incoming>) returns (ghost items': seq<Incoming>)
      requires Sound(c) && n == |done| && Progress(parsed, keys, c, values, words, done, items)
      requires |h.bufCh| <= CAPACITY && h.bufCh == PushAll(queue, items)
      modifies h`bufCh, parsed.body, parsed.keywords
      ensures Progress(parsed, keys, c, values, words, done + [primary], items')
      ensures |h.bufCh| <= CAPACITY && h.bufCh == PushAll(queue, items')
    {
      hide Sound, PushAll;
      var e := NextCopy(parsed, keys, c, primary, n, values, words, done, items);
      items' := items + [Incoming(primary, e)];
      PushSnoc(queue, items, Incoming(primary, e));
      h.BufferEmail(primary, e);
    }
  }
}
