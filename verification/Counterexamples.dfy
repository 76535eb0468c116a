/** Concrete inputs on which the code does less than its documentation promises. Each one fails the condition that the
    corresponding theorem states for all inputs. */
module Counterexamples {
  import opened Text
  import opened BitStrings
  import opened Mime
  import opened PgpMime
  import PgpMimeProof
  import HeaderInjection
  import AtRest
  import opened Witnesses

  // ----- outgoing messages ---------------------------------------------------

  const FOLDED_TYPE := "Content-Type" + ":" + " text/plain;"
  const FOLD := " charset=utf-8"
  const SHORT_HEADER := "To:x"

  /** Header, blank line, body: where the blank line is, if no line break doubles in the header. */
  lemma Divides(h: string, body: string)
    requires forall j | 0 <= j < |h| :: h[j] != '\r' || (j + 2 < |h| && h[j + 2] != '\r')
    ensures var raw := h + BLANK_LINE + body;
            Index(raw, BLANK_LINE) == |h| && raw[..|h|] == h && raw[|h| + 4..] == body
  {
    var raw := h + BLANK_LINE + body;
    assert raw[|h|..|h| + 4] == BLANK_LINE;
    forall j | 0 <= j < |h| ensures !At(raw, BLANK_LINE, j) {
      assert raw[j] == h[j];
      if h[j] == '\r' {
        assert raw[j + 2] == h[j + 2];
      }
      if At(raw, BLANK_LINE, j) {
        HeaderInjection.BlankStart(raw, j);
      }
    }
    IndexIs(raw, BLANK_LINE, |h|);
  }

  lemma BlockBody()
    ensures Index(BEGIN_MARK + END_MARK, BEGIN_MARK) == 0 && Index(BEGIN_MARK + END_MARK, END_MARK) >= 0
  {
    var body := BEGIN_MARK + END_MARK;
    assert At(body, BEGIN_MARK, 0);
    IndexIs(body, BEGIN_MARK, 0);
    assert At(body, END_MARK, |BEGIN_MARK|);
  }

  lemma FoldedHeader()
    ensures Split(FOLDED_TYPE + CRLF + FOLD, CRLF) == [FOLDED_TYPE, FOLD]
  {
    PgpMimeProof.NoLfNoCrlf(FOLDED_TYPE);
    PgpMimeProof.NoLfNoCrlf(FOLD);
    SplitAtFirst(FOLDED_TYPE, CRLF, FOLD);
  }

  lemma TwoLines(a: string, b: string)
    requires Continuation(b)
    ensures Fields([a, b]) == [[a, b]]
  {
    FieldsCons([a, b], []);
    assert [a, b] + [] == [a, b];
  }

  lemma FoldedIsDropped()
    ensures Dropped(FOLDED_TYPE)
  {
    NamedLine("Content-Type", " text/plain;");
    PgpMimeProof.LowerContentType();
  }

  lemma FoldedBreaks(raw: string, sha1: string -> Digest, f: Field)
    requires Contains(raw, BLANK_LINE) && |f| > 1 && Dropped(f[0])
    ensures Rewrap(raw, sha1).Wrapped? && Fields(HeaderLines(raw)) == [f] ==>
            var block := Block(Body(raw));
            ReadMessage(Rewrap(raw, sha1).message) !=
              Some(PgpMimeProof.Expected(HeaderLines(raw), Boundary(sha1, block), block))
  {
    if Rewrap(raw, sha1).Wrapped? && Fields(HeaderLines(raw)) == [f] {
      assert !PgpMimeProof.DroppedUnfolded([f]);
      PgpMimeProof.WrapReadsBack(raw, sha1);
    }
  }

  /** A folded Content-Type: its continuation line stays behind and joins the field above, so the rewrapped message does
      not read back. */
  lemma FoldedTypeIsLost(sha1: string -> Digest)
    ensures var raw := FOLDED_TYPE + CRLF + FOLD + BLANK_LINE + (BEGIN_MARK + END_MARK);
            Rewrap(raw, sha1).Wrapped? &&
            (var block := Block(Body(raw));
             ReadMessage(Rewrap(raw, sha1).message) !=
               Some(PgpMimeProof.Expected(HeaderLines(raw), Boundary(sha1, block), block)))
  {
    hide ReadMessage, Fields, Render, Boundary, Dropped;
    var h, body := FOLDED_TYPE + CRLF + FOLD, BEGIN_MARK + END_MARK;
    var raw := h + BLANK_LINE + body;
    Divides(h, body);
    BlockBody();
    FoldedHeader();
    TwoLines(FOLDED_TYPE, FOLD);
    FoldedIsDropped();
    assert HeaderLines(raw) == [FOLDED_TYPE, FOLD];
    assert Rewrap(raw, sha1).Wrapped?;
    hide Rewrap, Fields, ReadMessage, HeaderLines, Block, Body;
    FoldedBreaks(raw, sha1, [FOLDED_TYPE, FOLD]);
  }

  /** An end mark in front of the begin mark makes the slice bounds cross, and sending panics. */
  lemma ReversedMarksPanic(addr: string, sha1: string -> Digest)
    ensures HeaderInjection.Outgoing(SHORT_HEADER + BLANK_LINE + (END_MARK + LF + BEGIN_MARK), addr, None, sha1) == Panic
  {
    var body := END_MARK + LF + BEGIN_MARK;
    Divides(SHORT_HEADER, body);
    OneB();
    Reversed(END_MARK, LF, BEGIN_MARK, 5);
    HeaderInjection.OutgoingPanics(SHORT_HEADER + BLANK_LINE + body, addr, None, sha1);
  }

  /** With nothing between the two reversed marks there is no panic, but the block that is sent is empty. */
  lemma TouchingMarksAreLost(sha1: string -> Digest)
    ensures var raw := SHORT_HEADER + BLANK_LINE + (END_MARK + "" + BEGIN_MARK);
            Rewrap(raw, sha1).Wrapped? && Block(Body(raw)) == ""
  {
    Divides(SHORT_HEADER, END_MARK + "" + BEGIN_MARK);
    OneB();
    Reversed(END_MARK, "", BEGIN_MARK, 5);
  }

  /** An address that holds a line break makes header lines of its own. */
  lemma BrokenAddressIsNotFramed(raw: string, key: seq<byte>)
    requires Contains(raw, BLANK_LINE)
    ensures var addr := "a@d" + CRLF + "Bcc:x";
            !HeaderInjection.Framed(raw, HeaderInjection.Injected(raw, addr, Some(key)), HeaderInjection.Added(raw, addr, Some(key)))
  {
    var addr := "a@d" + CRLF + "Bcc:x";
    assert addr[3..5] == CRLF;
    assert At(addr, CRLF, 3);
    HeaderInjection.InjectionFrames(raw, addr, Some(key));
  }

  lemma OneB()
    ensures 'B' !in END_MARK && forall k | 0 <= k < |BEGIN_MARK| && BEGIN_MARK[k] == 'B' :: k == 5
  {
  }

  lemma Reversed(e: string, gap: string, b: string, i: nat)
    requires e != "" && i < |b| && b[i] == 'B' && (forall k | 0 <= k < |b| && b[k] == 'B' :: k == i)
    requires 'B' !in e && 'B' !in gap
    ensures Index(e + gap + b, e) == 0 && Index(e + gap + b, b) == |e| + |gap|
  {
    var body := e + gap + b;
    var n := |e| + |gap|;
    assert At(body, e, 0);
    IndexIs(body, e, 0);
    assert body[n..n + |b|] == b;
    assert At(body, b, n);
    forall j | 0 <= j < n ensures !At(body, b, j) {
      if j + i < |body| {
        assert body[j + i] == if j + i < n then (e + gap)[j + i] else b[j + i - n];
      }
      if At(body, b, j) {
        AtChar(body, b, j, i);
      }
    }
    IndexIs(body, b, n);
  }

  /** A Chat-Version line in the body alone keeps the header from getting one. */
  lemma BodyMentionSuppresses(rest: string)
    ensures !HeaderInjection.HasChatField(HeaderInjection.ChatVersion(
              SHORT_HEADER + BLANK_LINE + (LF + HeaderInjection.CHAT_NAME + rest)))
  {
    var mention := LF + HeaderInjection.CHAT_NAME;
    var body := mention + rest;
    var raw := SHORT_HEADER + BLANK_LINE + body;
    Divides(SHORT_HEADER, body);
    assert body[..|mention|] == mention;
    assert At(body, mention, 0);
    AtSuffix(SHORT_HEADER + BLANK_LINE, body, mention, |SHORT_HEADER + BLANK_LINE|);
    PgpMimeProof.NoLfNoCrlf(SHORT_HEADER);
    assert HeaderLines(raw) == [SHORT_HEADER];
    assert SHORT_HEADER[0] == 'T' && HeaderInjection.CHAT_NAME[0] == 'C';
  }

  // ----- encryption at rest --------------------------------------------------

  const PAIR := ["a@d", "b@d"]
  const TEXT := ["1"]
  const HI := map["1" := "hi"]
  const BOTH_KEYS := map["a@d" := "x", "b@d" := "y"]
  const SECOND_KEY := map["b@d" := "y"]

  lemma HiBody()
    ensures AtRest.Body(ToyCipher(), TEXT, HI) == "hi" && !Contains("hi", AtRest.BEGIN_MARK)
  {
    assert TEXT[1..] == [];
    assert AtRest.TextValues(HI, TEXT) == ["hi"];
  }

  lemma HiJudge(keys: map<string, string>, primary: string, n: nat)
    ensures AtRest.Judge(ToyCipher(), keys, "hi", primary, n) ==
            if '@' in primary && primary in keys then AtRest.Sealed(ToyText(keys[primary], "hi")) else AtRest.Plain
  {
    HiBody();
  }

  lemma PairSealer(keys: map<string, string>)
    ensures AtRest.Sealer(ToyCipher(), keys, "hi", PAIR) ==
            if PAIR[0] in keys then Some(0) else if PAIR[1] in keys then Some(1) else None
  {
    HiJudge(keys, PAIR[0], 0);
    HiJudge(keys, PAIR[1], 1);
    assert '@' in PAIR[0] && '@' in PAIR[1] by {
      assert PAIR[0][1] == '@' && PAIR[1][1] == '@';
    }
  }

  lemma PairLegible(keys: map<string, string>, i: nat)
    requires i < 2
    ensures AtRest.Legible(ToyCipher(), keys, TEXT, HI,
                           AtRest.SealAll(ToyCipher(), keys, TEXT, HI, PAIR).values, PAIR[i]) <==>
            AtRest.ForReader(ToyCipher(), keys, "hi", PAIR, PAIR[i])
  {
    ToyIsSound();
    HiBody();
    AtRest.LegibleExactly(ToyCipher(), keys, TEXT, HI, PAIR, i);
  }

  lemma PairMarked(keys: map<string, string>, shared: bool, i: nat)
    requires i < 2
    ensures AtRest.E2E in AtRest.CopyWords(shared, {}, AtRest.SealAll(ToyCipher(), keys, TEXT, HI, PAIR).verdicts, i) <==>
            (PAIR[0] in keys && (shared || i == 1))
  {
    ToyIsSound();
    HiBody();
    HiJudge(keys, PAIR[0], 0);
    AtRest.MarkedExactly(ToyCipher(), keys, TEXT, HI, PAIR, shared, {}, i);
    PairFinds(keys);
  }

  lemma PairFinds(keys: map<string, string>)
    ensures !AtRest.FindsArmour(ToyCipher(), keys, "hi", PAIR, 0)
    ensures AtRest.FindsArmour(ToyCipher(), keys, "hi", PAIR, 1) <==> PAIR[0] in keys
  {
    HiBody();
    HiJudge(keys, PAIR[0], 0);
    assert '@' in PAIR[0] && '@' in PAIR[1] by {
      assert PAIR[0][1] == '@' && PAIR[1][1] == '@';
    }
  }

  /** One DATA for two accounts that both have a key: the second account receives text encrypted with the first account's
      key, marked as if the sender had encrypted it end to end. */
  lemma SecondRecipientCannotRead()
    ensures var o := AtRest.SealAll(ToyCipher(), BOTH_KEYS, TEXT, HI, PAIR);
            !AtRest.Legible(ToyCipher(), BOTH_KEYS, TEXT, HI, o.values, PAIR[1]) &&
            AtRest.E2E in AtRest.CopyWords(false, {}, o.verdicts, 1)
  {
    PairLegible(BOTH_KEYS, 1);
    PairSealer(BOTH_KEYS);
    PairMarked(BOTH_KEYS, false, 1);
  }

  /** Only the second account has a key: the first, which comes before it, receives text encrypted with the second's key,
      and no mark. */
  lemma FirstRecipientCannotRead()
    ensures var o := AtRest.SealAll(ToyCipher(), SECOND_KEY, TEXT, HI, PAIR);
            !AtRest.Legible(ToyCipher(), SECOND_KEY, TEXT, HI, o.values, PAIR[0]) &&
            AtRest.E2E !in AtRest.CopyWords(false, {}, o.verdicts, 0)
  {
    assert PAIR[0][0] == 'a' && "b@d"[0] == 'b';
    PairLegible(SECOND_KEY, 0);
    PairSealer(SECOND_KEY);
    PairMarked(SECOND_KEY, false, 0);
  }

  /** A message that brings keywords: the first account's copy is encrypted with its own key, and yet it is marked, because
      the second copy shares its keyword map. */
  lemma SharedMapMarksAll()
    ensures var o := AtRest.SealAll(ToyCipher(), BOTH_KEYS, TEXT, HI, PAIR);
            AtRest.Legible(ToyCipher(), BOTH_KEYS, TEXT, HI, o.values, PAIR[0]) &&
            AtRest.E2E in AtRest.CopyWords(true, {}, o.verdicts, 0)
  {
    PairLegible(BOTH_KEYS, 0);
    PairSealer(BOTH_KEYS);
    PairMarked(BOTH_KEYS, true, 0);
  }
}
