/** autocrypt.go: writing Autocrypt and Chat-Version fields into a raw message (section 2.2 of RFC 5322). */
module HeaderInjection {
  import opened Text
  import opened BitStrings
  import opened Mime
  import opened PgpMime
  import opened PgpMimeProof
  import Base64
  import Autocrypt

  const CHAT_KEY := "Chat-Version"
  const CHAT_NAME := CHAT_KEY + ":"
  const CHAT_FIELD := CHAT_NAME + " 1.0"

  /** A line written after the last header field; a message without a blank line is left alone. */
  function Insert(raw: string, line: string): string {
    var i := Index(raw, BLANK_LINE);
    if i < 0 then raw else raw[..i + 2] + (line + CRLF) + raw[i + 2..]
  }

  function AutocryptField(addr: string, key: seq<byte>): string {
    "Autocrypt: " + Autocrypt.HeaderValue(addr, Base64.Encode(key, Base64.STD))
  }

  /** A Chat-Version line somewhere in the text, header or body. */
  predicate MentionsChat(raw: string) {
    Contains(raw, LF + CHAT_NAME) || CHAT_NAME <= raw
  }

  function ChatVersion(raw: string): string {
    if MentionsChat(raw) then raw else Insert(raw, CHAT_FIELD)
  }

  /** Header up to its last CRLF, the new line, then the blank line and the body. */
  method WriteInserted(raw: string, idx: nat, line: string) returns (out: string)
    requires Index(raw, BLANK_LINE) == idx
    ensures out == Insert(raw, line)
  {
    out := "";
    out := out + raw[..idx + 2];
    out := out + (line + CRLF);
    out := out + raw[idx + 2..];
  }

  /** injectChatVersionHeader */
  method InjectChatVersion(raw: string) returns (out: string)
    ensures out == ChatVersion(raw)
  {
    if Contains(raw, LF + CHAT_NAME) || CHAT_NAME <= raw {
      return raw;
    }
    var idx := Index(raw, BLANK_LINE);
    if idx < 0 {
      return raw;
    }
    out := WriteInserted(raw, idx, CHAT_FIELD);
  }

  /** The message with an Autocrypt field; no key, or a key that does not serialise, leaves it alone. */
  function WithAutocrypt(raw: string, addr: string, key: Option<seq<byte>>): string {
    match key case None => raw case Some(k) => Insert(raw, AutocryptField(addr, k))
  }

  /** injectEntityAutocryptHeader, and injectAutocryptHeader with the process key. */
  method InjectAutocrypt(raw: string, from: string, key: Option<seq<byte>>) returns (out: string)
    ensures out == WithAutocrypt(raw, from, key)
  {
    if key.None? {
      return raw;
    }
    var line := AutocryptField(from, key.value);
    var idx := Index(raw, BLANK_LINE);
    if idx < 0 {
      return raw;
    }
    out := WriteInserted(raw, idx, line);
  }

  // ----- framing -------------------------------------------------------------

  lemma BlankStart(s: string, j: int)
    requires At(s, BLANK_LINE, j)
    ensures s[j] == '\r' && s[j + 1] == '\n' && s[j + 2] == '\r' && s[j + 3] == '\n'
  {
  }

  lemma LineBreakAt(line: string, k: nat)
    requires !Contains(line, CRLF) && k + 1 < |line| && line[k] == '\r'
    ensures line[k + 1] != '\n'
  {
    if line[k + 1] == '\n' {
      LineBreakHere(line, k);
    }
  }

  lemma LineBreakHere(line: string, k: nat)
    requires k + 1 < |line| && line[k] == '\r' && line[k + 1] == '\n'
    ensures Contains(line, CRLF)
  {
    assert line[k..k + 2] == CRLF;
    assert At(line, CRLF, k);
  }

  /** After header text h and one more line, the blank line is found behind that line and nowhere before. */
  lemma BlankMoves(h: string, line: string, rest: string)
    requires forall j | 0 <= j < |h| :: !At(h + BLANK_LINE + rest, BLANK_LINE, j)
    requires line != "" && !Contains(line, CRLF)
    ensures Index(h + CRLF + line + BLANK_LINE + rest, BLANK_LINE) == |h| + 2 + |line|
  {
    var s := h + CRLF + line + BLANK_LINE + rest;
    var t := h + BLANK_LINE + rest;
    var n := |h| + 2 + |line|;
    assert s[n..n + 4] == BLANK_LINE;
    forall j | 0 <= j < n ensures !At(s, BLANK_LINE, j) {
      if j + 4 <= |h| + 2 {
        assert s[j..j + 4] == t[j..j + 4];
        assert !At(t, BLANK_LINE, j);
      } else if At(s, BLANK_LINE, j) {
        BlankStart(s, j);
        NoBlankInLine(h, line, rest, j);
      }
    }
    IndexIs(s, BLANK_LINE, n);
  }

  lemma NoBlankInLine(h: string, line: string, rest: string, j: int)
    requires line != "" && !Contains(line, CRLF)
    requires |h| - 1 <= j < |h| + 2 + |line| && 0 <= j
    ensures var s := h + CRLF + line + BLANK_LINE + rest;
            !(s[j] == '\r' && s[j + 1] == '\n' && s[j + 2] == '\r' && s[j + 3] == '\n')
  {
    var s := h + CRLF + line + BLANK_LINE + rest;
    assert s[|h|] == '\r' && s[|h| + 1] == '\n' && s[|h| + 2 + |line|] == '\r';
    assert forall k | 0 <= k < |line| :: s[|h| + 2 + k] == line[k];
    if j >= |h| + 2 {
      var k := j - |h| - 2;
      assert s[j] == line[k];
      if k + 1 < |line| && line[k] == '\r' {
        assert s[j + 1] == line[k + 1];
        LineBreakAt(line, k);
      }
    } else if j == |h| {
      assert s[j + 2] == line[0];
      if |line| > 1 && line[0] == '\r' {
        assert s[j + 3] == line[1];
        LineBreakAt(line, 0);
      }
    }
  }

  /** Inserting a line moves the blank line by exactly the inserted length, adds that line behind the original header
      lines and keeps them and the body character for character. */
  lemma InsertFrames(raw: string, line: string)
    requires Contains(raw, BLANK_LINE) && line != "" && !Contains(line, CRLF)
    ensures var out := Insert(raw, line);
            Index(out, BLANK_LINE) == Index(raw, BLANK_LINE) + |line| + 2 &&
            HeaderLines(out) == HeaderLines(raw) + [line] && Body(out) == Body(raw)
  {
    var i := Index(raw, BLANK_LINE);
    var h, rest := raw[..i], raw[i + 4..];
    assert raw[i..i + 4] == BLANK_LINE;
    assert raw == h + BLANK_LINE + rest;
    InsertedText(raw, line, h, rest);
    BlankMoves(h, line, rest);
    InsertedParts(Insert(raw, line), h, line, rest);
  }

  lemma InsertedText(raw: string, line: string, h: string, rest: string)
    requires Index(raw, BLANK_LINE) == |h| && raw == h + BLANK_LINE + rest
    ensures Insert(raw, line) == h + CRLF + line + BLANK_LINE + rest
  {
  }

  lemma InsertedParts(out: string, h: string, line: string, rest: string)
    requires out == h + CRLF + line + BLANK_LINE + rest && Index(out, BLANK_LINE) == |h| + 2 + |line|
    requires !Contains(line, CRLF)
    ensures HeaderLines(out) == Split(h, CRLF) + [line] && Body(out) == rest
  {
    var n := |h| + 2 + |line|;
    assert out[..n] == h + CRLF + line && out[n + 4..] == rest;
    HeaderGrows(h, line);
  }

  lemma HeaderGrows(h: string, line: string)
    requires !Contains(line, CRLF)
    ensures Split(h + CRLF + line, CRLF) == Split(h, CRLF) + [line]
  {
    SplitConcat(h, CRLF, line);
  }

  // ----- what the two injections promise -------------------------------------

  /** Does the header have a line that starts with Chat-Version: ? */
  predicate HasChatField(raw: string) {
    Contains(raw, BLANK_LINE) && exists i | 0 <= i < |HeaderLines(raw)| :: CHAT_NAME <= HeaderLines(raw)[i]
  }

  lemma ChatLine()
    ensures !Contains(CHAT_FIELD, CRLF) && CHAT_NAME <= CHAT_FIELD
  {
    NoLfNoCrlf(CHAT_FIELD);
    assert CHAT_FIELD[..|CHAT_NAME|] == CHAT_NAME;
  }

  /** After Chat-Version injection the header has a Chat-Version line exactly when the message has a blank line and
      either its header had one already or no Chat-Version line stands anywhere: a line in the body alone
      suppresses the injection. */
  lemma ChatVersionPresent(raw: string)
    ensures HasChatField(ChatVersion(raw)) <==>
            Contains(raw, BLANK_LINE) && (HasChatField(raw) || !MentionsChat(raw))
  {
    if !MentionsChat(raw) && Contains(raw, BLANK_LINE) {
      ChatLine();
      InsertFrames(raw, CHAT_FIELD);
      var lines := HeaderLines(ChatVersion(raw));
      assert lines[|HeaderLines(raw)|] == CHAT_FIELD;
    }
  }

  /** Injecting Chat-Version twice is injecting it once. */
  lemma ChatVersionTwice(raw: string)
    ensures ChatVersion(ChatVersion(raw)) == ChatVersion(raw)
  {
    if !MentionsChat(raw) && Contains(raw, BLANK_LINE) {
      var i := Index(raw, BLANK_LINE);
      var out := ChatVersion(raw);
      assert raw[i..i + 4] == BLANK_LINE;
      assert raw[..i + 2] == raw[..i + 1] + LF by {
        assert raw[i + 1] == BLANK_LINE[1];
      }
      ChatLine();
      InsertMentions(raw[..i + 1], raw[i + 2..]);
      assert out == raw[..i + 1] + LF + (CHAT_FIELD + CRLF) + raw[i + 2..];
    }
  }

  lemma InsertMentions(a: string, b: string)
    ensures MentionsChat(a + LF + (CHAT_FIELD + CRLF) + b)
  {
    var s := a + LF + (CHAT_FIELD + CRLF) + b;
    assert CHAT_FIELD[..|CHAT_NAME|] == CHAT_NAME;
    assert s[|a|] == '\n';
    assert s[|a|..|a| + 1 + |CHAT_NAME|] == LF + CHAT_NAME;
    assert At(s, LF + CHAT_NAME, |a|);
  }

  /** A line break between texts that cannot be part of one is a line break in the text between them. */
  lemma NoBreakOutside(pre: string, addr: string, post: string)
    requires pre != "" && '\r' !in pre && '\n' !in pre && '\n' !in post
    ensures Contains(pre + addr + post, CRLF) <==> Contains(addr, CRLF)
  {
    var s := pre + addr + post;
    if Contains(addr, CRLF) {
      var i := Index(addr, CRLF);
      AtChar(addr, CRLF, i, 0);
      AtChar(addr, CRLF, i, 1);
      assert s[|pre| + i] == addr[i] && s[|pre| + i + 1] == addr[i + 1];
      LineBreakHere(s, |pre| + i);
    }
    if Contains(s, CRLF) {
      var i := Index(s, CRLF);
      AtChar(s, CRLF, i, 0);
      AtChar(s, CRLF, i, 1);
      CharOf(pre, addr, post, i);
      CharOf(pre, addr, post, i + 1);
      assert |pre| <= i && i + 1 < |pre| + |addr|;
      LineBreakHere(addr, i - |pre|);
    }
  }

  lemma CharOf(pre: string, addr: string, post: string, k: nat)
    requires k < |pre + addr + post|
    ensures (pre + addr + post)[k] ==
            if k < |pre| then pre[k] else if k < |pre| + |addr| then addr[k - |pre|] else post[k - |pre| - |addr|]
  {
  }

  lemma AutocryptLine(addr: string, key: seq<byte>)
    ensures Contains(AutocryptField(addr, key), CRLF) <==> Contains(addr, CRLF)
    ensures AutocryptField(addr, key) != ""
  {
    var keydata := Base64.Encode(key, Base64.STD);
    Base64.EncodedChars(key, Base64.STD);
    assert '\n' !in keydata;
    var pre, post := "Autocrypt: " + "addr=", ";" + (Autocrypt.PREFER + ";" + (" keydata=" + keydata));
    assert '\n' !in Autocrypt.PREFER && '\n' !in " keydata=";
    assert '\n' !in post;
    assert AutocryptField(addr, key) == pre + addr + post;
    assert '\r' !in pre && '\n' !in pre;
    hide AutocryptField;
    NoBreakOutside(pre, addr, post);
  }

  /** The header lines sendEmail adds, in order. */
  function Added(raw: string, addr: string, key: Option<seq<byte>>): seq<string> {
    (match key case None => [] case Some(k) => [AutocryptField(addr, k)])
    + (if MentionsChat(WithAutocrypt(raw, addr, key)) then [] else [CHAT_FIELD])
  }

  /** The message after both injections, as sendEmail applies them. */
  function Injected(raw: string, addr: string, key: Option<seq<byte>>): string {
    ChatVersion(WithAutocrypt(raw, addr, key))
  }

  /** out is raw with some lines added behind its header and nothing else changed. */
  predicate Framed(raw: string, out: string, added: seq<string>) {
    Contains(raw, BLANK_LINE) && Contains(out, BLANK_LINE) &&
    HeaderLines(out) == HeaderLines(raw) + added && Body(out) == Body(raw) &&
    Index(out, BLANK_LINE) == Index(raw, BLANK_LINE) + (|out| - |raw|)
  }

  lemma FramedTwice(raw: string, mid: string, out: string, a: seq<string>, b: seq<string>)
    requires Framed(raw, mid, a) && Framed(mid, out, b)
    ensures Framed(raw, out, a + b)
  {
  }

  /** The address of an injected field holds no line break, or no field is injected. */
  predicate OneLine(addr: string, key: Option<seq<byte>>) {
    key.None? || !Contains(addr, CRLF)
  }

  lemma AutocryptFrames(raw: string, addr: string, key: Option<seq<byte>>)
    requires OneLine(addr, key) && Contains(raw, BLANK_LINE)
    ensures Framed(raw, WithAutocrypt(raw, addr, key), match key case None => [] case Some(k) => [AutocryptField(addr, k)])
  {
    if key.Some? {
      AutocryptLine(addr, key.value);
      InsertFrames(raw, AutocryptField(addr, key.value));
    }
  }

  lemma ChatFrames(mid: string)
    requires Contains(mid, BLANK_LINE)
    ensures Framed(mid, ChatVersion(mid), if MentionsChat(mid) then [] else [CHAT_FIELD])
  {
    if !MentionsChat(mid) {
      ChatLine();
      InsertFrames(mid, CHAT_FIELD);
    }
  }

  lemma InjectionFits(raw: string, addr: string, key: Option<seq<byte>>)
    requires OneLine(addr, key) && Contains(raw, BLANK_LINE)
    ensures Framed(raw, Injected(raw, addr, key), Added(raw, addr, key))
  {
    hide Framed, AutocryptField;
    var mid := WithAutocrypt(raw, addr, key);
    AutocryptFrames(raw, addr, key);
    FramedHasBlank(raw, mid, match key case None => [] case Some(k) => [AutocryptField(addr, k)]);
    ChatFrames(mid);
    FramedTwice(raw, mid, ChatVersion(mid), match key case None => [] case Some(k) => [AutocryptField(addr, k)],
      if MentionsChat(mid) then [] else [CHAT_FIELD]);
  }

  lemma FramedHasBlank(raw: string, out: string, added: seq<string>)
    requires Framed(raw, out, added)
    ensures Contains(out, BLANK_LINE)
  {
  }

  /** Header injection is framed: Autocrypt then Chat-Version injection keep every header line and the body as they were,
      append each field at most once, and move the blank line by exactly the inserted length, if and only if the address
      holds no line break. Without a blank line nothing is changed. */
  lemma InjectionFrames(raw: string, addr: string, key: Option<seq<byte>>)
    ensures if Contains(raw, BLANK_LINE)
            then Framed(raw, Injected(raw, addr, key), Added(raw, addr, key)) <==> OneLine(addr, key)
            else Injected(raw, addr, key) == raw
  {
    if Contains(raw, BLANK_LINE) {
      if OneLine(addr, key) {
        InjectionFits(raw, addr, key);
      } else {
        var out := Injected(raw, addr, key);
        AutocryptLine(addr, key.value);
        if Contains(out, BLANK_LINE) {
          HeaderLinesShape(out);
          assert AutocryptField(addr, key.value) == Added(raw, addr, key)[0];
          NotALine(HeaderLines(out), HeaderLines(raw), Added(raw, addr, key));
        }
      }
    }
  }

  lemma NotALine(lines: seq<string>, before: seq<string>, added: seq<string>)
    requires (forall l | l in lines :: !Contains(l, CRLF)) && added != [] && Contains(added[0], CRLF)
    ensures lines != before + added
  {
    assert (before + added)[|before|] == added[0];
  }

  // ----- what the receiving side reads ---------------------------------------

  function SkipBlanks(s: string): string {
    if s != "" && (s[0] == ' ' || s[0] == '\t') then SkipBlanks(s[1..]) else s
  }

  /** The value of a field: its lines joined, what follows the name, without blanks in front. */
  function FieldValue(f: Field): string {
    match Cut(Join(f, " "), ":").1 case None => "" case Some(v) => SkipBlanks(v)
  }

  /** Header.Get("Autocrypt"): the first field of that name. */
  function Received(m: string): Option<string>
    requires Contains(m, BLANK_LINE)
  {
    var found := Named(Fields(HeaderLines(m)), "autocrypt");
    if found == [] then None else Some(FieldValue(found[0]))
  }

  lemma LowerAutocrypt()
    ensures Lower("Autocrypt") == "autocrypt" && Lower(CHAT_KEY) != "autocrypt"
  {
    var l := Lower("Autocrypt");
    assert l == [l[0], l[1], l[2], l[3], l[4], l[5], l[6], l[7], l[8]];
    assert |Lower(CHAT_KEY)| == 12;
  }

  lemma AutocryptNamed(addr: string, key: seq<byte>)
    ensures LineKey(AutocryptField(addr, key)) == "autocrypt"
    ensures FieldValue([AutocryptField(addr, key)]) == Autocrypt.HeaderValue(addr, Base64.Encode(key, Base64.STD))
  {
    var value := Autocrypt.HeaderValue(addr, Base64.Encode(key, Base64.STD));
    var line := AutocryptField(addr, key);
    assert line == "Autocrypt" + ":" + (" " + value);
    NamedLine("Autocrypt", " " + value);
    LowerAutocrypt();
    ContainsChar("Autocrypt", ':');
    CutAt("Autocrypt", ":", " " + value);
    assert (" " + value)[1..] == value && value[0] == 'a';
    assert SkipBlanks(value) == value;
  }

  lemma OneNamed(line: string)
    ensures Named([[line]], "autocrypt") == if LineKey(line) == "autocrypt" then [[line]] else []
  {
    assert [[line]][1..] == [];
  }

  lemma ChatNamed()
    ensures Named([[CHAT_FIELD]], "autocrypt") == []
  {
    NamedLine(CHAT_KEY, " 1.0");
    LowerAutocrypt();
    OneNamed(CHAT_FIELD);
  }

  /** The fields of the injected header. */
  lemma InjectedFields(raw: string, addr: string, key: Option<seq<byte>>)
    requires OneLine(addr, key) && Contains(raw, BLANK_LINE)
    ensures Contains(Injected(raw, addr, key), BLANK_LINE)
    ensures Fields(HeaderLines(Injected(raw, addr, key))) == Fields(HeaderLines(raw)) + Singles(Added(raw, addr, key))
  {
    InjectionFits(raw, addr, key);
    AddedArePlain(raw, addr, key);
    hide Injected, Added, Fields, HeaderLines;
    PlainFields(HeaderLines(raw), Added(raw, addr, key));
  }

  lemma {:induction false} PlainFields(lines: seq<string>, added: seq<string>)
    requires forall i | 0 <= i < |added| :: !Continuation(added[i])
    ensures Fields(lines + added) == Fields(lines) + Singles(added)
    decreases |added|
  {
    hide Fields;
    if added == [] {
      assert lines + added == lines && Fields(lines) + Singles(added) == Fields(lines);
    } else {
      var n := |added| - 1;
      PlainFields(lines, added[..n]);
      FieldsSnoc(lines + added[..n], added[n]);
      assert lines + added == (lines + added[..n]) + [added[n]];
      assert Singles(added) == Singles(added[..n]) + [[added[n]]];
      assert (Fields(lines) + Singles(added[..n])) + [[added[n]]] == Fields(lines) + Singles(added);
    }
  }

  /** The Autocrypt fields of the injected message are those it had and then the injected one. So a receiver, which takes
      the first, reads the key that was injected, and the address if it has no semicolon and no outer white space, if the
      message had no such field; otherwise it reads what it would have read without the injection. */
  lemma InjectedIsRead(raw: string, addr: string, key: seq<byte>)
    requires OneLine(addr, Some(key)) && Contains(raw, BLANK_LINE)
    ensures var m := Injected(raw, addr, Some(key));
            Contains(m, BLANK_LINE) &&
            Named(Fields(HeaderLines(m)), "autocrypt") ==
              Named(Fields(HeaderLines(raw)), "autocrypt") + [[AutocryptField(addr, key)]] &&
            if Received(raw).None? then
              Received(m).Some? &&
              var p := Autocrypt.Parse(Received(m).value);
              (p.addr == addr <==> Trimmed(addr) && ';' !in addr) && Autocrypt.PeerKey(p.keydata) == Some(key)
            else Received(m) == Received(raw)
  {
    InjectedFields(raw, addr, Some(key));
    AddedNamed(raw, addr, key);
    NamedConcat(Fields(HeaderLines(raw)), Singles(Added(raw, addr, Some(key))), "autocrypt");
    AutocryptNamed(addr, key);
    var keydata := Base64.Encode(key, Base64.STD);
    StripEncoded(key);
    Autocrypt.RoundTrip(addr, key, keydata);
    hide Injected, Added, Fields, HeaderLines, Named, FieldValue, AutocryptField, Singles;
    FirstRead(Named(Fields(HeaderLines(raw)), "autocrypt"), [AutocryptField(addr, key)]);
  }

  lemma FirstRead(fs: seq<Field>, f: Field)
    ensures (fs + [f])[0] == if fs == [] then f else fs[0]
  {
  }

  lemma StripEncoded(key: seq<byte>)
    ensures Autocrypt.Strip(Base64.Encode(key, Base64.STD)) == Base64.Encode(key, Base64.STD)
  {
    Base64.EncodedChars(key, Base64.STD);
    Autocrypt.StripPlain(Base64.Encode(key, Base64.STD));
  }

  lemma AddedNamed(raw: string, addr: string, key: seq<byte>)
    ensures Named(Singles(Added(raw, addr, Some(key))), "autocrypt") == [[AutocryptField(addr, key)]]
  {
    var line := AutocryptField(addr, key);
    AutocryptNamed(addr, key);
    OneNamed(line);
    ChatNamed();
    hide AutocryptField, MentionsChat, LineKey, Named;
    var added := Added(raw, addr, Some(key));
    if |added| == 1 {
      assert Singles(added) == [[line]];
    } else {
      assert Singles(added) == [[line]] + [[CHAT_FIELD]];
      NamedConcat([[line]], [[CHAT_FIELD]], "autocrypt");
      assert [[line]] + [] == [[line]];
    }
  }

  // ----- the whole outgoing message ------------------------------------------

  /** What sendEmail hands to DKIM and SMTP: both injections, then the rewrapping if a begin mark stands anywhere. A
      rewrapping that fails leaves the injected message; Panic takes the sending goroutine down. */
  function Outgoing(raw: string, addr: string, key: Option<seq<byte>>, sha1: string -> Digest): Wrapping {
    var m := Injected(raw, addr, key);
    if !Contains(m, BEGIN_MARK) then Wrapped(m)
    else match Rewrap(m, sha1)
      case Wrapped(w) => Wrapped(w)
      case Panic => Panic
      case _ => Wrapped(m)
  }

  method BuildOutgoing(raw: string, addr: string, key: Option<seq<byte>>, sha1: string -> Digest) returns (r: Wrapping)
    ensures r == Outgoing(raw, addr, key, sha1)
  {
    var m := InjectAutocrypt(raw, addr, key);
    m := InjectChatVersion(m);
    if Contains(m, BEGIN_MARK) {
      var w := WrapInline(m, sha1);
      if w.Wrapped? || w.Panic? {
        return w;
      }
    }
    r := Wrapped(m);
  }

  lemma ChatNotDropped()
    ensures !Dropped(CHAT_FIELD) && !Continuation(CHAT_FIELD)
  {
    NamedLine(CHAT_KEY, " 1.0");
    assert Lower(CHAT_KEY)[1] == LowerChar("Chat-Version"[1]) == 'h';
    assert "content-type"[1] == 'o';
    assert "content-transfer-encoding"[1] == 'o';
    assert CHAT_FIELD[0] == 'C';
  }

  lemma AutocryptNotDropped(addr: string, key: seq<byte>)
    ensures !Dropped(AutocryptField(addr, key)) && !Continuation(AutocryptField(addr, key))
  {
  }

  function Singles(lines: seq<string>): seq<Field> {
    seq(|lines|, i requires 0 <= i < |lines| => [lines[i]])
  }

  lemma KeepFieldsCons(f: Field, fields: seq<Field>)
    ensures KeepFields([f] + fields) == (if Dropped(f[0]) then [] else [f]) + KeepFields(fields)
  {
  }

  lemma {:induction false} KeepFieldsSnoc(fields: seq<Field>, f: Field)
    ensures KeepFields(fields + [f]) == KeepFields(fields) + (if Dropped(f[0]) then [] else [f])
    ensures DroppedUnfolded(fields + [f]) <==> DroppedUnfolded(fields) && (Dropped(f[0]) ==> |f| == 1)
  {
    if fields == [] {
      assert fields + [f] == [f] + [];
      KeepFieldsCons(f, []);
      FlatCons(f, []);
    } else {
      var g, rest := fields[0], fields[1..];
      assert fields == [g] + rest;
      assert fields + [f] == [g] + (rest + [f]);
      KeepFieldsCons(g, rest);
      KeepFieldsCons(g, rest + [f]);
      FlatCons(g, rest);
      FlatCons(g, rest + [f]);
      KeepFieldsSnoc(rest, f);
    }
  }

  /** Lines that are kept and start no continuation are fields of their own. */
  lemma {:induction false} AddedFields(lines: seq<string>, added: seq<string>)
    requires forall i | 0 <= i < |added| :: !Dropped(added[i]) && !Continuation(added[i])
    ensures KeepFields(Fields(lines + added)) == KeepFields(Fields(lines)) + Singles(added)
    ensures DroppedUnfolded(Fields(lines + added)) <==> DroppedUnfolded(Fields(lines))
    decreases |added|
  {
    if added == [] {
      assert lines + added == lines;
      assert KeepFields(Fields(lines)) + Singles(added) == KeepFields(Fields(lines));
    } else {
      var n := |added| - 1;
      AddedFields(lines, added[..n]);
      AddedField(lines + added[..n], added[n]);
      AddedSplit(lines, added, n);
      AddedSingle(KeepFields(Fields(lines)), KeepFields(Fields(lines + added[..n])), KeepFields(Fields(lines + added)), added, n);
    }
  }

  lemma AddedSplit(lines: seq<string>, added: seq<string>, n: nat)
    requires |added| == n + 1
    ensures lines + added == (lines + added[..n]) + [added[n]]
  {
  }

  lemma AddedSingle(kept: seq<Field>, most: seq<Field>, all: seq<Field>, added: seq<string>, n: nat)
    requires |added| == n + 1 && most == kept + Singles(added[..n]) && all == most + [[added[n]]]
    ensures all == kept + Singles(added)
  {
  }

  lemma AddedField(lines: seq<string>, line: string)
    requires !Dropped(line) && !Continuation(line)
    ensures KeepFields(Fields(lines + [line])) == KeepFields(Fields(lines)) + [[line]]
    ensures DroppedUnfolded(Fields(lines + [line])) <==> DroppedUnfolded(Fields(lines))
  {
    FieldsSnoc(lines, line);
    KeepFieldsSnoc(Fields(lines), [line]);
  }

  lemma AddedArePlain(raw: string, addr: string, key: Option<seq<byte>>)
    ensures forall i | 0 <= i < |Added(raw, addr, key)| ::
              !Dropped(Added(raw, addr, key)[i]) && !Continuation(Added(raw, addr, key)[i])
  {
    ChatNotDropped();
    if key.Some? {
      AutocryptNotDropped(addr, key.value);
    }
  }

  /** The fields a client-encrypted message should arrive with: its own but for the content fields, then the added
      ones, then the new Content-Type. */
  function Delivered(raw: string, addr: string, key: Option<seq<byte>>, boundary: string): Multipart
    requires Contains(raw, BLANK_LINE)
    requires 0 <= Index(Body(raw), BEGIN_MARK) <= Index(Body(raw), END_MARK) + |END_MARK| && Contains(Body(raw), END_MARK)
  {
    Multipart(KeepFields(Fields(HeaderLines(raw))) + Singles(Added(raw, addr, key)) + [[TypeLine(boundary)]],
      [VERSION_PART, Part([BLOCK_TYPE], Crlf(Block(Body(raw))))])
  }

  lemma InjectedStart(raw: string, addr: string, key: Option<seq<byte>>)
    requires OneLine(addr, key) && Contains(raw, BLANK_LINE)
    ensures CRLF <= Injected(raw, addr, key) <==> CRLF <= raw
  {
    InjectionFits(raw, addr, key);
    HeaderLinesShape(raw);
    HeaderLinesShape(Injected(raw, addr, key));
    assert HeaderLines(Injected(raw, addr, key))[0] == HeaderLines(raw)[0];
  }

  lemma BodyHoldsMark(m: string)
    requires Contains(m, BLANK_LINE) && Contains(Body(m), BEGIN_MARK)
    ensures Contains(m, BEGIN_MARK)
  {
    var i := Index(m, BLANK_LINE) + 4;
    assert m == m[..i] + Body(m);
    AtSuffix(m[..i], Body(m), BEGIN_MARK, i + Index(Body(m), BEGIN_MARK));
  }

  /** Both marks are there, and the first end mark ends before the first begin mark starts. */
  predicate MarksCross(body: string) {
    Contains(body, BEGIN_MARK) && Contains(body, END_MARK) && Index(body, END_MARK) + |END_MARK| < Index(body, BEGIN_MARK)
  }

  lemma RewrapPanics(m: string, sha1: string -> Digest)
    ensures Rewrap(m, sha1) == Panic <==> Contains(m, BLANK_LINE) && MarksCross(Body(m))
  {
    hide Render;
  }

  /** Sending panics exactly on a message, blank line included, whose body has its marks crossed. */
  lemma OutgoingPanics(raw: string, addr: string, key: Option<seq<byte>>, sha1: string -> Digest)
    requires OneLine(addr, key)
    ensures Outgoing(raw, addr, key, sha1) == Panic <==> Contains(raw, BLANK_LINE) && MarksCross(Body(raw))
  {
    var m := Injected(raw, addr, key);
    if Contains(raw, BLANK_LINE) {
      InjectionFits(raw, addr, key);
      if MarksCross(Body(m)) {
        BodyHoldsMark(m);
      }
    } else {
      InjectionFrames(raw, addr, key);
    }
    hide Injected, Rewrap, MarksCross;
    RewrapPanics(m, sha1);
  }

  /** The outgoing pipeline as a whole. A message whose body holds an OpenPGP block leaves as a multipart that reads
      back as its own fields, the injected ones, one Content-Type and the block, exactly when the address holds no line
      break, the message does not start with one, its content fields are not folded, and no line of the block starts with
      the delimiter. */
  lemma OutgoingReadsBack(raw: string, addr: string, key: Option<seq<byte>>, sha1: string -> Digest)
    requires Contains(raw, BLANK_LINE)
    requires 0 <= Index(Body(raw), BEGIN_MARK) <= Index(Body(raw), END_MARK) + |END_MARK| && Contains(Body(raw), END_MARK)
    ensures var b := Boundary(sha1, Block(Body(raw)));
            var out := Outgoing(raw, addr, key, sha1);
            (out.Wrapped? && ReadMessage(out.message) == Some(Delivered(raw, addr, key, b))) <==>
            OneLine(addr, key) && !(CRLF <= raw) && DroppedUnfolded(Fields(HeaderLines(raw))) &&
            forall l | l in Split(Block(Body(raw)), LF) :: !("--" + b <= l)
  {
    if OneLine(addr, key) {
      OneLineReadsBack(raw, addr, key, sha1);
    } else {
      var out := Outgoing(raw, addr, key, sha1);
      if out.Wrapped? {
        BrokenNotRead(raw, addr, key, Boundary(sha1, Block(Body(raw))), out.message);
      }
    }
  }

  lemma OneLineReadsBack(raw: string, addr: string, key: Option<seq<byte>>, sha1: string -> Digest)
    requires OneLine(addr, key) && Contains(raw, BLANK_LINE)
    requires 0 <= Index(Body(raw), BEGIN_MARK) <= Index(Body(raw), END_MARK) + |END_MARK| && Contains(Body(raw), END_MARK)
    ensures var b := Boundary(sha1, Block(Body(raw)));
            Outgoing(raw, addr, key, sha1).Wrapped? &&
            (ReadMessage(Outgoing(raw, addr, key, sha1).message) == Some(Delivered(raw, addr, key, b)) <==>
             !(CRLF <= raw) && DroppedUnfolded(Fields(HeaderLines(raw))) &&
             forall l | l in Split(Block(Body(raw)), LF) :: !("--" + b <= l))
  {
    var m := Injected(raw, addr, key);
    InjectionFits(raw, addr, key);
    InjectedStart(raw, addr, key);
    BodyHoldsMark(m);
    WrapReadsBack(m, sha1);
    AddedArePlain(raw, addr, key);
    AddedFields(HeaderLines(raw), Added(raw, addr, key));
  }

  // ----- an address that breaks the line -------------------------------------

  lemma {:induction false} HeaderOf(lines: seq<string>)
    ensures SplitHeader(lines).Some? ==> forall l | l in SplitHeader(lines).value.0 :: l in lines
  {
    if lines != [] && lines[0] != "" {
      HeaderOf(lines[1..]);
    }
  }

  lemma {:induction false} FlatHolds(fields: seq<Field>, f: Field)
    requires f in fields
    ensures forall l | l in f :: l in Flat(fields)
  {
    if f != fields[0] {
      FlatHolds(fields[1..], f);
    }
  }

  /** No reader finds a line break in a field line. */
  lemma ReadFieldsPlain(m: string, f: Field)
    requires ReadMessage(m).Some? && f in ReadMessage(m).value.fields
    ensures !Contains(f[0], CRLF)
  {
    hide ReadMultipart, BoundaryParameter, Named;
    var lines := Split(m, CRLF);
    var header := SplitHeader(lines).value.0;
    SplitPieces(m, CRLF);
    HeaderOf(lines);
    FlatFields(header);
    FlatHolds(Fields(header), f);
  }

  lemma BrokenNotRead(raw: string, addr: string, key: Option<seq<byte>>, b: string, m: string)
    requires !OneLine(addr, key) && Contains(raw, BLANK_LINE)
    requires 0 <= Index(Body(raw), BEGIN_MARK) <= Index(Body(raw), END_MARK) + |END_MARK| && Contains(Body(raw), END_MARK)
    ensures ReadMessage(m) != Some(Delivered(raw, addr, key, b))
  {
    var f := [AutocryptField(addr, key.value)];
    AutocryptLine(addr, key.value);
    DeliveredHolds(raw, addr, key, b);
    hide ReadMessage, Delivered, AutocryptField;
    if ReadMessage(m) == Some(Delivered(raw, addr, key, b)) {
      ReadFieldsPlain(m, f);
    }
  }

  lemma DeliveredHolds(raw: string, addr: string, key: Option<seq<byte>>, b: string)
    requires key.Some? && Contains(raw, BLANK_LINE)
    requires 0 <= Index(Body(raw), BEGIN_MARK) <= Index(Body(raw), END_MARK) + |END_MARK| && Contains(Body(raw), END_MARK)
    ensures [AutocryptField(addr, key.value)] in Delivered(raw, addr, key, b).fields
  {
    hide AutocryptField, KeepFields, TypeLine, Block, Crlf;
    var kept, added := KeepFields(Fields(HeaderLines(raw))), Singles(Added(raw, addr, key));
    assert added[0] == [AutocryptField(addr, key.value)];
    assert (kept + added + [[TypeLine(b)]])[|kept|] == added[0];
  }
}
