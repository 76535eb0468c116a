/** The rewrapped message, read back: what a multipart reader finds, and exactly when. */
module PgpMimeProof {
  import opened Text
  import opened BitStrings
  import opened Mime
  import opened PgpMime

  // ----- lines of the rendered message ---------------------------------------

  lemma {:induction false} JoinUnlines(lines: seq<string>, more: seq<string>)
    requires more != []
    ensures Join(lines + more, CRLF) == Unlines(lines) + Join(more, CRLF)
  {
    if lines == [] {
      assert lines + more == more;
    } else {
      JoinUnlines(lines[1..], more);
      JoinCons(lines[0], lines[1..] + more, CRLF);
      assert lines + more == [lines[0]] + (lines[1..] + more);
      Joined(lines[0], Unlines(lines[1..]), Join(more, CRLF));
    }
  }

  lemma Joined(line: string, lines: string, more: string)
    ensures line + CRLF + (lines + more) == line + CRLF + lines + more
  {
  }

  /** Written lines come back as lines, whatever follows them. */
  lemma LinesOf(lines: seq<string>, x: string)
    requires forall l | l in lines :: !Contains(l, CRLF)
    ensures Split(Unlines(lines) + x, CRLF) == lines + Split(x, CRLF)
  {
    var more := Split(x, CRLF);
    SplitPieces(x, CRLF);
    SplitJoin(x, CRLF);
    JoinUnlines(lines, more);
    JoinSplit(lines + more, CRLF);
  }

  lemma {:induction false} CrlfConcat(a: string, b: string)
    ensures Crlf(a + b) == Crlf(a) + Crlf(b)
  {
    if a == "" {
      assert a + b == b;
    } else {
      assert (a + b)[1..] == a[1..] + b;
      CrlfConcat(a[1..], b);
    }
  }

  lemma {:induction false} CrlfPlain(s: string)
    requires '\n' !in s
    ensures Crlf(s) == s
  {
    if s != "" {
      CrlfPlain(s[1..]);
    }
  }

  /** The CRLF lines of the converted block are the LF lines of the block itself. */
  lemma {:induction false} SplitCrlf(s: string)
    ensures Split(Crlf(s), CRLF) == Split(s, LF)
    decreases |s|
  {
    ContainsChar(s, '\n');
    var i := Index(s, LF);
    if i < 0 {
      CrlfPlain(s);
      NoLfNoCrlf(s);
    } else {
      var h, t := s[..i], s[i + 1..];
      BeforeFirst(s, LF);
      ContainsChar(h, '\n');
      assert s[i..i + 1] == LF;
      assert s == h + LF + t;
      CrlfLine(h, t);
      NoLfNoCrlf(h);
      SplitAtFirst(h, LF, t);
      SplitAtFirst(h, CRLF, Crlf(t));
      SplitCrlf(t);
    }
  }

  lemma CrlfLine(h: string, t: string)
    requires '\n' !in h
    ensures Crlf(h + LF + t) == h + CRLF + Crlf(t)
  {
    assert h + LF + t == h + (LF + t);
    CrlfConcat(h, LF + t);
    CrlfPlain(h);
    assert (LF + t)[1..] == t;
  }

  lemma NoLfNoCrlf(s: string)
    requires '\n' !in s
    ensures !Contains(s, CRLF) && Split(s, CRLF) == [s]
  {
    if Contains(s, CRLF) {
      AtChar(s, CRLF, Index(s, CRLF), 1);
    }
  }

  /** Line endings of the block come back: CRLF to LF is the inverse of the conversion, on every block. */
  lemma CrlfInverts(block: string)
    ensures Join(Split(Crlf(block), CRLF), LF) == block
  {
    SplitCrlf(block);
    SplitJoin(block, LF);
  }

  // ----- the original header -------------------------------------------------

  lemma BlankHere(a: string, t: string)
    requires t == "" || CRLF <= t
    ensures At(a + CRLF + t + BLANK_LINE, BLANK_LINE, |a|)
  {
  }

  lemma {:induction false} NoInnerBlank(h: string)
    requires forall j | 0 <= j < |h| :: !At(h + BLANK_LINE, BLANK_LINE, j)
    ensures forall k | 1 <= k < |Split(h, CRLF)| :: Split(h, CRLF)[k] != ""
    decreases |h|
  {
    var i := Index(h, CRLF);
    if i >= 0 {
      var t := h[i + 2..];
      assert h[i..i + 2] == CRLF;
      assert h == h[..i] + CRLF + t;
      assert t != "" && !(CRLF <= t) by {
        if t == "" || CRLF <= t {
          BlankHere(h[..i], t);
        }
      }
      forall j | 0 <= j < |t| ensures !At(t + BLANK_LINE, BLANK_LINE, j) {
        AtSuffix(h[..i + 2], t + BLANK_LINE, BLANK_LINE, j + i + 2);
        assert h + BLANK_LINE == h[..i + 2] + (t + BLANK_LINE);
      }
      NoInnerBlank(t);
      FirstPiece(t);
      assert Split(h, CRLF) == [h[..i]] + Split(t, CRLF);
    }
  }

  lemma FirstPiece(t: string)
    ensures Split(t, CRLF)[0] == "" <==> t == "" || CRLF <= t
  {
  }

  /** The header lines of a message hold no line break, and only the first of them can be empty:
      it is empty exactly when the message starts with a line break. */
  lemma HeaderLinesShape(raw: string)
    requires Contains(raw, BLANK_LINE)
    ensures forall l | l in HeaderLines(raw) :: !Contains(l, CRLF)
    ensures forall k | 1 <= k < |HeaderLines(raw)| :: HeaderLines(raw)[k] != ""
    ensures HeaderLines(raw)[0] == "" <==> CRLF <= raw
  {
    var i := Index(raw, BLANK_LINE);
    var h := raw[..i];
    SplitPieces(h, CRLF);
    assert raw[i..i + 4] == BLANK_LINE;
    assert raw == h + BLANK_LINE + raw[i + 4..];
    forall j | 0 <= j < |h| ensures !At(h + BLANK_LINE, BLANK_LINE, j) {
      AtPrefix(h + BLANK_LINE, raw[i + 4..], BLANK_LINE, j);
    }
    NoInnerBlank(h);
    FirstPiece(h);
    if i == 0 {
      assert raw[0..2] == BLANK_LINE[0..2] == CRLF;
    } else if i == 1 {
      assert raw[1] == '\r';
    }
    if CRLF <= raw && i >= 2 {
      assert h[..2] == raw[..2];
    }
  }

  // ----- fields --------------------------------------------------------------

  /** Every field the rewrapping drops stands on one line. */
  predicate DroppedUnfolded(fields: seq<Field>) {
    fields != [] ==> (Dropped(fields[0][0]) ==> |fields[0]| == 1) && DroppedUnfolded(fields[1..])
  }

  lemma DroppedIsPlain(line: string)
    requires Dropped(line)
    ensures line != "" && !Continuation(line)
  {
  }

  lemma {:induction false} KeepFolds(ls: seq<string>)
    requires forall i | 0 <= i < |ls| :: Continuation(ls[i])
    ensures Keep(ls) == ls
  {
    if ls != [] {
      if Dropped(ls[0]) {
        DroppedIsPlain(ls[0]);
      }
      KeepFolds(ls[1..]);
    }
  }

  lemma KeepField(f: Field)
    requires Folding(f)
    ensures Keep(f) == (if Dropped(f[0]) then f[1..] else f)
  {
    KeepFolds(f[1..]);
    assert f == [f[0]] + f[1..];
  }

  /** Dropping lines drops exactly the fields they name, if those are not folded. */
  lemma {:induction false} KeepIsFieldwise(lines: seq<string>)
    requires DroppedUnfolded(Fields(lines))
    ensures Fields(Keep(lines)) == KeepFields(Fields(lines))
    ensures StartsPlain(lines) ==> StartsPlain(Keep(lines))
    decreases |lines|
  {
    if lines != [] {
      var f, rest := FirstField(lines);
      assert Fields(lines)[1..] == Fields(rest);
      KeepIsFieldwise(rest);
      KeepConcat(f, rest);
      KeepField(f);
      if Dropped(f[0]) {
        assert Keep(lines) == Keep(rest);
      } else {
        FieldsCons(f, Keep(rest));
      }
    }
  }

  function Flat(fields: seq<Field>): seq<string> {
    if fields == [] then [] else fields[0] + Flat(fields[1..])
  }

  lemma {:induction false} FlatFields(lines: seq<string>)
    ensures Flat(Fields(lines)) == lines
    decreases |lines|
  {
    if lines != [] {
      var f, rest := FirstField(lines);
      FlatFields(rest);
      assert Fields(lines)[1..] == Fields(rest);
    }
  }

  /** A folded field that is dropped leaves its continuation lines behind. */
  lemma {:induction false} FoldedLeavesLines(lines: seq<string>)
    ensures |Flat(KeepFields(Fields(lines)))| <= |Keep(lines)|
    ensures !DroppedUnfolded(Fields(lines)) ==> |Flat(KeepFields(Fields(lines)))| < |Keep(lines)|
    decreases |lines|
  {
    if lines != [] {
      var f, rest := FirstField(lines);
      FoldedLeavesLines(rest);
      KeepConcat(f, rest);
      KeepField(f);
      FlatCons(f, Fields(rest));
    }
  }

  lemma FlatCons(f: Field, fields: seq<Field>)
    ensures Flat(KeepFields([f] + fields)) == (if Dropped(f[0]) then [] else f) + Flat(KeepFields(fields))
    ensures DroppedUnfolded([f] + fields) <==> (Dropped(f[0]) ==> |f| == 1) && DroppedUnfolded(fields)
  {
    assert ([f] + fields)[1..] == fields;
    var kept := KeepFields(fields);
    assert ([f] + kept)[1..] == kept;
    if Dropped(f[0]) {
      assert KeepFields([f] + fields) == kept;
    }
  }

  /** The field-level reading of the kept lines: right exactly when no dropped field is folded. */
  lemma KeptFields(lines: seq<string>)
    ensures Fields(Keep(lines)) == KeepFields(Fields(lines)) <==> DroppedUnfolded(Fields(lines))
  {
    if DroppedUnfolded(Fields(lines)) {
      KeepIsFieldwise(lines);
    } else {
      FoldedLeavesLines(lines);
      FlatFields(Keep(lines));
    }
  }

  lemma {:induction false} NoTypeKept(fields: seq<Field>)
    ensures Named(KeepFields(fields), "content-type") == []
  {
    if fields != [] {
      NoTypeKept(fields[1..]);
      var f := fields[0];
      if !Dropped(f[0]) {
        NamedConcat([f], KeepFields(fields[1..]), "content-type");
        assert [f][1..] == [];
        assert Named([f], "content-type") == [];
      } else {
        assert KeepFields(fields) == KeepFields(fields[1..]);
      }
    }
  }

  // ----- the boundary --------------------------------------------------------

  /** Characters a boundary is made of: no quote, semicolon, space or line break among them. */
  predicate BoundaryChar(c: char) {
    'a' <= c <= 'z' || '0' <= c <= '9' || c == '-'
  }

  lemma {:induction false} HexChars(bytes: seq<byte>)
    ensures forall c | c in Hex(bytes) :: BoundaryChar(c)
  {
    if bytes != [] {
      HexChars(bytes[1..]);
    }
  }

  lemma BoundaryChars(sha1: string -> Digest, block: string)
    ensures var b := Boundary(sha1, block); b != "" && forall c | c in b :: BoundaryChar(c)
  {
    HexChars(sha1(block)[..6]);
  }

  lemma PlainLine(line: string)
    requires '\n' !in line
    ensures !Contains(line, CRLF)
  {
    NoLfNoCrlf(line);
  }

  lemma TypeShape(b: string)
    ensures exists rest :: TypeLine(b) == "Content-Type" + ":" + rest
  {
    var rest := " multipart/encrypted" + ";" + (PROTOCOL_PIECE + ";" + BoundaryPiece(b));
    assert TypeLine(b) == "Content-Type" + ":" + rest;
  }

  lemma TypeKey(b: string)
    ensures LineKey(TypeLine(b)) == "content-type" && !Continuation(TypeLine(b))
  {
    TypeShape(b);
    var rest :| TypeLine(b) == "Content-Type" + ":" + rest;
    NamedLine("Content-Type", rest);
    LowerContentType();
  }

  lemma LowerContentType()
    ensures Lower("Content-Type") == "content-type"
  {
  }

  lemma TypePieces(b: string)
    requires forall c | c in b :: BoundaryChar(c)
    ensures Split(TypeLine(b), ";") == [TYPE_PIECE, PROTOCOL_PIECE, BoundaryPiece(b)]
  {
    var pieces := [TYPE_PIECE, PROTOCOL_PIECE, BoundaryPiece(b)];
    assert ';' !in TYPE_PIECE && ';' !in PROTOCOL_PIECE && ';' !in BoundaryPiece(b);
    forall p | p in pieces ensures !Contains(p, ";") {
      ContainsChar(p, ';');
    }
    JoinSplit(pieces, ";");
    JoinThree(TYPE_PIECE, PROTOCOL_PIECE, BoundaryPiece(b), ";");
  }

  lemma OtherPiece(piece: string, trimmed: string)
    requires Trim(piece) == trimmed
    requires trimmed != "" && trimmed[0] != 'b'
    ensures QuotedBoundary(piece) == None
  {
  }

  lemma BoundaryPieceReads(b: string)
    ensures QuotedBoundary(BoundaryPiece(b)) == Some(b)
  {
    var a := BOUNDARY_ATTRIBUTE;
    var q := a + "\"" + b + "\"";
    assert BoundaryPiece(b) == " " + q;
    assert q[0] == 'b' && q[|q| - 1] == '\"';
    TrimPadded(" ", q);
    hide Trim;
    assert q[..|a|] == a && q[|a|] == '\"';
    assert q[|a| + 1..|q| - 1] == b;
  }

  lemma FindSkip(piece: string, rest: seq<string>)
    requires QuotedBoundary(piece) == None
    ensures FindBoundary([piece] + rest) == FindBoundary(rest)
  {
  }

  lemma FindThird(a: string, b: string, c: string)
    requires QuotedBoundary(a) == None && QuotedBoundary(b) == None && QuotedBoundary(c).Some?
    ensures FindBoundary([a, b, c]) == QuotedBoundary(c)
  {
    FindSkip(a, [b, c]);
    FindSkip(b, [c]);
    assert [a] + [b, c] == [a, b, c] && [b] + [c] == [b, c];
  }

  lemma UntrimmedPiece(piece: string)
    requires Trimmed(piece) && piece != "" && piece[0] != 'b'
    ensures QuotedBoundary(piece) == None
  {
  }

  lemma TypeNoBoundary()
    ensures QuotedBoundary(TYPE_PIECE) == None
  {
    assert TYPE_PIECE[0] == 'C' && TYPE_PIECE[|TYPE_PIECE| - 1] == 'd';
    UntrimmedPiece(TYPE_PIECE);
  }

  lemma ProtocolNoBoundary()
    ensures QuotedBoundary(PROTOCOL_PIECE) == None
  {
    var protocol := "protocol=\"application/pgp-encrypted\"";
    TrimPadded(" ", protocol);
    OtherPiece(PROTOCOL_PIECE, protocol);
  }

  /** The boundary written in the new Content-Type line is the one a reader extracts from it. */
  lemma BoundaryReads(b: string)
    requires forall c | c in b :: BoundaryChar(c)
    ensures BoundaryParameter(TypeLine(b)) == Some(b)
  {
    TypePieces(b);
    TypeNoBoundary();
    ProtocolNoBoundary();
    BoundaryPieceReads(b);
    FindThird(TYPE_PIECE, PROTOCOL_PIECE, BoundaryPiece(b));
  }

  // ----- reading the parts ---------------------------------------------------

  lemma FirstAt(before: seq<string>, line: string, after: seq<string>, d: string)
    requires d <= line && forall l | l in before :: !(d <= l)
    ensures FirstDelimiter(before + [line] + after, d) == |before|
  {
    var ls := before + [line] + after;
    assert ls[|before|] == line;
    forall j | 0 <= j < |before| ensures !(d <= ls[j]) {
      assert ls[j] == before[j];
      assert before[j] in before;
    }
  }

  lemma {:induction false} JoinGrows(a: seq<string>, c: seq<string>)
    requires c != [] && c[0] != ""
    ensures |Join(a, CRLF)| < |Join(a + c, CRLF)|
  {
    if a == [] {
      assert a + c == c;
    } else {
      assert (a + c)[1..] == a[1..] + c;
      if |a| > 1 {
        JoinGrows(a[1..], c);
      }
    }
  }

  lemma BlockPart(lines: seq<string>)
    ensures ReadPart([BLOCK_TYPE, ""] + lines) == Some(Part([BLOCK_TYPE], Join(lines, CRLF)))
  {
    SplitHeaderAt([BLOCK_TYPE], lines);
    assert [BLOCK_TYPE] + [""] + lines == [BLOCK_TYPE, ""] + lines;
  }

  lemma PrefixStart(d: string, line: string)
    requires d != ""
    ensures d <= line ==> line != "" && line[0] == d[0]
  {
  }

  lemma LastPartWhole(blk: seq<string>, d: string)
    requires |d| >= 2 && d[0] == '-'
    requires forall l | l in blk :: !(d <= l)
    ensures ReadParts([BLOCK_TYPE, ""] + blk + [d + "--"] + [""], d) == Some([Part([BLOCK_TYPE], Join(blk, CRLF))])
  {
    var before := [BLOCK_TYPE, ""] + blk;
    PrefixStart(d, BLOCK_TYPE);
    FirstAt(before, d + "--", [""], d);
    assert (before + [d + "--"] + [""])[..|before|] == before;
    BlockPart(blk);
  }

  lemma LastPartCut(blk: seq<string>, j: nat, after: seq<string>, d: string)
    requires |d| >= 2 && d[0] == '-' && j < |blk| && d <= blk[j]
    requires forall l | l in blk[..j] :: !(d <= l)
    ensures ReadParts([BLOCK_TYPE, ""] + blk[..j] + [blk[j]] + after, d) != Some([Part([BLOCK_TYPE], Join(blk, CRLF))])
  {
    var before := [BLOCK_TYPE, ""] + blk[..j];
    PrefixStart(d, BLOCK_TYPE);
    FirstAt(before, blk[j], after, d);
    assert (before + [blk[j]] + after)[..|before|] == before;
    BlockPart(blk[..j]);
    JoinGrows(blk[..j], blk[j..]);
    assert blk[..j] + blk[j..] == blk;
  }

  lemma Regroup<T>(a: seq<T>, b: seq<T>, j: nat, c: seq<T>, e: seq<T>)
    requires j < |b|
    ensures a + b + c + e == a + b[..j] + [b[j]] + (b[j + 1..] + c + e)
  {
  }

  /** The lines of the second part and of the closing delimiter. */
  function LastLines(blk: seq<string>, d: string): seq<string> {
    [BLOCK_TYPE, ""] + blk + [d + "--"] + [""]
  }

  /** The last part is the whole block exactly when no line of the block starts with the delimiter. */
  lemma LastPart(blk: seq<string>, d: string)
    requires |d| >= 2 && d[0] == '-'
    ensures ReadParts(LastLines(blk, d), d) == Some([Part([BLOCK_TYPE], Join(blk, CRLF))])
            <==> forall l | l in blk :: !(d <= l)
  {
    var j := FirstDelimiter(blk, d);
    if j < 0 {
      LastPartWhole(blk, d);
    } else {
      LastPartCut(blk, j, blk[j + 1..] + [d + "--"] + [""], d);
      Regroup([BLOCK_TYPE, ""], blk, j, [d + "--"], [""]);
      assert blk[j] in blk;
    }
  }

  lemma ReadPartsCons(before: seq<string>, line: string, after: seq<string>, d: string, p: Part)
    requires d <= line && !(d + "--" <= line) && forall l | l in before :: !(d <= l)
    requires ReadPart(before) == Some(p)
    ensures ReadParts(before + [line] + after, d) == Prepend(p, ReadParts(after, d))
  {
    FirstAt(before, line, after, d);
    var ls := before + [line] + after;
    assert ls[..|before|] == before && ls[|before| + 1..] == after;
  }

  const VERSION_PART := Part([VERSION_TYPE], "Version: 1" + CRLF)

  lemma VersionPart()
    ensures ReadPart([VERSION_TYPE, "", "Version: 1", ""]) == Some(VERSION_PART)
  {
    SplitHeaderAt([VERSION_TYPE], ["Version: 1", ""]);
    assert [VERSION_TYPE] + [""] + ["Version: 1", ""] == [VERSION_TYPE, "", "Version: 1", ""];
    assert ["Version: 1", ""][1..] == [""];
    assert Join([""], CRLF) == "";
    assert "Version: 1" + CRLF + "" == "Version: 1" + CRLF;
  }

  lemma FirstLineDelimits(rest: seq<string>, b: string)
    ensures ReadMultipart(["--" + b] + rest, b) == ReadParts(rest, "--" + b)
  {
  }

  const VERSION_LINES := [VERSION_TYPE, "", "Version: 1", ""]

  /** The body lines of the rewrapped message. */
  function BodyLines(b: string, blk: seq<string>): seq<string> {
    ["--" + b] + (VERSION_LINES + ["--" + b] + LastLines(blk, "--" + b))
  }

  lemma VersionNoDelimiter(b: string)
    ensures forall l | l in VERSION_LINES :: !("--" + b <= l)
  {
    forall l | l in VERSION_LINES ensures !("--" + b <= l) {
      PrefixStart("--" + b, l);
    }
  }

  lemma PartsRead(b: string, blk: seq<string>)
    ensures ReadMultipart(BodyLines(b, blk), b) == Some([VERSION_PART, Part([BLOCK_TYPE], Join(blk, CRLF))])
            <==> forall l | l in blk :: !("--" + b <= l)
  {
    var d := "--" + b;
    var last := LastLines(blk, d);
    FirstLineDelimits(VERSION_LINES + [d] + last, b);
    VersionNoDelimiter(b);
    VersionPart();
    ReadPartsCons(VERSION_LINES, d, last, d, VERSION_PART);
    LastPart(blk, d);
    OneMore(ReadParts(last, d), Part([BLOCK_TYPE], Join(blk, CRLF)));
  }

  function Prepend(p: Part, ps: Option<seq<Part>>): Option<seq<Part>> {
    match ps case None => None case Some(qs) => Some([p] + qs)
  }

  lemma OneMore(ps: Option<seq<Part>>, q: Part)
    ensures Prepend(VERSION_PART, ps) == Some([VERSION_PART, q]) <==> ps == Some([q])
  {
    assert [VERSION_PART] + [q] == [VERSION_PART, q];
    if Prepend(VERSION_PART, ps) == Some([VERSION_PART, q]) {
      assert ps.value == ([VERSION_PART] + ps.value)[1..];
      assert [VERSION_PART, q][1..] == [q];
    }
  }

  // ----- the theorem ---------------------------------------------------------

  /** What the rewrapped message should read as: the other fields in their order, one new Content-Type,
      the version part, and the block with CRLF line endings. */
  function Expected(lines: seq<string>, b: string, block: string): Multipart {
    Multipart(KeepFields(Fields(lines)) + [[TypeLine(b)]], [VERSION_PART, Part([BLOCK_TYPE], Crlf(block))])
  }

  lemma {:induction false} KeepSubset(lines: seq<string>)
    ensures forall l | l in Keep(lines) :: l in lines
  {
    if lines != [] {
      KeepSubset(lines[1..]);
    }
  }

  lemma TypeLinePlain(b: string)
    requires forall c | c in b :: BoundaryChar(c)
    ensures !Contains(TypeLine(b), CRLF)
  {
    assert '\n' !in TYPE_PIECE && '\n' !in PROTOCOL_PIECE && '\n' !in BoundaryPiece(b);
    PlainLine(TypeLine(b));
  }

  lemma FrameBreaks(b: string)
    requires forall c | c in b :: BoundaryChar(c)
    ensures forall l | l in Frame(b) :: !Contains(l, CRLF)
  {
    TypeLinePlain(b);
    PlainLine("");
    PlainLine("--" + b);
    PlainLine(VERSION_TYPE);
    PlainLine("Version: 1");
    PlainLine(BLOCK_TYPE);
  }

  /** The rewrapped message, line by line. */
  lemma RenderedLines(lines: seq<string>, b: string, block: string)
    requires forall l | l in lines :: !Contains(l, CRLF)
    requires forall c | c in b :: BoundaryChar(c)
    ensures Split(Render(lines, b, block), CRLF) ==
            Keep(lines) + [TypeLine(b)] + [""] + BodyLines(b, Split(block, LF))
  {
    KeepSubset(lines);
    FrameBreaks(b);
    RenderGroups(lines, b, block);
    TwoBlocks(Keep(lines), Frame(b), Tail(b, block));
    CloseLines(b, block);
    FrameAndBody(Keep(lines), b, Split(block, LF));
  }

  /** The block and the closing delimiter. */
  function Tail(b: string, block: string): string {
    Crlf(block) + CRLF + ("--" + b + "--" + CRLF + "")
  }

  lemma CloseLines(b: string, block: string)
    requires forall c | c in b :: BoundaryChar(c)
    ensures Split(Tail(b, block), CRLF) == Split(block, LF) + (["--" + b + "--"] + [""])
  {
    assert '\n' !in "--" + b + "--";
    TailLines(block, "--" + b + "--");
  }

  lemma TwoBlocks(a: seq<string>, f: seq<string>, tail: string)
    requires forall l | l in a :: !Contains(l, CRLF)
    requires forall l | l in f :: !Contains(l, CRLF)
    ensures Split(Unlines(a) + (Unlines(f) + tail), CRLF) == a + (f + Split(tail, CRLF))
  {
    LinesOf(a, Unlines(f) + tail);
    LinesOf(f, tail);
  }

  lemma RenderGroups(lines: seq<string>, b: string, block: string)
    ensures Render(lines, b, block) ==
            Unlines(Keep(lines)) + (Unlines(Frame(b)) + Tail(b, block))
  {
  }

  lemma TailLines(block: string, close: string)
    requires '\n' !in close
    ensures Split(Crlf(block) + CRLF + (close + CRLF + ""), CRLF) == Split(block, LF) + ([close] + [""])
  {
    SplitCrlf(block);
    SplitConcat(Crlf(block), CRLF, close + CRLF + "");
    SplitConcat(close, CRLF, "");
    NoLfNoCrlf(close);
    NoLfNoCrlf("");
  }

  lemma FrameAndBody(kept: seq<string>, b: string, blk: seq<string>)
    ensures kept + (Frame(b) + (blk + (["--" + b + "--"] + [""]))) == kept + [TypeLine(b)] + [""] + BodyLines(b, blk)
  {
  }

  /** Reading the rendered message: the header is the kept lines and the new type line, unless the original starts
      with an empty line. */
  lemma RenderedHeader(lines: seq<string>, b: string, block: string)
    requires lines != [] && forall l | l in lines :: !Contains(l, CRLF)
    requires forall k | 1 <= k < |lines| :: lines[k] != ""
    requires forall c | c in b :: BoundaryChar(c)
    ensures lines[0] != "" ==>
            SplitHeader(Split(Render(lines, b, block), CRLF)) ==
            Some((Keep(lines) + [TypeLine(b)], BodyLines(b, Split(block, LF))))
    ensures lines[0] == "" ==> ReadMessage(Render(lines, b, block)) == None
  {
    RenderedLines(lines, b, block);
    KeepSubset(lines);
    var body := BodyLines(b, Split(block, LF));
    if lines[0] != "" {
      SplitHeaderAt(Keep(lines) + [TypeLine(b)], body);
    } else {
      EmptyLineKept(lines);
      assert (Keep(lines) + [TypeLine(b)] + [""] + body)[0] == "";
    }
  }

  lemma EmptyLineKept(lines: seq<string>)
    requires lines != [] && lines[0] == ""
    ensures Keep(lines) != [] && Keep(lines)[0] == ""
  {
  }

  /** Reading a rewrapped message gives the expected multipart exactly when its first line is not empty, no dropped
      field is folded over several lines, and no line of the block starts with the boundary delimiter. */
  lemma RenderReadsBack(lines: seq<string>, b: string, block: string)
    requires lines != [] && forall l | l in lines :: !Contains(l, CRLF)
    requires forall k | 1 <= k < |lines| :: lines[k] != ""
    requires forall c | c in b :: BoundaryChar(c)
    ensures ReadMessage(Render(lines, b, block)) == Some(Expected(lines, b, block)) <==>
            lines[0] != "" && DroppedUnfolded(Fields(lines)) && forall l | l in Split(block, LF) :: !("--" + b <= l)
  {
    RenderedHeader(lines, b, block);
    if lines[0] != "" {
      SplitCrlf(block);
      SplitJoin(Crlf(block), CRLF);
      PartsRead(b, Split(block, LF));
      if DroppedUnfolded(Fields(lines)) {
        KeptHeader(lines, b);
      } else {
        TypeKey(b);
        MixedHeader(lines, TypeLine(b));
      }
    }
  }

  /** The header of the rewrapped message has one Content-Type, which names the boundary. */
  lemma KeptHeader(lines: seq<string>, b: string)
    requires DroppedUnfolded(Fields(lines)) && forall c | c in b :: BoundaryChar(c)
    ensures var fields := Fields(Keep(lines) + [TypeLine(b)]);
            fields == KeepFields(Fields(lines)) + [[TypeLine(b)]] &&
            Named(fields, "content-type") == [[TypeLine(b)]] && BoundaryParameter(TypeLine(b)) == Some(b)
  {
    var t := TypeLine(b);
    FieldsSnoc(Keep(lines), t);
    KeepIsFieldwise(lines);
    NoTypeKept(Fields(lines));
    NamedConcat(KeepFields(Fields(lines)), [[t]], "content-type");
    TypeKey(b);
    assert [[t]][1..] == [];
    BoundaryReads(b);
  }

  lemma MixedHeader(lines: seq<string>, line: string)
    requires !DroppedUnfolded(Fields(lines)) && !Continuation(line)
    ensures Fields(Keep(lines) + [line]) != KeepFields(Fields(lines)) + [[line]]
  {
    FieldsSnoc(Keep(lines), line);
    KeptFields(lines);
    OtherFields(Fields(Keep(lines)), KeepFields(Fields(lines)), [line]);
  }

  lemma OtherFields(a: seq<Field>, c: seq<Field>, f: Field)
    requires a != c
    ensures a + [f] != c + [f]
  {
    assert a == (a + [f])[..|a + [f]| - 1];
    assert c == (c + [f])[..|c + [f]| - 1];
  }

  /** RFC 3156 wrapping is invertible: for every message that pgpMIMEWrapInline wraps, a multipart reader gets back the
      other header fields, exactly one Content-Type, the Version part and the block with CRLF line endings, if and only
      if the message does not start with a line break, its Content-Type and Content-Transfer-Encoding fields are not
      folded, and no line of the block starts with the delimiter. */
  lemma WrapReadsBack(raw: string, sha1: string -> Digest)
    requires Rewrap(raw, sha1).Wrapped?
    ensures var lines, block := HeaderLines(raw), Block(Body(raw));
            var b := Boundary(sha1, block);
            ReadMessage(Rewrap(raw, sha1).message) == Some(Expected(lines, b, block)) <==>
            !(CRLF <= raw) && DroppedUnfolded(Fields(lines)) && forall l | l in Split(block, LF) :: !("--" + b <= l)
  {
    HeaderLinesShape(raw);
    BoundaryChars(sha1, Block(Body(raw)));
    RenderReadsBack(HeaderLines(raw), Boundary(sha1, Block(Body(raw))), Block(Body(raw)));
  }

  predicate EndsWith(s: string, p: string) {
    |p| <= |s| && s[|s| - |p|..] == p
  }

  /** The block that is wrapped runs from a begin mark to an end mark exactly when the first begin mark does not come
      behind the first end mark. (Behind it but overlapping or touching it, the block is a few dashes or empty;
      further behind, Panic.) */
  lemma BlockShape(body: string)
    requires 0 <= Index(body, BEGIN_MARK) <= Index(body, END_MARK) + |END_MARK| && Contains(body, END_MARK)
    ensures BEGIN_MARK <= Block(body) && EndsWith(Block(body), END_MARK) <==>
            Index(body, BEGIN_MARK) <= Index(body, END_MARK)
  {
    assert BEGIN_MARK[5] == 'B' && END_MARK[5] == 'E' && END_MARK[4] == '-';
    MarksBlock(body, BEGIN_MARK, END_MARK, Index(body, BEGIN_MARK), Index(body, END_MARK));
  }

  lemma MarksBlock(body: string, b: string, e: string, start: nat, end: nat)
    requires At(body, b, start) && At(body, e, end) && start <= end + |e| && 5 < |e| < |b| <= |e| + 2
    requires b[5] == 'B' && e[5] != 'B' && e[4] != 'B'
    ensures var block := body[start..end + |e|];
            b <= block && EndsWith(block, e) <==> start <= end
  {
    var block := body[start..end + |e|];
    if start <= end {
      AtChar(body, b, start, 5);
      if end <= start + 1 {
        AtChar(body, e, end, start + 5 - end);
      }
      assert block[..|b|] == body[start..start + |b|];
      assert block[end - start..] == body[end..end + |e|];
    }
  }
}
