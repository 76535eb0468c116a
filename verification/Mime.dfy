/** A reference reader for RFC 5322 headers (section 2.2) and RFC 2046 multiparts
    (section 5.1.1), on messages cut into lines at CRLF. */
module Mime {
  import opened Text

  /** The field name of a header line, in lower case. */
  function LineKey(line: string): string {
    Lower(Cut(line, ":").0)
  }

  /** A line that continues the field above it (RFC 5322, section 2.2.3). */
  predicate Continuation(line: string) {
    line != "" && (line[0] == ' ' || line[0] == '\t')
  }

  predicate StartsPlain(lines: seq<string>) {
    lines != [] ==> !Continuation(lines[0])
  }

  function Run(lines: seq<string>): (n: nat)
    ensures n <= |lines|
    ensures forall i | 0 <= i < n :: Continuation(lines[i])
    ensures StartsPlain(lines[n..])
  {
    if lines == [] || !Continuation(lines[0]) then 0 else 1 + Run(lines[1..])
  }

  type Field = f: seq<string> | f != [] witness [""]

  /** Header lines grouped into fields, each with its continuation lines. */
  function Fields(lines: seq<string>): seq<Field>
    decreases |lines|
  {
    if lines == [] then []
    else
      var n := 1 + Run(lines[1..]);
      [lines[..n]] + Fields(lines[n..])
  }

  predicate Folding(f: Field) {
    forall i | 1 <= i < |f| :: Continuation(f[i])
  }

  lemma RunIs(lines: seq<string>, n: nat)
    requires n <= |lines|
    requires forall i | 0 <= i < n :: Continuation(lines[i])
    requires StartsPlain(lines[n..])
    ensures Run(lines) == n
  {
  }

  lemma FieldsCons(f: Field, rest: seq<string>)
    requires Folding(f) && StartsPlain(rest)
    ensures Fields(f + rest) == [f] + Fields(rest)
  {
    var ls := f + rest;
    assert ls[1..] == f[1..] + rest;
    assert ls[1..][|f| - 1..] == rest;
    RunIs(ls[1..], |f| - 1);
    assert ls[..|f|] == f && ls[|f|..] == rest;
  }

  /** The first field of some lines, and the lines after it. */
  lemma FirstField(lines: seq<string>) returns (f: Field, rest: seq<string>)
    requires lines != []
    ensures lines == f + rest && f[0] == lines[0] && Folding(f) && StartsPlain(rest)
    ensures Fields(lines) == [f] + Fields(rest)
  {
    var n := Run(lines[1..]);
    f, rest := lines[..1 + n], lines[1 + n..];
    assert lines[1..][n..] == rest;
    forall i | 1 <= i < |f| ensures Continuation(f[i]) {
      assert f[i] == lines[1..][i - 1];
    }
  }

  lemma {:induction false} FieldsSnoc(lines: seq<string>, last: string)
    requires !Continuation(last)
    ensures Fields(lines + [last]) == Fields(lines) + [[last]]
    decreases |lines|
  {
    if lines == [] {
      FieldsCons([last], []);
      assert lines + [last] == [last] + [] == [last];
    } else {
      var f, rest := FirstField(lines);
      FieldsSnoc(rest, last);
      FieldsSnocStep(lines, f, rest, last, Fields(rest), Fields(rest + [last]));
    }
  }

  lemma FieldsSnocStep(lines: seq<string>, f: Field, rest: seq<string>, last: string, fs: seq<Field>, gs: seq<Field>)
    requires lines == f + rest && Folding(f) && StartsPlain(rest) && !Continuation(last)
    requires Fields(lines) == [f] + fs && Fields(rest + [last]) == gs && gs == fs + [[last]]
    ensures Fields(lines + [last]) == Fields(lines) + [[last]]
  {
    var more := rest + [last];
    FieldsCons(f, more);
    Associates(f, rest, [last]);
    Associates([f], fs, [[last]]);
  }

  /** A header line is named by what stands before its first colon. */
  lemma NamedLine(name: string, rest: string)
    requires ':' !in name
    ensures LineKey(name + ":" + rest) == Lower(name)
  {
    ContainsChar(name, ':');
    CutAt(name, ":", rest);
  }

  // ----- messages ------------------------------------------------------------

  /** Header lines and body lines: the header ends at the first empty line. */
  function SplitHeader(lines: seq<string>): Option<(seq<string>, seq<string>)> {
    if lines == [] then None
    else if lines[0] == "" then Some(([], lines[1..]))
    else match SplitHeader(lines[1..])
      case None => None
      case Some(hb) => Some(([lines[0]] + hb.0, hb.1))
  }

  lemma {:induction false} SplitHeaderAt(header: seq<string>, body: seq<string>)
    requires "" !in header
    ensures SplitHeader(header + [""] + body) == Some((header, body))
  {
    var ls := header + [""] + body;
    if header == [] {
      assert ls[1..] == body;
    } else {
      assert ls[1..] == header[1..] + [""] + body;
      assert ls[0] == header[0] && header[0] in header;
      SplitHeaderAt(header[1..], body);
      assert [header[0]] + header[1..] == header;
    }
  }

  // ----- multiparts ----------------------------------------------------------

  /** One body part: its header lines and its body. */
  datatype Part = Part(header: seq<string>, body: string)

  /** Index of the first line that starts with d, or -1. A prefix match is what RFC 2046 asks for. */
  function FirstDelimiter(lines: seq<string>, d: string): (r: int)
    ensures r >= 0 ==> r < |lines| && d <= lines[r] && forall j | 0 <= j < r :: !(d <= lines[j])
    ensures r < 0 ==> r == -1 && forall j | 0 <= j < |lines| :: !(d <= lines[j])
  {
    if lines == [] then -1
    else if d <= lines[0] then 0
    else var r := FirstDelimiter(lines[1..], d); if r < 0 then -1 else r + 1
  }

  function ReadPart(lines: seq<string>): Option<Part> {
    match SplitHeader(lines)
    case None => None
    case Some(hb) => Some(Part(hb.0, Join(hb.1, CRLF)))
  }

  /** The parts that follow a delimiter line, up to the closing delimiter. */
  function ReadParts(lines: seq<string>, d: string): Option<seq<Part>>
    decreases |lines|
  {
    var i := FirstDelimiter(lines, d);
    if i < 0 then None
    else match ReadPart(lines[..i])
      case None => None
      case Some(p) =>
        if d + "--" <= lines[i] then Some([p])
        else match ReadParts(lines[i + 1..], d)
          case None => None
          case Some(ps) => Some([p] + ps)
  }

  /** The body parts of a multipart body, the preamble dropped. */
  function ReadMultipart(lines: seq<string>, boundary: string): Option<seq<Part>> {
    var d := "--" + boundary;
    var i := FirstDelimiter(lines, d);
    if i < 0 || d + "--" <= lines[i] then None else ReadParts(lines[i + 1..], d)
  }

  /** The quoted boundary parameter of a Content-Type line. */
  function BoundaryParameter(line: string): Option<string> {
    FindBoundary(Split(line, ";"))
  }

  const BOUNDARY_ATTRIBUTE := "boundary="

  /** The text between quotes after boundary=. */
  function QuotedBoundary(piece: string): Option<string> {
    var p := Trim(piece);
    var n := |BOUNDARY_ATTRIBUTE|;
    if |p| >= n + 2 && p[..n] == BOUNDARY_ATTRIBUTE && p[n] == '\"' && p[|p| - 1] == '\"' then Some(p[n + 1..|p| - 1])
    else None
  }

  function FindBoundary(pieces: seq<string>): Option<string> {
    if pieces == [] then None
    else match QuotedBoundary(pieces[0])
      case Some(b) => Some(b)
      case None => FindBoundary(pieces[1..])
  }

  /** The fields with a given name, in order. */
  function Named(fields: seq<Field>, key: string): seq<Field> {
    if fields == [] then []
    else (if LineKey(fields[0][0]) == key then [fields[0]] else []) + Named(fields[1..], key)
  }

  lemma {:induction false} NamedConcat(a: seq<Field>, b: seq<Field>, key: string)
    ensures Named(a + b, key) == Named(a, key) + Named(b, key)
  {
    if a == [] {
      assert a + b == b;
    } else {
      assert (a + b)[1..] == a[1..] + b;
      NamedConcat(a[1..], b, key);
    }
  }

  /** A whole multipart message. */
  datatype Multipart = Multipart(fields: seq<Field>, parts: seq<Part>)

  /** Read a multipart message: exactly one Content-Type field, whose boundary cuts the body. */
  function ReadMessage(text: string): Option<Multipart> {
    match SplitHeader(Split(text, CRLF))
    case None => None
    case Some(hb) =>
      var fields := Fields(hb.0);
      var types := Named(fields, "content-type");
      if |types| != 1 then None
      else match BoundaryParameter(types[0][0])
        case None => None
        case Some(boundary) =>
          match ReadMultipart(hb.1, boundary)
          case None => None
          case Some(parts) => Some(Multipart(fields, parts))
  }
}
