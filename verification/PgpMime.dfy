/** autocrypt.go: rewrapping an inline OpenPGP block as multipart/encrypted (RFC 3156, section 4). */
module PgpMime {
  import opened Text
  import opened BitStrings
  import opened Mime

  const BEGIN_MARK := "-----BEGIN PGP MESSAGE-----"
  const END_MARK := "-----END PGP MESSAGE-----"
  const VERSION_TYPE := "Content-Type: application/pgp-encrypted"
  const BLOCK_TYPE := "Content-Type: application/octet-stream"

  /** What the rewrapping does; Panic is Go's slice-bounds failure. */
  datatype Wrapping = Wrapped(message: string) | NoSeparator | NoBlock | Panic

  function HexDigit(n: nat): char
    requires n < 16
  {
    "0123456789abcdef"[n]
  }

  function Hex(bytes: seq<byte>): string {
    if bytes == [] then "" else [HexDigit(bytes[0] / 16), HexDigit(bytes[0] % 16)] + Hex(bytes[1..])
  }

  function Boundary(sha1: string -> Digest, block: string): string {
    "biset-pgp-" + Hex(sha1(block)[..6])
  }

  /** Header lines the rewrapping drops. */
  predicate Dropped(line: string) {
    LineKey(line) == "content-type" || LineKey(line) == "content-transfer-encoding"
  }

  function Keep(lines: seq<string>): seq<string> {
    if lines == [] then []
    else (if Dropped(lines[0]) then [] else [lines[0]]) + Keep(lines[1..])
  }

  function KeepFields(fields: seq<Field>): seq<Field> {
    if fields == [] then []
    else (if Dropped(fields[0][0]) then [] else [fields[0]]) + KeepFields(fields[1..])
  }

  /** Lines written out, each ended by CRLF. */
  function Unlines(lines: seq<string>): string {
    if lines == [] then "" else lines[0] + CRLF + Unlines(lines[1..])
  }

  /** bytes.ReplaceAll(s, "\n", "\r\n") */
  function Crlf(s: string): string {
    if s == "" then "" else (if s[0] == '\n' then CRLF else [s[0]]) + Crlf(s[1..])
  }

  const TYPE_PIECE := "Content-Type" + (":" + " multipart/encrypted")
  const PROTOCOL_PIECE := " " + "protocol=\"application/pgp-encrypted\""

  function BoundaryPiece(boundary: string): string {
    " " + BOUNDARY_ATTRIBUTE + "\"" + boundary + "\""
  }

  function TypeLine(boundary: string): string {
    TYPE_PIECE + ";" + (PROTOCOL_PIECE + ";" + BoundaryPiece(boundary))
  }

  /** Everything the rewrapping writes between the kept header lines and the block. */
  function Frame(boundary: string): seq<string> {
    [TypeLine(boundary), "", "--" + boundary, VERSION_TYPE, "", "Version: 1", "", "--" + boundary, BLOCK_TYPE, ""]
  }

  function Render(lines: seq<string>, boundary: string, block: string): string {
    Unlines(Keep(lines)) + Unlines(Frame(boundary)) + Crlf(block) + CRLF + "--" + boundary + "--" + CRLF
  }

  function HeaderLines(raw: string): seq<string>
    requires Contains(raw, BLANK_LINE)
  {
    Split(raw[..Index(raw, BLANK_LINE)], CRLF)
  }

  function Body(raw: string): string
    requires Contains(raw, BLANK_LINE)
  {
    raw[Index(raw, BLANK_LINE) + 4..]
  }

  /** The armoured block of a body: from the first begin mark to the first end mark. */
  function Block(body: string): string
    requires 0 <= Index(body, BEGIN_MARK) <= Index(body, END_MARK) + |END_MARK|
    requires Contains(body, END_MARK)
  {
    body[Index(body, BEGIN_MARK)..Index(body, END_MARK) + |END_MARK|]
  }

  function Rewrap(raw: string, sha1: string -> Digest): Wrapping {
    if !Contains(raw, BLANK_LINE) then NoSeparator
    else
      var body := Body(raw);
      var start, end := Index(body, BEGIN_MARK), Index(body, END_MARK);
      if start < 0 || end < 0 then NoBlock
      else if end + |END_MARK| < start then Panic
      else Wrapped(Render(HeaderLines(raw), Boundary(sha1, Block(body)), Block(body)))
  }

  lemma {:induction false} UnlinesConcat(a: seq<string>, b: seq<string>)
    ensures Unlines(a + b) == Unlines(a) + Unlines(b)
  {
    if a == [] {
      assert a + b == b;
    } else {
      assert (a + b)[1..] == a[1..] + b;
      UnlinesConcat(a[1..], b);
    }
  }

  lemma {:induction false} KeepConcat(a: seq<string>, b: seq<string>)
    ensures Keep(a + b) == Keep(a) + Keep(b)
  {
    if a == [] {
      assert a + b == b;
    } else {
      assert (a + b)[1..] == a[1..] + b;
      KeepConcat(a[1..], b);
    }
  }

  /** out.WriteString(line + "\r\n"), where out holds some text and the first k lines of a frame. */
  method WriteLine(out: string, ghost before: string, ghost frame: seq<string>, ghost k: nat, line: string) returns (r: string)
    requires k < |frame| && frame[k] == line
    requires out == before + Unlines(frame[..k])
    ensures r == before + Unlines(frame[..k + 1])
  {
    UnlinesSnoc(frame[..k], line);
    assert frame[..k + 1] == frame[..k] + [line];
    r := out + (line + CRLF);
  }

  /** The loop over the original header lines. */
  method WriteKept(lines: seq<string>) returns (out: string)
    ensures out == Unlines(Keep(lines))
  {
    out := "";
    for i := 0 to |lines|
      invariant out == Unlines(Keep(lines[..i]))
    {
      KeepSnoc(lines[..i], lines[i]);
      assert lines[..i + 1] == lines[..i] + [lines[i]];
      var k := LineKey(lines[i]);
      if k == "content-type" || k == "content-transfer-encoding" {
        assert Keep(lines[..i + 1]) == Keep(lines[..i]);
        continue;
      }
      assert Keep(lines[..i + 1]) == Keep(lines[..i]) + [lines[i]];
      UnlinesSnoc(Keep(lines[..i]), lines[i]);
      out := out + (lines[i] + CRLF);
    }
    assert lines[..|lines|] == lines;
  }

  /** The fixed lines, from the new Content-Type down to the blank line before the block. */
  method WriteFrame(kept: string, boundary: string) returns (out: string)
    ensures out == kept + Unlines(Frame(boundary))
  {
    var dash := "--" + boundary;
    out := kept;
    ghost var f := Frame(boundary);
    out := WriteLine(out, kept, f, 0, TypeLine(boundary));
    out := WriteLine(out, kept, f, 1, "");
    out := WriteLine(out, kept, f, 2, dash);
    out := WriteLine(out, kept, f, 3, VERSION_TYPE);
    out := WriteLine(out, kept, f, 4, "");
    out := WriteLine(out, kept, f, 5, "Version: 1");
    out := WriteLine(out, kept, f, 6, "");
    out := WriteLine(out, kept, f, 7, dash);
    out := WriteLine(out, kept, f, 8, BLOCK_TYPE);
    out := WriteLine(out, kept, f, 9, "");
    assert f[..10] == f;
  }

  /** pgpMIMEWrapInline, buffer write by buffer write. */
  method WrapInline(raw: string, sha1: string -> Digest) returns (r: Wrapping)
    ensures r == Rewrap(raw, sha1)
  {
    var headerEnd := Index(raw, BLANK_LINE);
    if headerEnd < 0 {
      return NoSeparator;
    }
    var origHeaders, body := raw[..headerEnd], raw[headerEnd + 4..];
    var start, end := Index(body, BEGIN_MARK), Index(body, END_MARK);
    if start < 0 || end < 0 {
      return NoBlock;
    }
    if end + |END_MARK| < start {
      return Panic;
    }
    var pgpBlock := body[start..end + |END_MARK|];
    var boundary := Boundary(sha1, pgpBlock);
    var out := WriteKept(Split(origHeaders, CRLF));
    out := WriteFrame(out, boundary);
    out := out + Crlf(pgpBlock);
    out := out + CRLF + "--" + boundary + "--" + CRLF;
    r := Wrapped(out);
  }

  lemma UnlinesSnoc(lines: seq<string>, line: string)
    ensures Unlines(lines + [line]) == Unlines(lines) + (line + CRLF)
  {
    UnlinesConcat(lines, [line]);
    assert Unlines([line]) == line + CRLF + "";
  }

  lemma KeepSnoc(lines: seq<string>, line: string)
    ensures Keep(lines + [line]) == Keep(lines) + (if Dropped(line) then [] else [line])
  {
    KeepConcat(lines, [line]);
  }
}
