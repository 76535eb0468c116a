/** Text as the Go standard library sees it: searching, splitting, joining and trimming.
    Message bytes are modelled as characters; case folding is the ASCII one. */
module Text {

  const LF := "\n"
  const CRLF := "\r\n"
  const BLANK_LINE := "\r\n\r\n"

  datatype Option<+T> = None | Some(value: T)

  // ----- searching -----------------------------------------------------------

  predicate At(s: string, p: string, i: int) {
    0 <= i && i + |p| <= |s| && s[i..i + |p|] == p
  }

  /** strings.Index / bytes.Index: the first place p occurs in s, or -1. */
  function Index(s: string, p: string): (r: int)
    ensures r >= 0 ==> At(s, p, r) && forall j | 0 <= j < r :: !At(s, p, j)
    ensures r < 0 ==> r == -1 && forall j :: !At(s, p, j)
  {
    IndexFrom(s, p, 0)
  }

  function IndexFrom(s: string, p: string, i: nat): (r: int)
    ensures r >= 0 ==> i <= r && At(s, p, r) && forall j | i <= j < r :: !At(s, p, j)
    ensures r < 0 ==> r == -1 && forall j | i <= j :: !At(s, p, j)
    decreases |s| - i
  {
    if i + |p| > |s| then -1
    else if At(s, p, i) then i
    else IndexFrom(s, p, i + 1)
  }

  predicate Contains(s: string, p: string) {
    Index(s, p) >= 0
  }

  /** The first occurrence of p is the only place Index can return. */
  lemma IndexIs(s: string, p: string, i: int)
    requires At(s, p, i)
    requires forall j | 0 <= j < i :: !At(s, p, j)
    ensures Index(s, p) == i
  {
  }

  lemma AtSuffix(a: string, s: string, p: string, i: int)
    requires i >= |a|
    ensures At(a + s, p, i) <==> At(s, p, i - |a|)
  {
  }

  lemma AtPrefix(a: string, s: string, p: string, i: int)
    requires 0 <= i && i + |p| <= |a|
    ensures At(a + s, p, i) <==> At(a, p, i)
  {
  }

  // ----- splitting -----------------------------------------------------------

  /** A separator whose first character does not come back: two occurrences never overlap. */
  predicate Separator(sep: string) {
    |sep| > 0 && forall k | 0 < k < |sep| :: sep[k] != sep[0]
  }

  lemma AtChar(s: string, p: string, i: int, k: int)
    requires At(s, p, i) && 0 <= k < |p|
    ensures s[i + k] == p[k]
  {
  }

  /** Nothing before the first occurrence contains another one. */
  lemma BeforeFirst(s: string, p: string)
    requires p != "" && Contains(s, p)
    ensures !Contains(s[..Index(s, p)], p)
  {
    var h := s[..Index(s, p)];
    if Contains(h, p) {
      assert h + s[|h|..] == s;
      AtPrefix(h, s[|h|..], p, Index(h, p));
    }
  }

  lemma SeparatorFound(a: string, sep: string, rest: string)
    requires Separator(sep)
    requires !Contains(a, sep)
    ensures Index(a + sep + rest, sep) == |a|
  {
    var s := a + sep + rest;
    assert s == a + (sep + rest);
    assert At(s, sep, |a|) by {
      assert s[|a|..|a| + |sep|] == sep;
    }
    forall j | 0 <= j < |a| ensures !At(s, sep, j) {
      if j + |sep| <= |a| {
        AtPrefix(a, sep + rest, sep, j);
      } else if At(s, sep, j) {
        assert s[|a|] == sep[0];
        AtChar(s, sep, j, |a| - j);
      }
    }
    IndexIs(s, sep, |a|);
  }

  /** strings.Split */
  function Split(s: string, sep: string): (r: seq<string>)
    requires |sep| > 0
    ensures |r| > 0
    decreases |s|
  {
    var i := Index(s, sep);
    if i < 0 then [s] else [s[..i]] + Split(s[i + |sep|..], sep)
  }

  function Join(parts: seq<string>, sep: string): string
  {
    if parts == [] then ""
    else if |parts| == 1 then parts[0]
    else parts[0] + sep + Join(parts[1..], sep)
  }

  /** The text before the first separator, and what follows it if there is one: strings.SplitN(s, sep, 2). */
  function Cut(s: string, sep: string): (r: (string, Option<string>))
    requires |sep| > 0
  {
    var i := Index(s, sep);
    if i < 0 then (s, None) else (s[..i], Some(s[i + |sep|..]))
  }

  lemma CutAt(a: string, sep: string, b: string)
    requires Separator(sep)
    requires !Contains(a, sep)
    ensures Cut(a + sep + b, sep) == (a, Some(b))
  {
    SeparatorFound(a, sep, b);
    assert (a + sep + b)[..|a|] == a;
    assert (a + sep + b)[|a| + |sep|..] == b;
  }

  lemma SplitAtFirst(h: string, sep: string, rest: string)
    requires Separator(sep) && !Contains(h, sep)
    ensures Split(h + sep + rest, sep) == [h] + Split(rest, sep)
  {
    var s := h + sep + rest;
    SeparatorFound(h, sep, rest);
    assert s[..|h|] == h && s[|h| + |sep|..] == rest;
  }

  lemma {:induction false} SplitConcat(a: string, sep: string, b: string)
    requires Separator(sep)
    ensures Split(a + sep + b, sep) == Split(a, sep) + Split(b, sep)
    decreases |a|
  {
    var i := Index(a, sep);
    if i < 0 {
      SplitAtFirst(a, sep, b);
    } else {
      var h, t := a[..i], a[i + |sep|..];
      BeforeFirst(a, sep);
      assert a == h + sep + t;
      SplitConcat(t, sep, b);
      var more := t + sep + b;
      assert a + sep + b == h + sep + more;
      SplitAtFirst(h, sep, more);
      SplitAtFirst(h, sep, t);
      Associates([h], Split(t, sep), Split(b, sep));
    }
  }

  lemma Associates<T>(a: seq<T>, b: seq<T>, c: seq<T>)
    ensures (a + b) + c == a + (b + c)
  {
  }

  /** No piece of a split contains the separator. */
  lemma {:induction false} SplitPieces(s: string, sep: string)
    requires |sep| > 0
    ensures forall p | p in Split(s, sep) :: !Contains(p, sep)
    decreases |s|
  {
    if Contains(s, sep) {
      BeforeFirst(s, sep);
      SplitPieces(s[Index(s, sep) + |sep|..], sep);
    }
  }

  lemma JoinCons(a: string, parts: seq<string>, sep: string)
    requires parts != []
    ensures Join([a] + parts, sep) == a + sep + Join(parts, sep)
  {
  }

  /** Joining undoes splitting. */
  lemma {:induction false} SplitJoin(s: string, sep: string)
    requires |sep| > 0
    ensures Join(Split(s, sep), sep) == s
    decreases |s|
  {
    var i := Index(s, sep);
    if i >= 0 {
      var h, t := s[..i], s[i + |sep|..];
      SplitJoin(t, sep);
      JoinCons(h, Split(t, sep), sep);
      assert s[i..i + |sep|] == sep;
      assert s == h + sep + t;
    }
  }

  lemma {:induction false} JoinSplit(parts: seq<string>, sep: string)
    requires Separator(sep)
    requires parts != []
    requires forall p | p in parts :: !Contains(p, sep)
    ensures Split(Join(parts, sep), sep) == parts
  {
    assert parts[0] in parts;
    if |parts| == 1 {
      assert parts == [parts[0]];
    } else {
      JoinSplit(parts[1..], sep);
      JoinCons(parts[0], parts[1..], sep);
      assert parts == [parts[0]] + parts[1..];
      SplitAtFirst(parts[0], sep, Join(parts[1..], sep));
    }
  }

  lemma JoinThree(a: string, b: string, c: string, sep: string)
    ensures Join([a, b, c], sep) == a + sep + (b + sep + c)
  {
    assert [a, b, c][1..] == [b, c] && [b, c][1..] == [c];
    assert Join([b, c], sep) == b + sep + Join([c], sep);
  }

  /** A one-character separator occurs exactly where its character does. */
  lemma ContainsChar(s: string, c: char)
    ensures Contains(s, [c]) <==> c in s
  {
    if c in s {
      var i :| 0 <= i < |s| && s[i] == c;
      assert At(s, [c], i);
    }
    if Contains(s, [c]) {
      var i := Index(s, [c]);
      assert s[i..i + 1][0] == c;
    }
  }

  // ----- trimming and case ---------------------------------------------------

  /** unicode.IsSpace */
  predicate IsSpace(c: char) {
    || '\t' <= c <= '\r' || c == ' ' || c == '\U{85}' || c == '\U{A0}' || c == '\U{1680}'
    || '\U{2000}' <= c <= '\U{200A}' || c == '\U{2028}' || c == '\U{2029}' || c == '\U{202F}' || c == '\U{205F}'
    || c == '\U{3000}'
  }

  function TrimLeft(s: string): (r: string)
    ensures r == "" || !IsSpace(r[0])
    ensures |r| <= |s| && r == s[|s| - |r|..]
  {
    if s == "" || !IsSpace(s[0]) then s else TrimLeft(s[1..])
  }

  function TrimRight(s: string): (r: string)
    ensures r == "" || !IsSpace(r[|r| - 1])
    ensures |r| <= |s| && r == s[..|r|]
  {
    if s == "" || !IsSpace(s[|s| - 1]) then s else TrimRight(s[..|s| - 1])
  }

  /** strings.TrimSpace */
  function Trim(s: string): (r: string)
    ensures Trimmed(r)
  {
    TrimRight(TrimLeft(s))
  }

  predicate Trimmed(s: string) {
    s == "" || (!IsSpace(s[0]) && !IsSpace(s[|s| - 1]))
  }

  function LowerChar(c: char): char {
    if 'A' <= c <= 'Z' then c + 32 as char else c
  }

  /** strings.ToLower */
  function Lower(s: string): (r: string)
    ensures |r| == |s|
    ensures forall i | 0 <= i < |s| :: r[i] == LowerChar(s[i])
  {
    seq(|s|, i requires 0 <= i < |s| => LowerChar(s[i]))
  }

  /** strings.EqualFold */
  predicate EqualFold(a: string, b: string) {
    Lower(a) == Lower(b)
  }

  lemma TrimLeftOnce(c: char, s: string)
    requires IsSpace(c)
    ensures TrimLeft([c] + s) == TrimLeft(s)
  {
    hide IsSpace;
    assert ([c] + s)[1..] == s;
  }

  lemma TrimPadded(pad: string, s: string)
    requires |pad| <= 1 && forall c | c in pad :: IsSpace(c)
    requires Trimmed(s)
    ensures Trim(pad + s) == s
  {
    hide IsSpace;
    if pad == "" {
      assert pad + s == s;
    } else {
      assert pad == [pad[0]];
      TrimLeftOnce(pad[0], s);
    }
    assert TrimLeft(s) == s && TrimRight(s) == s;
  }

  lemma TrimSelf(s: string)
    requires Trimmed(s)
    ensures Trim(s) == s
  {
    hide IsSpace;
    assert "" + s == s;
    TrimPadded("", s);
  }
}
