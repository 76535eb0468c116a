/** autocrypt.go: the Autocrypt header ("The Autocrypt Header", Autocrypt Level 1), built, parsed and decoded. */
module Autocrypt {
  import opened Text
  import opened BitStrings
  import Base64

  const PREFER := " prefer-encrypt=mutual"

  /** The header value the injectors write, for some text of the key data. */
  function HeaderValue(addr: string, keydata: string): string {
    "addr=" + addr + ";" + (PREFER + ";" + (" keydata=" + keydata))
  }

  datatype Parsed = Parsed(addr: string, keydata: string)

  /** One attribute of the header. */
  function Attribute(part: string, p: Parsed): Parsed {
    match Cut(Trim(part), "=")
    case (_, None) => p
    case (k, Some(v)) =>
      if Trim(k) == "addr" then p.(addr := Trim(v))
      else if Trim(k) == "keydata" then p.(keydata := Trim(v))
      else p
  }

  function Attributes(parts: seq<string>, p: Parsed): Parsed {
    if parts == [] then p else Attributes(parts[1..], Attribute(parts[0], p))
  }

  function Parse(header: string): Parsed {
    Attributes(Split(header, ";"), Parsed("", ""))
  }

  lemma AttributesStep(parts: seq<string>, i: nat, p: Parsed)
    requires i < |parts|
    ensures Attributes(parts[i..], p) == Attributes(parts[i + 1..], Attribute(parts[i], p))
  {
    assert parts[i..][0] == parts[i] && parts[i..][1..] == parts[i + 1..];
  }

  /** parseAutocryptHeader: a loop over the attributes, later ones winning. */
  method ParseHeader(header: string) returns (addr: string, keydata: string)
    ensures Parse(header) == Parsed(addr, keydata)
  {
    addr, keydata := ParseParts(Split(header, ";"));
  }

  method ParseParts(parts: seq<string>) returns (addr: string, keydata: string)
    ensures Attributes(parts, Parsed("", "")) == Parsed(addr, keydata)
  {
    addr, keydata := "", "";
    ghost var result := Attributes(parts, Parsed("", ""));
    assert parts[0..] == parts;
    for i := 0 to |parts|
      invariant Attributes(parts[i..], Parsed(addr, keydata)) == result
    {
      AttributesStep(parts, i, Parsed(addr, keydata));
      var kv := Cut(Trim(parts[i]), "=");
      if kv.1.None? {
        continue;
      }
      var k, v := Trim(kv.0), Trim(kv.1.value);
      if k == "addr" {
        addr := v;
      } else if k == "keydata" {
        keydata := v;
      }
    }
  }

  /** strings.Map in storePeerKey: folding white space is dropped. */
  function Strip(s: string): string {
    if s == "" then "" else (if Folding(s[0]) then "" else [s[0]]) + Strip(s[1..])
  }

  predicate Folding(c: char) {
    c == ' ' || c == '\t' || c == '\r' || c == '\n'
  }

  /** The key bytes storePeerKey decodes from the key data. */
  function PeerKey(keydata: string): Option<seq<byte>> {
    Base64.Decode(Strip(keydata), Base64.STD)
  }

  // ----- what parsing can return ---------------------------------------------

  lemma {:induction false} AttributesClean(parts: seq<string>, p: Parsed)
    requires forall i | 0 <= i < |parts| :: ';' !in parts[i]
    requires Trimmed(p.addr) && ';' !in p.addr
    ensures Trimmed(Attributes(parts, p).addr) && ';' !in Attributes(parts, p).addr
    decreases |parts|
  {
    if parts != [] {
      AttributeClean(parts[0], p);
      AttributesClean(parts[1..], Attribute(parts[0], p));
    }
  }

  lemma AttributeClean(part: string, p: Parsed)
    requires ';' !in part && Trimmed(p.addr) && ';' !in p.addr
    ensures Trimmed(Attribute(part, p).addr) && ';' !in Attribute(part, p).addr
  {
    hide IsSpace;
    TrimSubset(part);
    var kv := Cut(Trim(part), "=");
    if kv.1.Some? {
      TrimSubset(kv.1.value);
    }
  }

  lemma TrimSubset(s: string)
    ensures forall c | c in Trim(s) :: c in s
  {
    hide IsSpace;
  }

  lemma ParseClean(header: string)
    ensures Trimmed(Parse(header).addr) && ';' !in Parse(header).addr
  {
    var parts := Split(header, ";");
    SplitPieces(header, ";");
    forall i | 0 <= i < |parts| ensures ';' !in parts[i] {
      ContainsChar(parts[i], ';');
    }
    AttributesClean(parts, Parsed("", ""));
  }

  // ----- the round trip ------------------------------------------------------

  /** An attribute with a plain name reads as that name and its trimmed value. */
  lemma PlainAttribute(pad: string, name: string, value: string)
    requires |pad| <= 1 && forall c | c in pad :: IsSpace(c)
    requires name != "" && Trimmed(name) && '=' !in name
    ensures Cut(Trim(pad + (name + "=" + value)), "=") == (name, Some(TrimRight(value)))
  {
    TrimNamed(pad, name + "=", value);
    ContainsChar(name, '=');
    CutAt(name, "=", TrimRight(value));
  }

  lemma TrimNamed(pad: string, head: string, value: string)
    requires |pad| <= 1 && forall c | c in pad :: IsSpace(c)
    requires head != "" && Trimmed(head)
    ensures Trim(pad + (head + value)) == head + TrimRight(value)
  {
    hide IsSpace;
    var s := head + value;
    var t := pad + s;
    if pad == "" {
      assert t == s;
    } else {
      assert t[0] in pad && t[1..] == s;
    }
    assert TrimLeft(s) == s && TrimLeft(t) == s;
    TrimRightAfter(head, value);
  }

  lemma {:induction false} TrimRightAfter(head: string, value: string)
    requires head != "" && Trimmed(head)
    ensures TrimRight(head + value) == head + TrimRight(value)
    decreases |value|
  {
    hide IsSpace;
    var s := head + value;
    if value == "" {
      assert s == head;
    } else {
      assert s[|s| - 1] == value[|value| - 1];
      assert s[..|s| - 1] == head + value[..|value| - 1];
      TrimRightAfter(head, value[..|value| - 1]);
    }
  }

  lemma TrimOfTrimRight(value: string)
    requires Trimmed(value)
    ensures Trim(TrimRight(value)) == value
  {
    hide IsSpace;
    assert TrimRight(value) == value;
    TrimSelf(value);
  }

  /** The pieces of a header whose address and key data hold no semicolon. */
  lemma HeaderPieces(addr: string, keydata: string)
    requires ';' !in addr && ';' !in keydata
    ensures Split(HeaderValue(addr, keydata), ";") == ["addr=" + addr, PREFER, " keydata=" + keydata]
  {
    var pieces := ["addr=" + addr, PREFER, " keydata=" + keydata];
    assert ';' !in PREFER;
    forall p | p in pieces ensures !Contains(p, ";") {
      ContainsChar(p, ';');
    }
    JoinSplit(pieces, ";");
    JoinThree("addr=" + addr, PREFER, " keydata=" + keydata, ";");
  }

  lemma AddrAttribute(addr: string, p: Parsed)
    ensures Attribute("addr=" + addr, p) == p.(addr := Trim(TrimRight(addr)))
  {
    assert "addr=" + addr == "" + ("addr" + "=" + addr);
    PlainAttribute("", "addr", addr);
    KnownNames();
  }

  lemma KeydataAttribute(keydata: string, p: Parsed)
    ensures Attribute(" keydata=" + keydata, p) == p.(keydata := Trim(TrimRight(keydata)))
  {
    assert " keydata=" + keydata == " " + ("keydata" + "=" + keydata);
    PlainAttribute(" ", "keydata", keydata);
    KnownNames();
  }

  lemma PreferIgnored(p: Parsed)
    ensures Attribute(PREFER, p) == p
  {
    var name := "prefer-encrypt";
    assert PREFER == " " + (name + "=" + "mutual");
    assert name[0] == 'p' && name[|name| - 1] == 't';
    TrimSelf(name);
    OtherAttribute(" ", name, "mutual", p);
  }

  lemma OtherAttribute(pad: string, name: string, value: string, p: Parsed)
    requires |pad| <= 1 && (forall c | c in pad :: IsSpace(c)) && name != "" && Trimmed(name) && '=' !in name
    requires Trim(name) == name && name != "addr" && name != "keydata"
    ensures Attribute(pad + (name + "=" + value), p) == p
  {
    hide IsSpace, Trim;
    PlainAttribute(pad, name, value);
  }

  /** Parsing a header gives back the address it was built with exactly when that has no semicolon and no outer white
      space. */
  lemma AddressReadsBack(addr: string, keydata: string)
    requires ';' !in keydata
    ensures Parse(HeaderValue(addr, keydata)).addr == addr <==> Trimmed(addr) && ';' !in addr
  {
    ParseClean(HeaderValue(addr, keydata));
    if ';' !in addr && Trimmed(addr) {
      HeaderPieces(addr, keydata);
      var none := Parsed("", "");
      AttributesThree("addr=" + addr, PREFER, " keydata=" + keydata, none);
      AddrAttribute(addr, none);
      TrimOfTrimRight(addr);
      PreferIgnored(Parsed(addr, ""));
      KeydataAttribute(keydata, Parsed(addr, ""));
    }
  }

  /** The key data is the last attribute, so whatever the address holds, it is what parsing answers. */
  lemma KeydataReadsBack(addr: string, keydata: string)
    requires ';' !in keydata
    ensures Parse(HeaderValue(addr, keydata)).keydata == Trim(TrimRight(keydata))
  {
    var first, last := "addr=" + addr + ";" + PREFER, " keydata=" + keydata;
    assert HeaderValue(addr, keydata) == first + ";" + last;
    SplitConcat(first, ";", last);
    ContainsChar(last, ';');
    assert Split(last, ";") == [last];
    AttributesSnoc(Split(first, ";"), last, Parsed("", ""));
    KeydataAttribute(keydata, Attributes(Split(first, ";"), Parsed("", "")));
  }

  lemma {:induction false} AttributesSnoc(parts: seq<string>, last: string, p: Parsed)
    ensures Attributes(parts + [last], p) == Attribute(last, Attributes(parts, p))
  {
    hide Attribute;
    if parts == [] {
      assert parts + [last] == [last];
      assert [last][1..] == [];
    } else {
      assert (parts + [last])[1..] == parts[1..] + [last];
      AttributesSnoc(parts[1..], last, Attribute(parts[0], p));
    }
  }

  lemma KnownNames()
    ensures Trim("addr") == "addr" && Trim("keydata") == "keydata"
  {
    TrimSelf("addr");
    TrimSelf("keydata");
  }

  lemma AttributesThree(a: string, b: string, c: string, p: Parsed)
    ensures Attributes([a, b, c], p) == Attribute(c, Attribute(b, Attribute(a, p)))
  {
    hide Attribute;
    assert [a, b, c][1..] == [b, c] && [b, c][1..] == [c] && [c][1..] == [];
    assert Attributes([b, c], Attribute(a, p)) == Attributes([c], Attribute(b, Attribute(a, p)));
  }

  lemma {:induction false} StripKeeps(s: string, c: char)
    requires c in s && !Folding(c)
    ensures c in Strip(s)
  {
    if s[0] != c {
      StripKeeps(s[1..], c);
    }
  }

  lemma {:induction false} StripPlain(s: string)
    requires forall c | c in s :: !Folding(c)
    ensures Strip(s) == s
  {
    if s != "" {
      assert s[0] in s;
      StripPlain(s[1..]);
    }
  }

  /** Stripping does not see a trim that takes away folding characters only. */
  lemma {:induction false} StripTrimRight(s: string)
    requires forall c | c in s && IsSpace(c) :: Folding(c)
    ensures Strip(TrimRight(s)) == Strip(s)
    decreases |s|
  {
    if s != "" && IsSpace(s[|s| - 1]) {
      var t := s[..|s| - 1];
      StripTrimRight(t);
      assert s == t + [s[|s| - 1]];
      StripConcat(t, [s[|s| - 1]]);
      assert s[|s| - 1] in s;
      assert Strip([s[|s| - 1]]) == "" + Strip([s[|s| - 1]][1..]);
    }
  }

  lemma {:induction false} StripTrimLeft(s: string)
    requires forall c | c in s && IsSpace(c) :: Folding(c)
    ensures Strip(TrimLeft(s)) == Strip(s)
  {
    if s != "" && IsSpace(s[0]) {
      assert s[0] in s;
      StripTrimLeft(s[1..]);
    }
  }

  lemma {:induction false} StripConcat(a: string, b: string)
    ensures Strip(a + b) == Strip(a) + Strip(b)
  {
    if a == "" {
      assert a + b == b;
    } else {
      assert (a + b)[1..] == a[1..] + b;
      StripConcat(a[1..], b);
    }
  }

  lemma StripTrim(s: string)
    requires forall c | c in s && IsSpace(c) :: Folding(c)
    ensures Strip(Trim(s)) == Strip(s)
  {
    StripTrimLeft(s);
    StripTrimRight(TrimLeft(s));
  }

  /** The characters of a folded key: base64 text and folding white space, so no semicolon and no other space. */
  lemma FoldedChars(key: seq<byte>, folded: string)
    requires Strip(folded) == Base64.Encode(key, Base64.STD)
    ensures ';' !in folded && forall c | c in folded && IsSpace(c) :: Folding(c)
  {
    Base64.EncodedChars(key, Base64.STD);
    if ';' in folded {
      StripKeeps(folded, ';');
    }
    forall c | c in folded && IsSpace(c) ensures Folding(c) {
      if !Folding(c) {
        StripKeeps(folded, c);
      }
    }
  }

  /** Autocrypt key round trip: for any key and any address, however the key data is folded, parsing, stripping and
      decoding give the key bytes back, and the address itself exactly when it has no semicolon and no outer white
      space. */
  lemma RoundTrip(addr: string, key: seq<byte>, folded: string)
    requires Strip(folded) == Base64.Encode(key, Base64.STD)
    ensures var p := Parse(HeaderValue(addr, folded));
            (p.addr == addr <==> Trimmed(addr) && ';' !in addr) && PeerKey(p.keydata) == Some(key)
  {
    FoldedChars(key, folded);
    AddressReadsBack(addr, folded);
    KeydataReadsBack(addr, folded);
    StripTrimRight(folded);
    StripTrim(TrimRight(folded));
    Base64.RoundTrip(key, Base64.STD);
  }
}
