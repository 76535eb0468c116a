/** Base64 as encoding/base64 reads and writes it (RFC 4648, sections 4 and 5), and the four-way token decoder
    of auth_env.go. */
module Base64 {
  import opened Text
  import opened BitStrings

  /** The alphabet and the padding rule: StdEncoding, RawStdEncoding, URLEncoding, RawURLEncoding. */
  datatype Variant = Variant(url: bool, padded: bool)

  const STD := Variant(false, true)
  const RAW_STD := Variant(false, false)
  const URL := Variant(true, true)
  const RAW_URL := Variant(true, false)

  type Sextet = n: nat | n < 64

  function Symbol(n: Sextet, url: bool): char {
    if n < 26 then 'A' + n as char
    else if n < 52 then 'a' + (n - 26) as char
    else if n < 62 then '0' + (n - 52) as char
    else if n == 62 then (if url then '-' else '+')
    else (if url then '_' else '/')
  }

  function Value(c: char, url: bool): Option<Sextet> {
    if 'A' <= c <= 'Z' then Some((c - 'A') as int)
    else if 'a' <= c <= 'z' then Some((c - 'a') as int + 26)
    else if '0' <= c <= '9' then Some((c - '0') as int + 52)
    else if c == (if url then '-' else '+') then Some(62)
    else if c == (if url then '_' else '/') then Some(63)
    else None
  }

  // ----- encoding ------------------------------------------------------------

  function Symbols(groups: seq<nat>, url: bool): (s: string)
    requires Fit(groups, 6)
    ensures |s| == |groups|
  {
    assert Pow2(6) == 64;
    seq(|groups|, i requires 0 <= i < |groups| => Symbol(groups[i], url))
  }

  function Equals(n: nat): string {
    seq(n, i => '=')
  }

  /** How many '=' a padded encoding puts after n symbols. */
  function PadCount(n: nat, v: Variant): nat {
    if v.padded then (4 - n % 4) % 4 else 0
  }

  /** EncodeToString: the bits of the bytes in groups of six, the last group padded with zero bits. */
  function Encode(bytes: seq<byte>, v: Variant): string {
    GroupsBound(BitString(bytes, 8), 6);
    var body := Symbols(Groups(BitString(bytes, 8), 6), v.url);
    body + Equals(PadCount(|body|, v))
  }

  // ----- decoding ------------------------------------------------------------

  function DropNewlines(s: string): string {
    if s == "" then ""
    else (if s[0] == '\r' || s[0] == '\n' then "" else [s[0]]) + DropNewlines(s[1..])
  }

  /** Symbols at the start of s, at most four. */
  function Lead(s: string, url: bool): (n: nat)
    ensures n <= |s| && n <= 4
    ensures forall i | 0 <= i < n :: Value(s[i], url).Some?
    ensures n < 4 && n < |s| ==> Value(s[n], url).None?
  {
    LeadFrom(s, url, 0)
  }

  function LeadFrom(s: string, url: bool, i: nat): (n: nat)
    requires i <= |s| && i <= 4
    requires forall k | 0 <= k < i :: Value(s[k], url).Some?
    ensures i <= n <= |s| && n <= 4
    ensures forall k | 0 <= k < n :: Value(s[k], url).Some?
    ensures n < 4 && n < |s| ==> Value(s[n], url).None?
    decreases 4 - i
  {
    if i == 4 || i == |s| || Value(s[i], url).None? then i else LeadFrom(s, url, i + 1)
  }

  /** The three bytes of four sextets. */
  function Quantum(a: Sextet, b: Sextet, c: Sextet, d: Sextet): (r: seq<byte>)
    ensures |r| == 3
  {
    var v := a * 0x40000 + b * 0x1000 + c * 0x40 + d;
    [v / 0x10000, v / 0x100 % 0x100, v % 0x100]
  }

  function Sextets(s: string, url: bool): (r: seq<Sextet>)
    requires forall i | 0 <= i < |s| :: Value(s[i], url).Some?
    ensures |r| == |s|
  {
    seq(|s|, i requires 0 <= i < |s| => Value(s[i], url).value)
  }

  function QuantumOf(x: seq<Sextet>): (r: seq<byte>)
    requires 2 <= |x| <= 4
    ensures |r| == |x| - 1
  {
    Quantum(x[0], x[1], if |x| > 2 then x[2] else 0, if |x| > 3 then x[3] else 0)[..|x| - 1]
  }

  /** decodeQuantum, quantum after quantum: four symbols make three bytes; the last quantum may have two or three
      symbols, followed by the padding the variant asks for and by nothing else. Spare low bits are not checked. */
  function DecodeQuanta(s: string, v: Variant): Option<seq<byte>>
    decreases |s|
  {
    if s == "" then Some([])
    else
      var n := Lead(s, v.url);
      if n == 4 then
        match DecodeQuanta(s[4..], v)
        case None => None
        case Some(rest) => Some(QuantumOf(Sextets(s[..4], v.url)) + rest)
      else if n >= 2 && s[n..] == Equals(if v.padded then 4 - n else 0) then Some(QuantumOf(Sextets(s[..n], v.url)))
      else None
  }

  /** DecodeString */
  function Decode(s: string, v: Variant): Option<seq<byte>> {
    DecodeQuanta(DropNewlines(s), v)
  }

  /** decodeAuthToken: the four variants in turn. */
  function DecodeAuthToken(s: string): Option<seq<byte>> {
    if Decode(s, STD).Some? then Decode(s, STD)
    else if Decode(s, RAW_STD).Some? then Decode(s, RAW_STD)
    else if Decode(s, URL).Some? then Decode(s, URL)
    else if Decode(s, RAW_URL).Some? then Decode(s, RAW_URL)
    else None
  }

  // ----- which strings are accepted ------------------------------------------

  /** The text before the first '='. */
  function Stem(s: string): (r: string)
    ensures |r| <= |s| && r == s[..|r|] && '=' !in r
    ensures |r| < |s| ==> s[|r|] == '='
  {
    if s == "" || s[0] == '=' then "" else [s[0]] + Stem(s[1..])
  }

  predicate InAlphabet(s: string, url: bool) {
    forall i | 0 <= i < |s| :: Value(s[i], url).Some?
  }

  /** RFC 4648 text of one variant: symbols of its alphabet, no lone one at the end, then exactly its padding. */
  predicate WellFormed(s: string, v: Variant) {
    Padded(Stem(s), s[|Stem(s)|..], v)
  }

  predicate Padded(data: string, pad: string, v: Variant) {
    InAlphabet(data, v.url) && |data| % 4 != 1 && pad == Equals(PadCount(|data|, v))
  }

  lemma {:induction false} StemIs(d: string, n: nat)
    requires '=' !in d
    ensures Stem(d + Equals(n)) == d
  {
    var s := d + Equals(n);
    if d == "" {
      assert s == Equals(n);
    } else {
      assert d[0] in d && s[1..] == d[1..] + Equals(n);
      StemIs(d[1..], n);
    }
  }

  lemma {:induction false} StemAfter(a: string, s: string)
    requires '=' !in a
    ensures Stem(a + s) == a + Stem(s)
  {
    if a == "" {
      assert a + s == s;
    } else {
      assert a[0] in a && (a + s)[1..] == a[1..] + s;
      StemAfter(a[1..], s);
    }
  }

  lemma AlphabetNoEquals(s: string, url: bool)
    requires InAlphabet(s, url)
    ensures '=' !in s
  {
  }

  /** The decoder accepts exactly the well-formed texts. */
  lemma {:induction false} AcceptsWellFormed(s: string, v: Variant)
    ensures DecodeQuanta(s, v).Some? <==> WellFormed(s, v)
    decreases |s|
  {
    if s != "" {
      var n := Lead(s, v.url);
      AlphabetNoEquals(s[..n], v.url);
      assert s == s[..n] + s[n..];
      StemAfter(s[..n], s[n..]);
      if n == 4 {
        AcceptsWellFormed(s[4..], v);
        QuadWellFormed(s, v);
      } else {
        ShortWellFormed(s, n, v);
      }
    }
  }

  lemma AlphabetConcat(a: string, b: string, url: bool)
    ensures InAlphabet(a + b, url) <==> InAlphabet(a, url) && InAlphabet(b, url)
  {
    var s := a + b;
    if InAlphabet(s, url) {
      forall i | 0 <= i < |a| ensures Value(a[i], url).Some? {
        assert a[i] == s[i];
      }
      forall i | 0 <= i < |b| ensures Value(b[i], url).Some? {
        assert b[i] == s[|a| + i];
      }
    }
  }

  lemma QuadWellFormed(s: string, v: Variant)
    requires |s| >= 4 && InAlphabet(s[..4], v.url) && Stem(s) == s[..4] + Stem(s[4..])
    ensures WellFormed(s, v) <==> WellFormed(s[4..], v)
  {
    var d, e := Stem(s), Stem(s[4..]);
    AlphabetConcat(s[..4], e, v.url);
    assert |d| == 4 + |e|;
    assert s[|d|..] == s[4..][|e|..];
    PadCountStep(|e|, v);
  }

  lemma PadCountStep(n: nat, v: Variant)
    ensures (4 + n) % 4 == n % 4 && PadCount(4 + n, v) == PadCount(n, v)
  {
  }

  lemma ShortWellFormed(s: string, n: nat, v: Variant)
    requires n < 4 && n <= |s| && s != "" && InAlphabet(s[..n], v.url) && Stem(s) == s[..n] + Stem(s[n..])
    requires n < |s| ==> Value(s[n], v.url).None?
    ensures WellFormed(s, v) <==> n >= 2 && s[n..] == Equals(if v.padded then 4 - n else 0)
  {
    if Stem(s[n..]) == "" {
      assert Stem(s) == s[..n];
      StemWellFormed(s, n, v);
    } else {
      ForeignSymbol(s, n, v);
    }
  }

  lemma StemWellFormed(s: string, n: nat, v: Variant)
    requires n < 4 && n <= |s| && s != "" && InAlphabet(s[..n], v.url) && Stem(s) == s[..n]
    ensures WellFormed(s, v) <==> n >= 2 && s[n..] == Equals(if v.padded then 4 - n else 0)
  {
    assert |Stem(s)| == n;
    assert n == 0 ==> s[n..] != "";
    PaddedShort(s[..n], s[n..], v);
  }

  lemma PaddedShort(data: string, pad: string, v: Variant)
    requires |data| < 4 && InAlphabet(data, v.url) && (data == "" ==> pad != "")
    ensures Padded(data, pad, v) <==> |data| >= 2 && pad == Equals(if v.padded then 4 - |data| else 0)
  {
  }

  lemma ForeignSymbol(s: string, n: nat, v: Variant)
    requires n < |s| && Stem(s) == s[..n] + Stem(s[n..]) && Stem(s[n..]) != "" && Value(s[n], v.url).None?
    ensures !WellFormed(s, v) && forall k: nat :: s[n..] != Equals(k)
  {
  }

  // ----- what an accepted string means ---------------------------------------

  /** The sextet a symbol stands for in whichever alphabet has it. */
  function AnyValue(c: char): Sextet {
    match Value(c, false)
    case Some(x) => x
    case None => match Value(c, true) case Some(x) => x case None => 0
  }

  function AnySextets(s: string): (r: seq<Sextet>)
    ensures |r| == |s|
  {
    seq(|s|, i requires 0 <= i < |s| => AnyValue(s[i]))
  }

  /** The bytes a string stands for, variant or no variant: the complete octets of its symbols' bits. */
  function Octets(s: string): seq<nat> {
    Whole(BitString(AnySextets(s), 6), 8)
  }

  function Meaning(s: string): seq<nat> {
    Octets(Stem(DropNewlines(s)))
  }

  lemma ThreeBytes(v: nat)
    ensures v / 0x10000 * 0x10000 + v / 0x100 % 0x100 * 0x100 + v % 0x100 == v
  {
  }

  lemma QuantumValue(a: Sextet, b: Sextet, c: Sextet, d: Sextet)
    ensures var q: seq<int> := Quantum(a, b, c, d);
            q[0] * 0x10000 + q[1] * 0x100 + q[2] == a * 0x40000 + b * 0x1000 + c * 0x40 + d
  {
    ThreeBytes(a * 0x40000 + b * 0x1000 + c * 0x40 + d);
  }

  lemma QuantumBits(a: Sextet, b: Sextet, c: Sextet, d: Sextet)
    ensures BitString([a, b, c, d], 6) == BitString(Quantum(a, b, c, d), 8)
  {
    var q: seq<int> := Quantum(a, b, c, d);
    QuantumValue(a, b, c, d);
    Horner4(a, b, c, d);
    Horner3(q[0], q[1], q[2]);
    assert q == [q[0], q[1], q[2]];
    SextetsFit([a, b, c, d]);
    QuantumBytes(q);
    SameBits([a, b, c, d], 6, q, 8);
  }

  lemma SextetsFit(x: seq<Sextet>)
    ensures Fit(x, 6)
  {
  }

  lemma Horner4(a: int, b: int, c: int, d: int)
    ensures Horner(0, [a, b, c, d], 6) == a * 0x40000 + b * 0x1000 + c * 0x40 + d
  {
    assert Pow2(6) == 64;
    assert [a, b, c, d][1..] == [b, c, d] && [b, c, d][1..] == [c, d] && [c, d][1..] == [d] && [d][1..] == [];
    assert Horner(a, [b, c, d], 6) == Horner(a * 64 + b, [c, d], 6);
    assert Horner((a * 64 + b) * 64 + c, [d], 6) == ((a * 64 + b) * 64 + c) * 64 + d;
  }

  lemma Horner3(x: int, y: int, z: int)
    ensures Horner(0, [x, y, z], 8) == x * 0x10000 + y * 0x100 + z
  {
    assert Pow2(8) == 256;
    assert [x, y, z][1..] == [y, z] && [y, z][1..] == [z] && [z][1..] == [];
    assert Horner(x * 256 + y, [z], 8) == (x * 256 + y) * 256 + z;
  }

  lemma QuantumBytes(q: seq<byte>)
    ensures Fit(q, 8)
  {
  }

  /** A quantum of two, three or four sextets makes the complete octets of its bits. */
  lemma QuantumOctets(x: seq<Sextet>, rest: seq<bool>)
    requires 2 <= |x| <= 4 && (|x| < 4 ==> rest == [])
    ensures Whole(BitString(x, 6) + rest, 8) == QuantumOf(x) + Whole(rest, 8)
  {
    var k := |x|;
    var full := x + seq(4 - k, i => 0);
    var q := Quantum(full[0], full[1], full[2], full[3]);
    QuantumBits(full[0], full[1], full[2], full[3]);
    assert full == [full[0], full[1], full[2], full[3]];
    assert QuantumOf(x) == q[..k - 1];
    QuantumBytes(q);
    PrefixBits(x, full[k..], 6);
    PrefixBits(q[..k - 1], q[k - 1..], 8);
    assert q == q[..k - 1] + q[k - 1..] && full == x + full[k..];
    PrefixOctets(q[..k - 1], BitString(q, 8), BitString(x, 6), rest);
  }

  lemma PrefixBits(a: seq<int>, b: seq<int>, w: nat)
    ensures BitString(a, w) == BitString(a + b, w)[..|a| * w]
  {
    BitStringConcat(a, b, w);
  }

  lemma PrefixOctets(q: seq<byte>, all: seq<bool>, bits: seq<bool>, rest: seq<bool>)
    requires Fit(q, 8) && |q| * 8 <= |bits| <= |all| && bits == all[..|bits|] && BitString(q, 8) == all[..|q| * 8]
    requires |bits| < |q| * 8 + 8 && (|bits| > |q| * 8 ==> rest == [])
    ensures Whole(bits + rest, 8) == q + Whole(rest, 8)
  {
    var tail := bits[|q| * 8..];
    assert bits + rest == BitString(q, 8) + (tail + rest);
    WholeAppend(q, tail + rest, 8);
    if tail == [] {
      assert tail + rest == rest;
    }
  }

  lemma SameSextets(s: string, url: bool)
    requires InAlphabet(s, url)
    ensures AnySextets(s) == Sextets(s, url)
  {
  }

  lemma OctetsConcat(a: string, e: string)
    requires |a| == 4
    ensures Octets(a + e) == QuantumOf(AnySextets(a)) + Octets(e)
  {
    var x, y := AnySextets(a), AnySextets(e);
    assert AnySextets(a + e) == x + y;
    BitStringConcat(x, y, 6);
    QuantumOctets(x, BitString(y, 6));
  }

  lemma OctetsShort(a: string)
    requires 2 <= |a| < 4
    ensures Octets(a) == QuantumOf(AnySextets(a))
  {
    var x := AnySextets(a);
    QuantumOctets(x, []);
    assert BitString(x, 6) + [] == BitString(x, 6);
    assert QuantumOf(x) + Whole([], 8) == QuantumOf(x);
  }

  lemma {:induction false} DecodesOctets(s: string, v: Variant)
    requires DecodeQuanta(s, v).Some?
    ensures DecodeQuanta(s, v).value == Octets(Stem(s))
    decreases |s|
  {
    if s != "" {
      var n := Lead(s, v.url);
      SameSextets(s[..n], v.url);
      if n == 4 {
        AlphabetNoEquals(s[..4], v.url);
        StemAfter(s[..4], s[4..]);
        assert s == s[..4] + s[4..];
        OctetsConcat(s[..4], Stem(s[4..]));
        DecodesOctets(s[4..], v);
      } else {
        ShortStem(s, n, v);
        OctetsShort(s[..n]);
      }
    }
  }

  lemma ShortStem(s: string, n: nat, v: Variant)
    requires n <= |s| && n < 4 && InAlphabet(s[..n], v.url) && s[n..] == Equals(if v.padded then 4 - n else 0)
    ensures Stem(s) == s[..n]
  {
    AlphabetNoEquals(s[..n], v.url);
    StemIs(s[..n], if v.padded then 4 - n else 0);
    assert s == s[..n] + s[n..];
  }

  /** Whatever variant accepts a string, the bytes are the same: those its symbols stand for. */
  lemma DecodeMeans(s: string, v: Variant)
    ensures Decode(s, v).Some? <==> WellFormed(DropNewlines(s), v)
    ensures Decode(s, v).Some? ==> Decode(s, v).value == Meaning(s)
  {
    AcceptsWellFormed(DropNewlines(s), v);
    if Decode(s, v).Some? {
      DecodesOctets(DropNewlines(s), v);
    }
  }

  /** Trial order does not matter to decodeAuthToken: it accepts what any of the four variants accepts, and answers
      with the one meaning all accepting variants share. */
  lemma TokenUnambiguous(s: string, v: Variant)
    ensures DecodeAuthToken(s).Some? <==> exists w :: WellFormed(DropNewlines(s), w)
    ensures Decode(s, v).Some? ==> DecodeAuthToken(s) == Decode(s, v)
    ensures DecodeAuthToken(s).Some? ==> DecodeAuthToken(s).value == Meaning(s)
  {
    DecodeMeans(s, STD);
    DecodeMeans(s, RAW_STD);
    DecodeMeans(s, URL);
    DecodeMeans(s, RAW_URL);
    assert v == STD || v == RAW_STD || v == URL || v == RAW_URL;
    if w :| WellFormed(DropNewlines(s), w) {
      assert w == STD || w == RAW_STD || w == URL || w == RAW_URL;
    }
  }

  // ----- the round trip ------------------------------------------------------

  lemma {:induction false} NoNewlines(s: string)
    requires '\r' !in s && '\n' !in s
    ensures DropNewlines(s) == s
  {
    if s != "" {
      assert s[0] in s;
      NoNewlines(s[1..]);
    }
  }

  lemma SymbolsAre(groups: seq<nat>, url: bool)
    requires Fit(groups, 6)
    ensures InAlphabet(Symbols(groups, url), url) && AnySextets(Symbols(groups, url)) == groups
  {
  }

  lemma EncodedChars(bytes: seq<byte>, v: Variant)
    ensures forall c | c in Encode(bytes, v) :: c == '=' || Value(c, v.url).Some?
  {
  }

  lemma PaddedWellFormed(body: string, v: Variant)
    requires InAlphabet(body, v.url) && |body| % 4 != 1
    ensures var s := body + Equals(PadCount(|body|, v)); Stem(s) == body && WellFormed(s, v)
  {
    AlphabetNoEquals(body, v.url);
    StemIs(body, PadCount(|body|, v));
  }

  lemma EncodedShape(bytes: seq<byte>, v: Variant)
    ensures var s, groups := Encode(bytes, v), Groups(BitString(bytes, 8), 6);
            DropNewlines(s) == s && WellFormed(s, v) && AnySextets(Stem(s)) == groups
  {
    EncodedChars(bytes, v);
    NoNewlines(Encode(bytes, v));
    EncodedGroups(BitString(bytes, 8), |bytes|, v);
  }

  lemma EncodedGroups(bits: seq<bool>, n: nat, v: Variant)
    requires |bits| == n * 8
    ensures var groups := Groups(bits, 6);
            Fit(groups, 6) &&
            var body := Symbols(groups, v.url); var s := body + Equals(PadCount(|body|, v));
            WellFormed(s, v) && AnySextets(Stem(s)) == groups
  {
    GroupsBound(bits, 6);
    var pad := GroupsBits(bits, 6);
    NoLoneSymbol(|Groups(bits, 6)|, n, pad);
    GroupsShape(Groups(bits, 6), v);
  }

  lemma GroupsShape(groups: seq<nat>, v: Variant)
    requires Fit(groups, 6) && |groups| % 4 != 1
    ensures var body := Symbols(groups, v.url);
            var s := body + Equals(PadCount(|body|, v));
            WellFormed(s, v) && AnySextets(Stem(s)) == groups
  {
    SymbolsAre(groups, v.url);
    PaddedWellFormed(Symbols(groups, v.url), v);
  }

  lemma NoLoneSymbol(symbols: nat, bytes: nat, pad: nat)
    requires symbols * 6 == 8 * bytes + pad && pad < 6
    ensures symbols % 4 != 1
  {
  }

  /** Every byte string, encoded in any variant, decodes to itself in that variant. */
  lemma RoundTrip(bytes: seq<byte>, v: Variant)
    ensures Decode(Encode(bytes, v), v) == Some(bytes)
  {
    EncodedShape(bytes, v);
    DecodeMeans(Encode(bytes, v), v);
    var pad := GroupsBits(BitString(bytes, 8), 6);
    QuantumBytes(bytes);
    WholeBits(bytes, Zeros(pad), 8);
  }

  /** So a token encoded in any of the four variants is decoded to the bytes it encodes. */
  lemma TokenRoundTrip(bytes: seq<byte>, v: Variant)
    ensures DecodeAuthToken(Encode(bytes, v)) == Some(bytes)
  {
    RoundTrip(bytes, v);
    TokenUnambiguous(Encode(bytes, v), v);
  }
}
