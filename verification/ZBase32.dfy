/** wkd.go: the Web Key Directory hash, z-base-32 over a 64-bit accumulator (section 5.1.6 of RFC 6189). */
module ZBase32 {
  import opened BitStrings
  import opened Text

  const ALPHABET := "ybndrfg8ejkmcpqxot1uwisza345h769"

  /** Go's int: 64 bits, two's complement, wrapping. */
  function Wrap64(n: int): int {
    (n + 0x8000_0000_0000_0000) % 0x1_0000_0000_0000_0000 - 0x8000_0000_0000_0000
  }

  lemma WrapShift(n: int) returns (k: int)
    ensures Wrap64(n) == n + k * Pow2(64)
  {
    k := -((n + 0x8000_0000_0000_0000) / 0x1_0000_0000_0000_0000);
    Pow2Add(8, 8);
    Pow2Add(16, 16);
    Pow2Add(32, 32);
    assert Pow2(8) == 256;
  }

  function Shl(n: int, k: nat): int
    decreases k, n
  {
    if k == 0 then n else Shl(2 * n, k - 1)
  }

  /** The arithmetic right shift. */
  function Shr(n: int, k: nat): int
    decreases k, n
  {
    if k == 0 then n else Shr(n / 2, k - 1)
  }

  function Digits(groups: seq<nat>): string
    requires Fit(groups, 5)
  {
    seq(|groups|, i requires 0 <= i < |groups| => ALPHABET[groups[i]])
  }

  lemma WrapBits(n: int, w: nat)
    requires w <= 64
    ensures Bits(Wrap64(n), w) == Bits(n, w)
  {
    var k := WrapShift(n);
    BitsCongruent(n, k, w, 64);
  }

  lemma {:induction false} ShrBits(n: int, a: nat, k: nat)
    ensures Bits(n, a + k) == Bits(Shr(n, k), a) + Bits(n, k)
    decreases k
  {
    if k > 0 {
      ShrBits(n / 2, a, k - 1);
      var last := [n % 2 == 1];
      assert (Bits(Shr(n, k), a) + Bits(n / 2, k - 1)) + last == Bits(Shr(n, k), a) + (Bits(n / 2, k - 1) + last);
    }
  }

  lemma {:induction false} ShlBits(n: int, w: nat, k: nat)
    ensures Bits(Shl(n, k), w + k) == Bits(n, w) + Zeros(k)
    decreases k
  {
    if k > 0 {
      ShlBits(2 * n, w + 1, k - 1);
      assert (2 * n) / 2 == n && (2 * n) % 2 == 0;
      assert Bits(2 * n, w + 1) == Bits(n, w) + [false];
      assert (Bits(n, w) + [false]) + Zeros(k - 1) == Bits(n, w) + Zeros(k);
    } else {
      assert Bits(n, w) + Zeros(0) == Bits(n, w);
    }
  }

  /** Pushing a byte into the accumulator appends its bits, wrapping or not. */
  lemma Push(cur: int, b: byte, bits: nat)
    requires bits <= 56
    ensures Bits(Wrap64(cur * 256) + b, bits + 8) == Bits(cur, bits) + Bits(b, 8)
  {
    var k := WrapShift(cur * 256);
    BitsCongruent(cur * 256 + b, k, bits + 8, 64);
    BitsAppend(cur, b, bits);
  }

  /** The five bits above the low ones are the next group. */
  lemma Emit(cur: int, bits: nat)
    ensures Bits(cur, bits + 5) == Bits(Shr(cur, bits) % 32, 5) + Bits(cur, bits)
  {
    ShrBits(cur, 5, bits);
    LowBits(Shr(cur, bits), 5);
    BitsNum(Bits(Shr(cur, bits), 5));
    assert Pow2(5) == 32;
  }

  lemma Extend(groups: seq<nat>, g: nat)
    requires Fit(groups, 5) && g < 32
    ensures Fit(groups + [g], 5) && Digits(groups + [g]) == Digits(groups) + [ALPHABET[g]]
    ensures BitString(groups + [g], 5) == BitString(groups, 5) + Bits(g, 5)
  {
    assert Pow2(5) == 32;
    BitStringConcat(groups, [g], 5);
    assert [g][1..] == [];
    assert BitString([g], 5) == Bits(g, 5) + [];
  }

  lemma LastGroup(cur: int, bits: nat)
    requires 0 < bits < 5
    ensures Groups(Bits(cur, bits), 5) == [Wrap64(Shl(cur, 5 - bits)) % 32]
  {
    var x := Shl(cur, 5 - bits);
    ShlBits(cur, bits, 5 - bits);
    WrapBits(x, 5);
    LowBits(Wrap64(x), 5);
    assert Pow2(5) == 32;
  }

  lemma BitStringSnoc(h: seq<byte>, b: byte)
    ensures BitString(h + [b], 8) == BitString(h, 8) + Bits(b, 8)
  {
    BitStringConcat(h, [b], 8);
    assert BitString([b], 8) == Bits(b, 8) + BitString([b][1..], 8);
  }

  /** What the loop has done: the groups written, and the low bits of the accumulator still to be written,
      are the bits of the bytes read. */
  ghost predicate Packed(h: seq<byte>, groups: seq<nat>, cur: int, bits: nat) {
    Fit(groups, 5) && BitString(groups, 5) + Bits(cur, bits) == BitString(h, 8)
  }

  lemma Regroup(a: seq<bool>, b: seq<bool>, c: seq<bool>)
    ensures a + (b + c) == (a + b) + c
  {
  }

  function Pushed(cur: int, b: byte): int {
    Wrap64(cur * 256) + b
  }

  lemma PushPacks(h: seq<byte>, i: nat, groups: seq<nat>, cur: int, bits: nat)
    requires i < |h| && Packed(h[..i], groups, cur, bits) && bits <= 56
    ensures Packed(h[..i + 1], groups, Pushed(cur, h[i]), bits + 8)
  {
    var before, after, b := h[..i], h[..i + 1], h[i];
    Push(cur, b, bits);
    BitStringSnoc(before, b);
    assert after == before + [b];
    Longer(BitString(groups, 5), Bits(cur, bits), Bits(b, 8), BitString(before, 8), BitString(after, 8));
  }

  lemma Longer(written: seq<bool>, pending: seq<bool>, next: seq<bool>, before: seq<bool>, after: seq<bool>)
    requires written + pending == before && after == before + next
    ensures written + (pending + next) == after
  {
  }

  lemma EmitPacks(h: seq<byte>, groups: seq<nat>, cur: int, bits: nat)
    requires Packed(h, groups, cur, bits + 5)
    ensures var g := Shr(cur, bits) % 32;
            Packed(h, groups + [g], cur, bits) && Digits(groups + [g]) == Digits(groups) + [ALPHABET[g]]
  {
    var g := Shr(cur, bits) % 32;
    Emit(cur, bits);
    Extend(groups, g);
    Regroup(BitString(groups, 5), Bits(g, 5), Bits(cur, bits));
  }

  lemma FinishPacks(h: seq<byte>, groups: seq<nat>, cur: int, bits: nat)
    requires Packed(h, groups, cur, bits) && bits < 5
    ensures var g := Wrap64(Shl(cur, 5 - bits)) % 32;
            var all := if bits > 0 then groups + [g] else groups;
            Groups(BitString(h, 8), 5) == all && Fit(all, 5) &&
            Digits(all) == Digits(groups) + (if bits > 0 then [ALPHABET[g]] else [])
  {
    GroupsAfterWhole(groups, Bits(cur, bits), 5);
    if bits > 0 {
      LastGroup(cur, bits);
      Extend(groups, Wrap64(Shl(cur, 5 - bits)) % 32);
    }
  }

  /** The z-base-32 digits of a byte string: its bits in groups of five, the last group padded with zeros. */
  function ZDigits(h: seq<byte>): string {
    GroupsBound(BitString(h, 8), 5);
    Digits(Groups(BitString(h, 8), 5))
  }

  /** The inner loop: every complete group is written. */
  method EmitGroups(ghost h: seq<byte>, ghost groups: seq<nat>, cur: int, bits: nat, sb: string)
    returns (ghost groups': seq<nat>, bits': nat, sb': string)
    requires Packed(h, groups, cur, bits) && sb == Digits(groups)
    ensures Packed(h, groups', cur, bits') && sb' == Digits(groups') && bits' < 5
  {
    groups', bits', sb' := groups, bits, sb;
    while bits' >= 5
      invariant Packed(h, groups', cur, bits') && sb' == Digits(groups')
    {
      bits' := bits' - 5;
      EmitPacks(h, groups', cur, bits');
      groups' := groups' + [Shr(cur, bits') % 32];
      sb' := sb' + [ALPHABET[Shr(cur, bits') % 32]];
    }
  }

  /** The packing loop of wkdHash. A group is five bits of the whole input, although cur holds 64 bits, is never
      masked and wraps around. */
  method Encode(h: seq<byte>) returns (sb: string)
    ensures sb == ZDigits(h)
  {
    var bits: nat, cur := 0, 0;
    sb := "";
    ghost var groups: seq<nat> := [];
    for i := 0 to |h|
      invariant bits < 5
      invariant Packed(h[..i], groups, cur, bits) && sb == Digits(groups)
    {
      PushPacks(h, i, groups, cur, bits);
      cur := Pushed(cur, h[i]);
      bits := bits + 8;
      groups, bits, sb := EmitGroups(h[..i + 1], groups, cur, bits, sb);
    }
    assert h[..|h|] == h;
    FinishPacks(h, groups, cur, bits);
    if bits > 0 {
      sb := sb + [ALPHABET[Wrap64(Shl(cur, 5 - bits)) % 32]];
    }
  }

  // ----- decoding ------------------------------------------------------------

  /** The value of a digit; the decoder is no part of the program, it says what the digits mean. */
  function ZValue(c: char): nat {
    match c
    case 'y' => 0 case 'b' => 1 case 'n' => 2 case 'd' => 3 case 'r' => 4 case 'f' => 5 case 'g' => 6 case '8' => 7
    case 'e' => 8 case 'j' => 9 case 'k' => 10 case 'm' => 11 case 'c' => 12 case 'p' => 13 case 'q' => 14 case 'x' => 15
    case 'o' => 16 case 't' => 17 case '1' => 18 case 'u' => 19 case 'w' => 20 case 'i' => 21 case 's' => 22 case 'z' => 23
    case 'a' => 24 case '3' => 25 case '4' => 26 case '5' => 27 case 'h' => 28 case '7' => 29 case '6' => 30 case '9' => 31
    case _ => 0
  }

  function ZDecode(s: string): seq<nat> {
    Whole(BitString(seq(|s|, i requires 0 <= i < |s| => ZValue(s[i])), 5), 8)
  }

  lemma DigitValue(g: nat)
    requires g < 32
    ensures ZValue(ALPHABET[g]) == g
  {
    if g < 8 { DigitValue0(g); } else if g < 16 { DigitValue1(g); } else if g < 24 { DigitValue2(g); } else { DigitValue3(g); }
  }

  lemma DigitValue0(g: nat)
    requires 0 <= g < 8
    ensures ZValue(ALPHABET[g]) == g
  {
  }

  lemma DigitValue1(g: nat)
    requires 8 <= g < 16
    ensures ZValue(ALPHABET[g]) == g
  {
  }

  lemma DigitValue2(g: nat)
    requires 16 <= g < 24
    ensures ZValue(ALPHABET[g]) == g
  {
  }

  lemma DigitValue3(g: nat)
    requires 24 <= g < 32
    ensures ZValue(ALPHABET[g]) == g
  {
  }

  /** A decoder inverts the digits of every byte string, of any length. */
  lemma DecodeInverts(h: seq<byte>)
    ensures ZDecode(ZDigits(h)) == h
  {
    var bs := BitString(h, 8);
    var groups := Groups(bs, 5);
    GroupsBound(bs, 5);
    var pad := GroupsBits(bs, 5);
    var s := Digits(groups);
    forall i | 0 <= i < |s| ensures ZValue(s[i]) == groups[i] {
      assert groups[i] < 32 by { assert Pow2(5) == 32; }
      DigitValue(groups[i]);
    }
    assert seq(|s|, i requires 0 <= i < |s| => ZValue(s[i])) == groups;
    assert Pow2(8) == 256;
    WholeBits(h, Zeros(pad), 8);
  }

  /** So two byte strings with the same digits are the same. */
  lemma DigitsInjective(h1: seq<byte>, h2: seq<byte>)
    requires ZDigits(h1) == ZDigits(h2)
    ensures h1 == h2
  {
    DecodeInverts(h1);
    DecodeInverts(h2);
  }

  /** ceil(8n/5) digits; a SHA-1 digest makes 32 of them with no padded tail. */
  lemma DigitsLength(h: seq<byte>)
    ensures |ZDigits(h)| == (8 * |h| + 4) / 5
    ensures |h| == 20 ==> |ZDigits(h)| == 32 && BitString(Groups(BitString(h, 8), 5), 5) == BitString(h, 8)
  {
    var pad := GroupsBits(BitString(h, 8), 5);
    if |h| == 20 {
      assert Zeros(0) == [];
    }
  }

  /** wkdHash: 32 digits that stand for exactly the SHA-1 digest of the lower-cased local part. */
  method WkdHash(localpart: string, sha1: string -> Digest) returns (r: string)
    ensures |r| == 32 && ZDecode(r) == sha1(Lower(localpart))
  {
    var h := sha1(Lower(localpart));
    DigitsLength(h);
    DecodeInverts(h);
    r := Encode(h);
  }
}
