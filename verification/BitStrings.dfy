/** Big-endian bit strings, and cutting them into groups of equal width. */
module BitStrings {

  type byte = n: int | 0 <= n < 256

  /** A SHA-1 digest. */
  type Digest = d: seq<byte> | |d| == 20 witness seq(20, _ => 0)

  function Pow2(w: nat): (p: nat)
    ensures p > 0
  {
    if w == 0 then 1 else 2 * Pow2(w - 1)
  }

  lemma {:induction false} Pow2Add(a: nat, b: nat)
    ensures Pow2(a + b) == Pow2(a) * Pow2(b)
  {
    if a > 0 {
      Pow2Add(a - 1, b);
    }
  }

  /** The w low bits of n in two's complement, most significant first. */
  function Bits(n: int, w: nat): (r: seq<bool>)
    ensures |r| == w
    decreases w, n
  {
    if w == 0 then [] else Bits(n / 2, w - 1) + [n % 2 == 1]
  }

  /** The number a bit string denotes. */
  function Num(bs: seq<bool>): nat {
    if bs == [] then 0 else 2 * Num(bs[..|bs| - 1]) + (if bs[|bs| - 1] then 1 else 0)
  }

  function Zeros(n: nat): seq<bool> {
    seq(n, i => false)
  }

  /** The bits of a list of values, each w bits wide. */
  function BitString(vs: seq<int>, w: nat): (r: seq<bool>)
    ensures |r| == |vs| * w
  {
    if vs == [] then [] else Bits(vs[0], w) + BitString(vs[1..], w)
  }

  /** The w-bit groups of a bit string, the last one padded with zeros. */
  function Groups(bs: seq<bool>, w: nat): seq<nat>
    requires w > 0
    decreases |bs|
  {
    if bs == [] then []
    else if |bs| < w then [Num(bs + Zeros(w - |bs|))]
    else [Num(bs[..w])] + Groups(bs[w..], w)
  }

  /** The complete w-bit groups of a bit string; an incomplete tail is dropped. */
  function Whole(bs: seq<bool>, w: nat): seq<nat>
    requires w > 0
    decreases |bs|
  {
    if |bs| < w then [] else [Num(bs[..w])] + Whole(bs[w..], w)
  }

  // ----- numbers and bits ----------------------------------------------------

  lemma {:induction false} NumBound(bs: seq<bool>)
    ensures Num(bs) < Pow2(|bs|)
  {
    if bs != [] {
      NumBound(bs[..|bs| - 1]);
    }
  }

  lemma {:induction false} BitsNum(bs: seq<bool>)
    ensures Bits(Num(bs), |bs|) == bs
  {
    if bs != [] {
      BitsNum(bs[..|bs| - 1]);
      assert bs == bs[..|bs| - 1] + [bs[|bs| - 1]];
    }
  }

  lemma {:induction false} NumBits(n: int, w: nat)
    requires 0 <= n < Pow2(w)
    ensures Num(Bits(n, w)) == n
    decreases w
  {
    if w > 0 {
      NumBits(n / 2, w - 1);
      assert Bits(n, w)[..w - 1] == Bits(n / 2, w - 1);
    }
  }

  /** The low bits of n do not see a multiple of a higher power of two. */
  lemma {:induction false} BitsCongruent(n: int, k: int, w: nat, top: nat)
    requires w <= top
    ensures Bits(n + k * Pow2(top), w) == Bits(n, w)
    decreases w
  {
    if w > 0 {
      var m := k * Pow2(top - 1);
      assert k * Pow2(top) == 2 * m by {
        Double(k, Pow2(top - 1));
      }
      assert (n + 2 * m) / 2 == n / 2 + m && (n + 2 * m) % 2 == n % 2;
      BitsCongruent(n / 2, k, w - 1, top - 1);
    }
  }

  lemma Double(k: int, p: int)
    ensures k * (2 * p) == 2 * (k * p)
  {
  }

  lemma BitsAppend(n: int, b: byte, w: nat)
    ensures Bits(n * 256 + b, w + 8) == Bits(n, w) + Bits(b, 8)
  {
    BitsPush(n, b, w, 8);
    assert Pow2(8) == 256;
  }

  lemma {:induction false} BitsPush(n: int, b: int, w: nat, k: nat)
    requires 0 <= b < Pow2(k)
    ensures Bits(n * Pow2(k) + b, w + k) == Bits(n, w) + Bits(b, k)
    decreases k
  {
    if k > 0 {
      var m := n * Pow2(k - 1);
      Double(n, Pow2(k - 1));
      assert (2 * m + b) / 2 == m + b / 2 && (2 * m + b) % 2 == b % 2;
      BitsPush(n, b / 2, w, k - 1);
      var rest := [b % 2 == 1];
      assert (Bits(n, w) + Bits(b / 2, k - 1)) + rest == Bits(n, w) + (Bits(b / 2, k - 1) + rest);
    }
  }

  // ----- groups --------------------------------------------------------------

  /** Writing the groups out again gives the bit string, padded with fewer than w zeros. */
  lemma {:induction false} GroupsBits(bs: seq<bool>, w: nat) returns (pad: nat)
    requires w > 0
    ensures pad < w && BitString(Groups(bs, w), w) == bs + Zeros(pad)
    ensures |Groups(bs, w)| * w == |bs| + pad
    decreases |bs|
  {
    if bs == [] {
      pad := 0;
    } else if |bs| < w {
      pad := w - |bs|;
      OneGroup(bs + Zeros(pad), [], w);
    } else {
      pad := GroupsBits(bs[w..], w);
      OneGroup(bs[..w], Groups(bs[w..], w), w);
      assert bs == bs[..w] + bs[w..];
      Associates(bs[..w], bs[w..], Zeros(pad));
    }
  }

  lemma Associates<T>(a: seq<T>, b: seq<T>, c: seq<T>)
    ensures (a + b) + c == a + (b + c)
  {
  }

  lemma OneGroup(bs: seq<bool>, more: seq<nat>, w: nat)
    requires |bs| == w
    ensures BitString([Num(bs)] + more, w) == bs + BitString(more, w)
  {
    BitsNum(bs);
    assert ([Num(bs)] + more)[1..] == more;
  }

  lemma {:induction false} GroupsBound(bs: seq<bool>, w: nat)
    requires w > 0
    ensures Fit(Groups(bs, w), w)
    decreases |bs|
  {
    if bs == [] {
    } else if |bs| < w {
      NumBound(bs + Zeros(w - |bs|));
    } else {
      NumBound(bs[..w]);
      GroupsBound(bs[w..], w);
    }
  }

  predicate Fit(vs: seq<int>, w: nat) {
    forall i | 0 <= i < |vs| :: 0 <= vs[i] < Pow2(w)
  }

  /** Cutting the bits of w-bit values into whole groups gives the values back, then what follows is cut. */
  lemma {:induction false} WholeAppend(vs: seq<int>, rest: seq<bool>, w: nat)
    requires w > 0 && Fit(vs, w)
    ensures Whole(BitString(vs, w) + rest, w) == vs + Whole(rest, w)
  {
    if vs == [] {
      assert BitString(vs, w) + rest == rest;
    } else {
      assert Fit(vs[1..], w);
      WholeAppend(vs[1..], rest, w);
      WholeStep(vs[0], vs[1..], BitString(vs[1..], w), rest, w);
    }
  }

  lemma WholeStep(v: int, vs: seq<int>, bits: seq<bool>, rest: seq<bool>, w: nat)
    requires w > 0 && 0 <= v < Pow2(w) && Whole(bits + rest, w) == vs + Whole(rest, w)
    ensures Whole(Bits(v, w) + bits + rest, w) == [v] + vs + Whole(rest, w)
  {
    NumBits(v, w);
    WholeCons(Bits(v, w), bits + rest, w);
    assert Bits(v, w) + bits + rest == Bits(v, w) + (bits + rest);
  }

  lemma WholeBits(vs: seq<int>, tail: seq<bool>, w: nat)
    requires w > 0 && |tail| < w && Fit(vs, w)
    ensures Whole(BitString(vs, w) + tail, w) == vs
  {
    WholeAppend(vs, tail, w);
  }

  lemma WholeCons(bs: seq<bool>, rest: seq<bool>, w: nat)
    requires |bs| == w > 0
    ensures Whole(bs + rest, w) == [Num(bs)] + Whole(rest, w)
  {
  }

  lemma {:induction false} BitStringConcat(a: seq<int>, b: seq<int>, w: nat)
    ensures BitString(a + b, w) == BitString(a, w) + BitString(b, w)
  {
    if a == [] {
      assert a + b == b;
    } else {
      assert (a + b)[1..] == a[1..] + b;
      BitStringConcat(a[1..], b, w);
      assert Bits(a[0], w) + (BitString(a[1..], w) + BitString(b, w)) == BitString(a, w) + BitString(b, w);
    }
  }

  lemma {:induction false} GroupsAfterWhole(vs: seq<nat>, tail: seq<bool>, w: nat)
    requires w > 0 && |tail| < w && Fit(vs, w)
    ensures Groups(BitString(vs, w) + tail, w) == vs + Groups(tail, w)
  {
    if vs == [] {
      assert BitString(vs, w) + tail == tail;
    } else {
      assert Fit(vs[1..], w);
      NumBits(vs[0], w);
      GroupsAfterWhole(vs[1..], tail, w);
      var b, rest := Bits(vs[0], w), BitString(vs[1..], w) + tail;
      assert BitString(vs, w) + tail == b + rest;
      assert (b + rest)[..w] == b && (b + rest)[w..] == rest;
    }
  }

  /** n is its w low bits, as a number, up to a multiple of 2 to the w. */
  lemma LowBits(n: int, w: nat)
    ensures Num(Bits(n, w)) == n % Pow2(w)
  {
    var p := Pow2(w);
    var r := n % p;
    assert n == r + n / p * p;
    BitsCongruent(r, n / p, w, w);
    NumBits(r, w);
  }

  /** The number n followed by w-bit digits. */
  function Horner(n: int, vs: seq<int>, w: nat): int
    decreases vs
  {
    if vs == [] then n else Horner(n * Pow2(w) + vs[0], vs[1..], w)
  }

  lemma {:induction false} HornerBits(n: int, k: nat, vs: seq<int>, w: nat, total: nat)
    requires Fit(vs, w) && total == |vs| * w
    ensures Bits(Horner(n, vs, w), k + total) == Bits(n, k) + BitString(vs, w)
    decreases vs
  {
    if vs != [] {
      var v, rest := vs[0], vs[1..];
      OneLess(|vs|, w);
      HornerBits(n * Pow2(w) + v, k + w, rest, w, total - w);
      BitsPush(n, v, k, w);
      Associates(Bits(n, k), Bits(v, w), BitString(rest, w));
    }
  }

  lemma OneLess(n: nat, w: nat)
    requires n > 0
    ensures n * w == w + (n - 1) * w
  {
  }

  lemma HornerAll(vs: seq<int>, w: nat, total: nat)
    requires Fit(vs, w) && total == |vs| * w
    ensures Bits(Horner(0, vs, w), total) == BitString(vs, w)
  {
    HornerBits(0, 0, vs, w, total);
    assert Bits(0, 0) + BitString(vs, w) == BitString(vs, w);
  }

  /** Digits in two widths that denote the same number, over the same number of bits, have the same bits. */
  lemma SameBits(xs: seq<int>, w: nat, ys: seq<int>, u: nat)
    requires Fit(xs, w) && Fit(ys, u)
    requires Horner(0, xs, w) == Horner(0, ys, u) && |xs| * w == |ys| * u
    ensures BitString(xs, w) == BitString(ys, u)
  {
    var total := |xs| * w;
    HornerAll(xs, w, total);
    HornerAll(ys, u, total);
  }
}
