/** Toy primitives that meet the hypotheses made about the real ones: the hypotheses contradict nothing. */
module Witnesses {
  import opened Text
  import opened BitStrings
  import AtRest
  import Base64
  import Envelope

  /** A key with its end marked, so that no such code is the start of another. */
  function Tagged(k: string): (r: string)
    ensures r != ""
  {
    if k == "" then "." else ['k', k[0]] + Tagged(k[1..])
  }

  lemma {:induction false} TaggedApart(k: string, l: string, p: string, q: string)
    requires Tagged(k) + p == Tagged(l) + q
    ensures k == l
    decreases |k|
  {
    var s, t := Tagged(k) + p, Tagged(l) + q;
    assert s[0] == Tagged(k)[0] && t[0] == Tagged(l)[0];
    if k != "" && l != "" {
      assert s[1] == k[0] && t[1] == l[0];
      assert s[2..] == Tagged(k[1..]) + p && t[2..] == Tagged(l[1..]) + q;
      TaggedApart(k[1..], l[1..], p, q);
      assert k == [k[0]] + k[1..] && l == [l[0]] + l[1..];
    }
  }

  function ToyText(k: string, p: string): string {
    AtRest.BEGIN_MARK + (Tagged(k) + p)
  }

  /** The body is the first text value, encryption puts mark and key in front. */
  function ToyCipher(): AtRest.Cipher {
    AtRest.Cipher((s: seq<string>) => if s == [] then "" else s[0], (k, p, r: nat) => Some(ToyText(k, p)))
  }

  lemma ToyIsSound()
    ensures AtRest.Sound(ToyCipher()) && AtRest.KeysApart(ToyCipher())
  {
    forall k: string, p: string ensures Contains(ToyText(k, p), AtRest.BEGIN_MARK) {
      assert At(ToyText(k, p), AtRest.BEGIN_MARK, 0);
    }
    forall k: string, l: string, p: string, q: string | ToyText(k, p) == ToyText(l, q) ensures k == l {
      var n := |AtRest.BEGIN_MARK|;
      assert ToyText(k, p)[n..] == Tagged(k) + p && ToyText(l, q)[n..] == Tagged(l) + q;
      TaggedApart(k, l, p, q);
    }
  }

  // ----- an envelope's primitives --------------------------------------------

  /** A key with its end marked, so that no such code is the start of another. */
  function Marked(k: seq<byte>): (r: seq<byte>)
    ensures r != []
  {
    if k == [] then [0] else [1, k[0]] + Marked(k[1..])
  }

  lemma {:induction false} MarkedApart(k: seq<byte>, l: seq<byte>, p: seq<byte>)
    requires k != l
    ensures !(Marked(l) <= Marked(k) + p)
    decreases |l|
  {
    var s := Marked(k) + p;
    if k == [] {
      assert s[0] == 0 && Marked(l)[0] == 1;
    } else if l == [] {
      assert s[0] == 1;
    } else if k[0] != l[0] {
      assert s[1] == k[0] && Marked(l)[1] == l[0];
    } else {
      assert k == [k[0]] + k[1..] && l == [l[0]] + l[1..];
      MarkedApart(k[1..], l[1..], p);
      assert s[2..] == Marked(k[1..]) + p && Marked(l)[2..] == Marked(l[1..]);
    }
  }

  function ToySeal(k: seq<byte>, n: seq<byte>, p: seq<byte>): seq<byte> {
    Marked(k) + p
  }

  function ToyOpen(k: seq<byte>, n: seq<byte>, c: seq<byte>): Option<seq<byte>> {
    if Marked(k) <= c then Some(c[|Marked(k)|..]) else None
  }

  function CharBytes(c: char): seq<byte> {
    NumBytes(c as int)
  }

  function NumBytes(n: nat): seq<byte>
    requires n < 0x1000000
  {
    [n / 0x10000, n / 0x100 % 0x100, n % 0x100]
  }

  function ToyKey(p: string): seq<byte> {
    if p == "" then [] else CharBytes(p[0]) + ToyKey(p[1..])
  }

  lemma NumApart(m: nat, n: nat)
    requires m < 0x1000000 && n < 0x1000000 && NumBytes(m) == NumBytes(n)
    ensures m == n
  {
    var x, y := NumBytes(m), NumBytes(n);
    Base64.ThreeBytes(m);
    Base64.ThreeBytes(n);
    assert x[0] == y[0] && x[1] == y[1] && x[2] == y[2];
  }

  lemma {:induction false} KeyApart(p: string, q: string)
    requires ToyKey(p) == ToyKey(q)
    ensures p == q
  {
    if p != "" && q != "" {
      var a, b := CharBytes(p[0]) + ToyKey(p[1..]), CharBytes(q[0]) + ToyKey(q[1..]);
      assert a[..3] == CharBytes(p[0]) && b[..3] == CharBytes(q[0]);
      assert a[3..] == ToyKey(p[1..]) && b[3..] == ToyKey(q[1..]);
      NumApart(p[0] as int, q[0] as int);
      KeyApart(p[1..], q[1..]);
      assert p == [p[0]] + p[1..] && q == [q[0]] + q[1..];
    }
  }

  function ToyCrypto(): Envelope.Crypto {
    Envelope.Crypto((p, s, d) => ToyKey(p), ToySeal, ToyOpen, (m, info) => m, t => t)
  }

  lemma ToyCryptoIsSound()
    ensures Envelope.Sound(ToyCrypto())
  {
    forall k: seq<byte>, n: seq<byte>, p: seq<byte> ensures ToyOpen(k, n, ToySeal(k, n, p)) == Some(p) {}
    forall k: seq<byte>, l: seq<byte>, n: seq<byte>, p: seq<byte> | k != l ensures ToyOpen(l, n, ToySeal(k, n, p)) == None {
      MarkedApart(k, l, p);
    }
    forall p: string, q: string | p != q ensures ToyKey(p) != ToyKey(q) {
      if ToyKey(p) == ToyKey(q) {
        KeyApart(p, q);
      }
    }
  }
}
