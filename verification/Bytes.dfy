/** Bytes, byte strings, fixed-width integers and the exclusive or. */
module Bytes {
  type byte = b: int | 0 <= b < 256
  type Bytes = seq<byte>

  lemma SliceOfDrop(s: Bytes, o: nat, a: nat, b: nat)
    requires o <= |s| && a <= b <= |s| - o
    ensures s[o..][a..b] == s[o + a..o + b]
    ensures s[o..][b..] == s[o + b..]
  {}

  function Joined(parts: seq<Bytes>): Bytes {
    if parts == [] then [] else Joined(parts[..|parts| - 1]) + parts[|parts| - 1]
  }

  lemma JoinedSnoc(ps: seq<Bytes>, p: Bytes)
    ensures Joined(ps + [p]) == Joined(ps) + p
  {
    assert (ps + [p])[..|ps + [p]| - 1] == ps;
  }

  lemma {:induction false} JoinedFront(p: Bytes, ps: seq<Bytes>)
    ensures Joined([p] + ps) == p + Joined(ps)
    decreases |ps|
  {
    var all := [p] + ps;
    if ps == [] {
      assert all[..|all| - 1] == [] && all[|all| - 1] == p;
      assert [] + p == p && p + [] == p;
    } else {
      var init, last := ps[..|ps| - 1], ps[|ps| - 1];
      assert all[..|all| - 1] == [p] + init && all[|all| - 1] == last;
      JoinedFront(p, init);
      assert p + (Joined(init) + last) == (p + Joined(init)) + last;
    }
  }

  function Pow256(n: nat): (p: nat)
    ensures p >= 1
  {
    if n == 0 then 1 else 256 * Pow256(n - 1)
  }

  lemma Widths()
    ensures Pow256(2) == 0x1_0000 && Pow256(3) == 0x100_0000 && Pow256(4) == 0x1_0000_0000
    ensures Pow256(8) == 0x1_0000_0000_0000_0000
  {
    var a, b, c := Pow256(1), Pow256(2), Pow256(3);
    assert a == 256 && b == 256 * a && c == 256 * b;
    var d, e, f := Pow256(5), Pow256(6), Pow256(7);
    assert Pow256(4) == 256 * c && d == 256 * Pow256(4) && e == 256 * d && f == 256 * e && Pow256(8) == 256 * f;
  }

  /** The low `n` bytes of `v`, least significant first. */
  function Le(v: nat, n: nat): (b: Bytes)
    ensures |b| == n
  {
    if n == 0 then [] else [v % 256] + Le(v / 256, n - 1)
  }

  function LeNat(b: Bytes): nat {
    if b == [] then 0 else b[0] + 256 * LeNat(b[1..])
  }

  /** The low `n` bytes of `v`, most significant first. */
  function Be(v: nat, n: nat): (b: Bytes)
    ensures |b| == n
  {
    if n == 0 then [] else Be(v / 256, n - 1) + [v % 256]
  }

  function BeNat(b: Bytes): nat {
    if b == [] then 0 else 256 * BeNat(b[..|b| - 1]) + b[|b| - 1]
  }

  lemma {:induction false} LeRoundTrip(v: nat, n: nat)
    requires v < Pow256(n)
    ensures LeNat(Le(v, n)) == v
  {
    if n > 0 {
      LeRoundTrip(v / 256, n - 1);
      assert Le(v, n)[1..] == Le(v / 256, n - 1);
    }
  }

  lemma {:induction false} LeNatRoundTrip(b: Bytes)
    ensures LeNat(b) < Pow256(|b|)
    ensures Le(LeNat(b), |b|) == b
  {
    if b != [] {
      LeNatRoundTrip(b[1..]);
      assert LeNat(b) / 256 == LeNat(b[1..]);
      assert b == [b[0]] + b[1..];
    }
  }

  lemma {:induction false} BeRoundTrip(v: nat, n: nat)
    requires v < Pow256(n)
    ensures BeNat(Be(v, n)) == v
  {
    if n > 0 {
      BeRoundTrip(v / 256, n - 1);
      assert Be(v, n)[..n - 1] == Be(v / 256, n - 1);
    }
  }

  lemma {:induction false} BeNatRoundTrip(b: Bytes)
    ensures BeNat(b) < Pow256(|b|)
    ensures Be(BeNat(b), |b|) == b
  {
    if b != [] {
      BeNatRoundTrip(b[..|b| - 1]);
      assert BeNat(b) / 256 == BeNat(b[..|b| - 1]);
      assert b == b[..|b| - 1] + [b[|b| - 1]];
    }
  }

  lemma TwoBytes(v: nat)
    ensures Be(v, 2) == [v / 0x100 % 0x100, v % 0x100]
    ensures v < 0x1_0000 ==> Be(v, 2) == [v / 0x100, v % 0x100]
  {
    assert Be(v, 2) == Be(v / 0x100, 1) + [v % 0x100];
    assert Be(v / 0x100, 1) == Be(v / 0x100 / 0x100, 0) + [v / 0x100 % 0x100];
  }

  /** Exclusive or of the low `k` bits, bit by bit. */
  function XorBits(a: nat, b: nat, k: nat): (r: nat)
    ensures r < Pow2(k)
  {
    if k == 0 then 0 else (if a % 2 == b % 2 then 0 else 1) + 2 * XorBits(a / 2, b / 2, k - 1)
  }

  function Pow2(k: nat): (p: nat)
    ensures p >= 1
  {
    if k == 0 then 1 else 2 * Pow2(k - 1)
  }

  /** n bytes are 8n bits. */
  lemma {:induction false} Pow256Bits(n: nat)
    ensures Pow256(n) == Pow2(8 * n)
  {
    if n > 0 {
      Pow256Bits(n - 1);
      var m := 8 * (n - 1);
      EightDoublings(m);
    }
  }

  lemma EightDoublings(m: nat)
    ensures Pow2(m + 8) == 256 * Pow2(m)
  {
    assert Pow2(m + 2) == 2 * Pow2(m + 1);
    assert Pow2(m + 4) == 2 * Pow2(m + 3);
    assert Pow2(m + 6) == 2 * Pow2(m + 5);
    assert Pow2(m + 8) == 2 * Pow2(m + 7);
  }

  lemma {:induction false} XorBitsInvolutive(a: nat, b: nat, k: nat)
    requires a < Pow2(k)
    ensures XorBits(XorBits(a, b, k), b, k) == a
  {
    if k > 0 {
      var r := XorBits(a, b, k);
      assert r / 2 == XorBits(a / 2, b / 2, k - 1);
      XorBitsInvolutive(a / 2, b / 2, k - 1);
    }
  }

  lemma {:induction false} XorBitsCommutative(a: nat, b: nat, k: nat)
    ensures XorBits(a, b, k) == XorBits(b, a, k)
  {
    if k > 0 {
      XorBitsCommutative(a / 2, b / 2, k - 1);
    }
  }

  function XorByte(a: byte, b: byte): byte {
    assert Pow2(8) == 256;
    XorBits(a, b, 8)
  }

  lemma XorByteInvolutive(a: byte, b: byte)
    ensures XorByte(XorByte(a, b), b) == a
    ensures XorByte(b, XorByte(a, b)) == a
  {
    assert Pow2(8) == 256;
    XorBitsInvolutive(a, b, 8);
    XorBitsCommutative(b, XorBits(a, b, 8), 8);
  }

  /** Byte-wise exclusive or over the length of `a`. */
  function Xor(a: Bytes, b: Bytes): (c: Bytes)
    requires |a| <= |b|
    ensures |c| == |a|
    ensures forall i :: 0 <= i < |a| ==> c[i] == XorByte(a[i], b[i])
  {
    seq(|a|, i requires 0 <= i < |a| => XorByte(a[i], b[i]))
  }

  lemma XorInvolutive(a: Bytes, b: Bytes)
    requires |a| <= |b|
    ensures Xor(Xor(a, b), b) == a
  {
    forall i | 0 <= i < |a|
      ensures Xor(Xor(a, b), b)[i] == a[i]
    {
      XorByteInvolutive(a[i], b[i]);
    }
  }
}
