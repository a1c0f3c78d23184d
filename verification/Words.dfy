/** internal/mtproto/factorize.go, lines 76-104: modular arithmetic on wrapping 64-bit words. */
module Words {
  import opened Bytes
  import opened NumberTheory

  const TWO_64 := 0x1_0000_0000_0000_0000
  type u64 = v: int | 0 <= v < 0x1_0000_0000_0000_0000

  // ---- word arithmetic

  function Wrap(v: int): u64 { v % TWO_64 }

  function AddMod(a: u64, b: u64, n: u64): (r: u64)
    ensures a < n && b < n ==> r == (a + b) % n
  {
    var sum := Wrap(a + b);
    if sum < a || sum >= n then
      AddModExact(a, b, n);
      Wrap(sum - n)
    else
      AddModExact(a, b, n);
      sum
  }

  /** The comparison `sum < a` is true exactly when the addition wrapped. */
  lemma AddModExact(a: u64, b: u64, n: u64)
    ensures Wrap(a + b) < a <==> a + b >= TWO_64
    ensures a < n && b < n ==>
      (a + b) % n == if Wrap(a + b) < a || Wrap(a + b) >= n then Wrap(Wrap(a + b) - n) else Wrap(a + b)
  {
    if a < n && b < n {
      ModOnce(a + b, n);
    }
  }

  function Mul64(a: u64, b: u64): (r: (u64, u64))
    ensures r.0 * TWO_64 + r.1 == a * b
  {
    MulWordBound(a, b);
    (a * b / TWO_64, a * b % TWO_64)
  }

  lemma MulWordBound(a: u64, b: u64)
    ensures 0 <= a * b / TWO_64 < TWO_64
  {
    MulLe(a, TWO_64 - 1, b);
    assert (TWO_64 - 1) * b < TWO_64 * TWO_64;
  }

  /** The hardware division panics unless the divisor exceeds the high word. */
  function Div64(hi: u64, lo: u64, n: u64): (r: (u64, u64))
    requires n > hi
    ensures r.0 * n + r.1 == hi * TWO_64 + lo && r.1 < n
  {
    var v := hi * TWO_64 + lo;
    DivWordBound(v, n);
    (v / n, v % n)
  }

  lemma DivWordBound(v: nat, n: nat)
    requires n > 0 && v < n * TWO_64
    ensures v / n < TWO_64 && v % n < n && (v / n) * n + v % n == v
  {
    DivLess(v, n, TWO_64);
  }

  function MulMod(a: u64, b: u64, n: u64): (r: u64)
    requires n > 0
    ensures r == (a * b) % n && r < n
  {
    var (hi, lo) := Mul64(a, b);
    MulModExact(hi, lo, n);
    Div64(hi % n, lo, n).1
  }

  lemma MulModExact(hi: u64, lo: u64, n: u64)
    requires n > 0
    ensures hi % n < n && Div64(hi % n, lo, n).1 == (hi * TWO_64 + lo) % n
  {
    var v := (hi % n) * TWO_64 + lo;
    assert hi * TWO_64 + lo == v + ((hi / n) * TWO_64) * n by {
      assert hi == (hi / n) * n + hi % n;
      assert hi * TWO_64 == ((hi / n) * n) * TWO_64 + (hi % n) * TWO_64;
    }
    ModAdd(v, (hi / n) * TWO_64, n);
  }

  function Diff(a: u64, b: u64): (d: u64)
    ensures d == a - b || d == b - a
  {
    if a > b then a - b else b - a
  }

  function Next(x: u64, c: u64, n: u64): (y: u64)
    requires n > 0
    ensures c < n ==> y == (x * x + c) % n && y < n
  {
    var s := MulMod(x, x, n);
    assert c < n ==> (s + c) % n == (x * x + c) % n by { NextExact(x * x, c, n); }
    AddMod(s, c, n)
  }

  lemma NextExact(s: nat, c: nat, n: nat)
    requires n > 0
    ensures (s % n + c) % n == (s + c) % n
  {
    assert s == (s / n) * n + s % n;
    ModAdd(s % n + c, s / n, n);
  }

  method GcdWords(a0: u64, b0: u64) returns (a: u64)
    ensures a == Gcd(a0, b0)
  {
    var b: u64 := b0;
    a := a0;
    while b != 0
      invariant Gcd(a, b) == Gcd(a0, b0)
      decreases b
    {
      ModRange(a, b);
      a, b := b, a % b;
    }
  }
}
