/** Divisibility, greatest common divisors and residues. */
module NumberTheory {
  function Times(d: int, k: int): int { d * k }

  ghost predicate Divides(d: nat, a: nat) {
    exists k: nat :: Times(d, k) == a
  }

  /** Euclid's recursion. GcdIsGreatest below says what it computes. */
  function Gcd(a: nat, b: nat): (g: nat)
    ensures a + b > 0 ==> g > 0
    decreases b
  {
    if b == 0 then a else Gcd(b, a % b)
  }

  lemma DividesLinear(d: nat, a: nat, b: nat, x: int, y: int)
    requires Divides(d, a) && Divides(d, b) && a * x + b * y >= 0
    ensures Divides(d, a * x + b * y)
  {
    var i: nat :| Times(d, i) == a;
    var j: nat :| Times(d, j) == b;
    var k := i * x + j * y;
    calc {
      Times(d, k);
      d * (i * x + j * y);
      d * (i * x) + d * (j * y);
      (d * i) * x + (d * j) * y;
      a * x + b * y;
    }
    if k < 0 {
      if d == 0 {
        assert Times(d, 0) == a * x + b * y;
      } else {
        MulSign(d, k);
      }
    }
  }

  lemma MulSign(d: nat, k: int)
    requires d > 0 && k < 0
    ensures d * k < 0
  {}

  lemma {:induction false} GcdDivides(a: nat, b: nat)
    ensures Divides(Gcd(a, b), a) && Divides(Gcd(a, b), b)
    decreases b
  {
    if b == 0 {
      assert Times(a, 1) == a && Times(a, 0) == b;
    } else {
      var g := Gcd(b, a % b);
      GcdDivides(b, a % b);
      assert b * (a / b) + (a % b) * 1 == a;
      DividesLinear(g, b, a % b, a / b, 1);
    }
  }

  lemma {:induction false} Bezout(a: nat, b: nat) returns (x: int, y: int)
    ensures a * x + b * y == Gcd(a, b)
    decreases b
  {
    if b == 0 {
      x, y := 1, 0;
    } else {
      var u, v := Bezout(b, a % b);
      x, y := v, u - (a / b) * v;
      BezoutStep(b, a / b, a % b, u, v);
    }
  }

  lemma BezoutStep(b: int, q: int, r: int, u: int, v: int)
    ensures (b * q + r) * v + b * (u - q * v) == b * u + r * v
  {
    assert (b * q + r) * v == (b * q) * v + r * v;
    assert b * (u - q * v) == b * u - b * (q * v);
  }

  /** Every common divisor divides the gcd, so among common divisors it is greatest. */
  lemma GcdIsGreatest(a: nat, b: nat, d: nat)
    requires Divides(d, a) && Divides(d, b)
    ensures Divides(d, Gcd(a, b))
  {
    var x, y := Bezout(a, b);
    DividesLinear(d, a, b, x, y);
  }

  lemma DividesLe(d: nat, a: nat)
    requires Divides(d, a) && a > 0
    ensures 0 < d <= a
  {
    var k: nat :| Times(d, k) == a;
    assert k > 0;
    if d == 0 {} else { MulGe(d, k); }
  }

  lemma MulGe(d: nat, k: nat)
    requires k > 0
    ensures d * k >= d
  {}

  lemma MutualDivides(d: nat, e: nat)
    requires Divides(d, e) && Divides(e, d)
    ensures d == e
  {
    if d > 0 { DividesLe(e, d); }
    if e > 0 { DividesLe(d, e); }
  }

  lemma DividesTimes(d: nat, a: nat, b: nat)
    requires Divides(d, b)
    ensures Divides(d, a * b)
  {
    DividesLinear(d, b, b, a, 0);
  }

  /** A factor coprime to `n` leaves the gcd with `n` alone. */
  lemma GcdMulCoprime(a: nat, b: nat, n: nat, ab: nat)
    requires ab == a * b && Gcd(a, n) == 1
    ensures Gcd(ab, n) == Gcd(b, n)
  {
    GcdMulForward(a, b, n, ab);
    GcdMulBack(a, b, n, ab);
    MutualDivides(Gcd(b, n), Gcd(ab, n));
  }

  lemma GcdMulForward(a: nat, b: nat, n: nat, ab: nat)
    requires ab == a * b
    ensures Divides(Gcd(b, n), Gcd(ab, n))
  {
    GcdDivides(b, n);
    DividesTimes(Gcd(b, n), a, b);
    GcdIsGreatest(ab, n, Gcd(b, n));
  }

  lemma GcdMulBack(a: nat, b: nat, n: nat, ab: nat)
    requires ab == a * b && Gcd(a, n) == 1
    ensures Divides(Gcd(ab, n), Gcd(b, n))
  {
    GcdDivides(ab, n);
    CoprimeCancels(a, b, n, Gcd(ab, n));
    GcdIsGreatest(b, n, Gcd(ab, n));
  }

  lemma CoprimeCancels(a: nat, b: nat, n: nat, e: nat)
    requires Gcd(a, n) == 1 && Divides(e, a * b) && Divides(e, n)
    ensures Divides(e, b)
  {
    var x, y := Bezout(a, n);
    ScaleBezout(a, b, n, x, y);
    DividesLinear(e, a * b, n, x, b * y);
  }

  lemma ScaleBezout(a: int, b: int, n: int, x: int, y: int)
    requires a * x + n * y == 1
    ensures (a * b) * x + n * (b * y) == b
  {
    assert (a * b) * x == b * (a * x);
    assert n * (b * y) == b * (n * y);
    assert b * (a * x) + b * (n * y) == b * (a * x + n * y);
  }

  /** A product is coprime to `n` exactly when both factors are. */
  lemma CoprimeProduct(a: nat, b: nat, n: nat, ab: nat)
    requires ab == a * b
    ensures Gcd(ab, n) == 1 <==> Gcd(a, n) == 1 && Gcd(b, n) == 1
  {
    if Gcd(a, n) == 1 {
      GcdMulCoprime(a, b, n, ab);
    } else if Gcd(ab, n) == 1 {
      var d := Gcd(a, n);
      GcdDivides(a, n);
      DividesTimes(d, b, a);
      GcdIsGreatest(ab, n, d);
      DividesLe(d, 1);
    }
  }

  lemma GcdMod(a: nat, n: nat)
    requires n > 0
    ensures Gcd(a % n, n) == Gcd(a, n)
  {
    ModBelow(a % n, n);
  }

  lemma ModBelow(r: nat, n: nat)
    requires r < n
    ensures r % n == r
  {}

  lemma ModOnce(v: nat, n: nat)
    requires v < 2 * n
    ensures v % n == if v >= n then v - n else v
  {
    if v >= n {
      ModAdd(v - n, 1, n);
      ModBelow(v - n, n);
    } else {
      ModBelow(v, n);
    }
  }

  lemma ModRange(v: nat, n: nat)
    requires n > 0
    ensures 0 <= v % n < n
  {}

  lemma MulLe(a: nat, c: nat, b: nat)
    requires a <= c
    ensures 0 <= a * b <= c * b
  {}

  lemma DivLess(v: nat, n: nat, t: nat)
    requires v < n * t
    ensures n > 0 && v / n < t
  {}

  /** Adding a multiple of `n` keeps the residue. */
  lemma {:induction false} ModAdd(a: int, k: int, n: int)
    requires n > 0
    ensures (a + k * n) % n == a % n
  {
    var q, r := (a + k * n) / n, (a + k * n) % n;
    var q', r' := a / n, a % n;
    assert (q - q' - k) * n == r' - r by {
      assert (q - q' - k) * n == q * n - q' * n - k * n;
    }
    MultipleBelow(q - q' - k, n, r' - r);
  }

  lemma MultipleBelow(k: int, n: int, d: int)
    requires n > 0 && k * n == d && -n < d < n
    ensures d == 0
  {}

  lemma ModMul(a: int, b: int, n: int)
    requires n > 0
    ensures ((a % n) * b) % n == (a * b) % n
  {
    assert a * b == (a % n) * b + ((a / n) * b) * n by {
      assert a == (a / n) * n + a % n;
      assert a * b == ((a / n) * n) * b + (a % n) * b;
    }
    ModAdd((a % n) * b, (a / n) * b, n);
  }

  lemma GcdSymmetric(a: nat, b: nat)
    ensures Gcd(a, b) == Gcd(b, a)
  {
    GcdDivides(a, b);
    GcdDivides(b, a);
    GcdIsGreatest(a, b, Gcd(b, a));
    GcdIsGreatest(b, a, Gcd(a, b));
    MutualDivides(Gcd(a, b), Gcd(b, a));
  }

  ghost predicate IsPrime(p: nat) {
    p > 1 && forall d: nat :: Divides(d, p) ==> d == 1 || d == p
  }

  /** Euclid's lemma. */
  lemma PrimeDividesProduct(p: nat, a: nat, b: nat)
    requires IsPrime(p) && Divides(p, a * b)
    ensures Divides(p, a) || Divides(p, b)
  {
    var g := Gcd(p, a);
    GcdDivides(p, a);
    if g == 1 {
      var x, y := Bezout(p, a);
      assert Times(p, 1) == p;
      GcdSymmetric(p, a);
      CoprimeCancels(a, b, p, p);
    }
  }
}
