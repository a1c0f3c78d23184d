/** Modular exponentiation and the agreement it gives. */
module ModExp {
  import opened NumberTheory

  function Pow(g: nat, e: nat): nat {
    if e == 0 then 1 else g * Pow(g, e - 1)
  }

  /** g^e mod m. */
  function Exp(g: nat, e: nat, m: nat): (r: nat)
    requires m > 0
    ensures r < m
  {
    Pow(g, e) % m
  }

  lemma {:induction false} PowMod(x: nat, e: nat, m: nat)
    requires m > 0
    ensures Pow(x % m, e) % m == Pow(x, e) % m
  {
    if e > 0 {
      var y, z: nat, w: nat := x % m, Pow(x % m, e - 1), Pow(x, e - 1);
      PowMod(x, e - 1, m);
      calc {
        (y * z) % m;
        { ModMul(x, z, m); }
        (x * z) % m;
        { Swap(x, z); ModMul(z, x, m); }
        ((z % m) * x) % m;
        { ModMul(w, x, m); Swap(w, x); }
        (x * w) % m;
      }
    }
  }

  lemma Swap(a: int, b: int)
    ensures a * b == b * a
  {}

  lemma {:induction false} PowMul(g: nat, a: nat, b: nat)
    ensures Pow(Pow(g, a), b) == Pow(g, a * b)
    decreases b
  {
    if b == 0 {
      assert a * b == 0;
    } else {
      PowMul(g, a, b - 1);
      assert a * b == a + a * (b - 1);
      PowAdd(g, a, a * (b - 1));
    }
  }

  lemma {:induction false} PowAdd(g: nat, a: nat, b: nat)
    ensures Pow(g, a + b) == Pow(g, a) * Pow(g, b)
    decreases a
  {
    if a > 0 {
      PowAdd(g, a - 1, b);
      Assoc(g, Pow(g, a - 1), Pow(g, b));
    }
  }

  lemma Assoc(g: int, x: int, y: int)
    ensures g * (x * y) == (g * x) * y
  {}

  /** Raising the other side's power to one's own exponent gives both sides the same residue. */
  lemma Agreement(g: nat, a: nat, b: nat, m: nat)
    requires m > 0
    ensures Exp(Exp(g, a, m), b, m) == Exp(Exp(g, b, m), a, m)
  {
    PowMod(Pow(g, a), b, m);
    PowMod(Pow(g, b), a, m);
    PowMul(g, a, b);
    PowMul(g, b, a);
    Swap(a, b);
  }

  /** What makes it exponentiation: the first two powers, and sums of exponents. */
  lemma ExpLaws(g: nat, a: nat, b: nat, m: nat)
    requires m > 0
    ensures Exp(g, 0, m) == 1 % m && Exp(g, 1, m) == g % m
    ensures Exp(g, a + b, m) == (Exp(g, a, m) * Exp(g, b, m)) % m
  {
    assert Pow(g, 1) == g * Pow(g, 0) == g;
    PowAdd(g, a, b);
    var x, y := Pow(g, a), Pow(g, b);
    ModMul(x, y, m);
    Swap(x % m, y);
    ModMul(y, x % m, m);
    Swap(y % m, x % m);
  }
}
