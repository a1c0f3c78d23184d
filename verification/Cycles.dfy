/**
 * Why internal/mtproto/factorize.go finds factors: modulo a hidden divisor of n the walk
 * runs into a cycle, and the doubling rounds compare two points of it.
 */
module Cycles {
  import opened Bytes
  import opened NumberTheory
  import opened Words
  import opened Wrappers
  import opened Factorize

  // ---- residues of the walk

  /** Reducing modulo n first does not change the residue modulo a divisor of n. */
  lemma ModDivisor(v: nat, n: nat, d: nat)
    requires n > 0 && d > 0 && Divides(d, n)
    ensures (v % n) % d == v % d
  {
    var k: nat :| Times(d, k) == n;
    var q := v / n;
    assert v == n * q + v % n;
    assert n * q == (q * k) * d by { assert (d * k) * q == (q * k) * d; }
    ModAdd(v % n, q * k, d);
  }

  lemma SquareResidue(x: nat, y: nat, c: nat, d: nat)
    requires d > 0 && x % d == y % d
    ensures (x * x + c) % d == (y * y + c) % d
  {
    ModMul(x, x, d);
    ModMul(y, x, d);
    ModMul(x, y, d);
    ModMul(y, y, d);
    assert (x % d) * x == x * (x % d) && x * y == y * x;
    NextExact(x * x, c, d);
    NextExact(y * y, c, d);
  }

  /** Points that agree modulo d are followed by points that agree modulo d. */
  lemma StepResidue(w: Walk, c: u64, d: nat, a: nat, b: nat)
    requires w.Valid() && w.Follows(w.n, c) && c < w.n && d > 0 && Divides(d, w.n)
    requires Point(w, a) % d == Point(w, b) % d
    ensures Point(w, a + 1) % d == Point(w, b + 1) % d
  {
    hide Next, Divides;
    var x, y := Point(w, a), Point(w, b);
    SquareResidue(x, y, c, d);
    ModDivisor(x * x + c, w.n, d);
    ModDivisor(y * y + c, w.n, d);
    assert Point(w, a + 1) == Next(x, c, w.n) && Point(w, b + 1) == Next(y, c, w.n);
  }

  lemma {:induction false} CycleResidue(w: Walk, c: u64, d: nat, mu: nat, la: nat, t: nat)
    requires w.Valid() && w.Follows(w.n, c) && c < w.n && d > 0 && Divides(d, w.n)
    requires Point(w, mu) % d == Point(w, mu + la) % d
    ensures Point(w, mu + t) % d == Point(w, mu + la + t) % d
  {
    hide Point, Walk.Follows, Next, Divides;
    if t > 0 {
      CycleResidue(w, c, d, mu, la, t - 1);
      StepResidue(w, c, d, mu + t - 1, mu + la + t - 1);
    }
  }

  /** From mu on, points a multiple of la apart agree modulo d. */
  lemma {:induction false} CycleRepeats(w: Walk, c: u64, d: nat, mu: nat, la: nat, i: nat, k: nat, kla: nat)
    requires w.Valid() && w.Follows(w.n, c) && c < w.n && d > 0 && Divides(d, w.n)
    requires Point(w, mu) % d == Point(w, mu + la) % d && mu <= i && kla == k * la
    ensures Point(w, i) % d == Point(w, i + kla) % d
    decreases k
  {
    hide Point, Walk.Follows, Next, Divides;
    if k > 0 {
      assert kla - la == (k - 1) * la;
      CycleRepeats(w, c, d, mu, la, i, k - 1, kla - la);
      CycleResidue(w, c, d, mu, la, i + (kla - la) - mu);
    }
  }

  /** Among p consecutive offsets behind p there is a multiple of every period up to p. */
  lemma MultipleBehind(p: nat, la: nat) returns (k: nat)
    requires 1 <= la <= p
    ensures p < k * la <= 2 * p
  {
    var q := p / la;
    k := q + 1;
    assert p == la * q + p % la;
    assert k * la == la * q + la;
  }

  /**
   * As soon as a round starts on the cycle modulo a hidden divisor d and is at least as
   * long as the period, the attempt yields something other than 1.
   */
  lemma CycleFound(w: Walk, c: u64, d: nat, mu: nat, la: nat, j: nat)
    requires w.Valid() && w.Follows(w.n, c) && c < w.n && d > 1 && Divides(d, w.n)
    requires Point(w, mu) % d == Point(w, mu + la) % d
    requires j <= 17 && mu <= RoundStart(j) && 1 <= la <= Pow2(j)
    ensures Outcome(w, 0, 0) > 1
  {
    hide Point, Walk.Follows, Divides, Outcome;
    var k := MultipleBehind(Pow2(j), la);
    CycleRepeats(w, c, d, mu, la, RoundStart(j), k, k * la);
    CollisionFound(w, d, j, RoundStart(j) + k * la);
  }

  // ---- the pigeonhole

  ghost predicate Injective(rs: seq<nat>) {
    forall a, b :: 0 <= a < b < |rs| ==> rs[a] != rs[b]
  }

  lemma {:induction false} FewValues(rs: seq<nat>, d: nat)
    requires Injective(rs) && forall i :: 0 <= i < |rs| ==> rs[i] < d
    ensures |rs| <= d
    decreases d
  {
    assert |rs| > 0 ==> rs[0] < d;
    if k :| 0 <= k < |rs| && rs[k] == d - 1 {
      var rest := rs[..k] + rs[k + 1..];
      assert forall a :: 0 <= a < |rest| ==> rest[a] == if a < k then rs[a] else rs[a + 1];
      FewValues(rest, d - 1);
    } else if d > 0 {
      FewValues(rs, d - 1);
    }
  }

  /** The first d + 1 points cannot all differ modulo d. */
  lemma SomeRepetition(w: Walk, d: nat) returns (mu: nat, la: nat)
    requires w.Valid() && d > 0
    ensures la >= 1 && mu + la <= d && Point(w, mu) % d == Point(w, mu + la) % d
  {
    hide Point;
    var rs := seq(d + 1, i requires 0 <= i < d + 1 => Residue(w, i, d));
    if Injective(rs) {
      FewValues(rs, d);
      assert false;
    }
    var a, b :| 0 <= a < b < |rs| && rs[a] == rs[b];
    return a, b - a;
  }

  ghost function Residue(w: Walk, i: nat, d: nat): (r: nat)
    requires w.Valid() && d > 0
    ensures r == Point(w, i) % d && r < d
  {
    ModRange(Point(w, i), d);
    Point(w, i) % d
  }

  /** So every n with a divisor of up to 2^17 is never given back as 1, whatever the random words. */
  lemma SmallDivisorFound(n: u64, d: nat, ry: u64, rc: u64)
    requires n > 3 && 1 < d <= 0x2_0000 && Divides(d, n)
    ensures Outcome(WalkOf(n, ry, rc), 0, 0) > 1
  {
    hide Point, Divides, Outcome, Next;
    var w := WalkOf(n, ry, rc);
    var mu, la := SomeRepetition(w, d);
    SeventeenthRound();
    CycleFound(w, Seeded(rc, n), d, mu, la, 17);
  }

  lemma SeventeenthRound()
    ensures Pow2(17) == 0x2_0000 && RoundStart(17) == 0x4_0000 - 2
  {
    var a, b := Pow2(5), Pow2(10);
    assert a == 32 && b == 32 * a && Pow2(15) == 32 * b && Pow2(17) == 4 * Pow2(15);
  }

  // ---- when an attempt yields 1

  /** The round and the position of the first batch that is not quiet. */
  ghost function FirstBatch(w: Walk, j: nat, k: nat): (r: Option<(nat, nat)>)
    requires w.Valid()
    ensures
      r.Some? ==>
        && r.value.0 < ROUNDS && r.value.1 < Pow2(r.value.0)
        && !Quiet(w, r.value.0, CompareStart(r.value.0) + r.value.1, BatchEnd(r.value.0, r.value.1))
    decreases ROUNDS - j, Pow2(j) - k
  {
    if j >= ROUNDS then None
    else if k >= Pow2(j) then FirstBatch(w, j + 1, 0)
    else if Quiet(w, j, CompareStart(j) + k, BatchEnd(j, k)) then FirstBatch(w, j, k + BATCH)
    else Some((j, k))
  }

  lemma {:induction false} OutcomeOfFirst(w: Walk, j: nat, k: nat)
    requires w.Valid()
    ensures
      Outcome(w, j, k) ==
        match FirstBatch(w, j, k)
        case None => 1
        case Some(at) => Settle(w, at.0, CompareStart(at.0) + at.1, BatchEnd(at.0, at.1))
    decreases ROUNDS - j, Pow2(j) - k
  {
    hide Quiet, Settle;
    if j < ROUNDS {
      if k >= Pow2(j) {
        OutcomeOfFirst(w, j + 1, 0);
      } else if Quiet(w, j, CompareStart(j) + k, BatchEnd(j, k)) {
        OutcomeOfFirst(w, j, k + BATCH);
      }
    }
  }

  /**
   * An attempt yields 1 in exactly two cases: no compared point of any round shares a
   * factor with n, or the first batch with one that does has gcd n and its replay is
   * over budget.
   */
  lemma OutcomeIsOneExactly(w: Walk)
    requires w.Valid()
    ensures
      Outcome(w, 0, 0) == 1 <==>
        match FirstBatch(w, 0, 0)
        case None => true
        case Some(at) =>
          var lo, hi := CompareStart(at.0) + at.1, BatchEnd(at.0, at.1);
          Gcd(Product(w, at.0, lo, hi), w.n) == w.n && hi + (FirstMeeting(w, at.0, lo, hi) - lo - 1) > BRENT_BUDGET
  {
    hide Outcome, Settle, Quiet, Gcd, Product, FirstMeeting, FirstBatch;
    OutcomeOfFirst(w, 0, 0);
    if FirstBatch(w, 0, 0).Some? {
      var at := FirstBatch(w, 0, 0).value;
      SettleExactly(w, at.0, CompareStart(at.0) + at.1, BatchEnd(at.0, at.1));
    }
  }
}
