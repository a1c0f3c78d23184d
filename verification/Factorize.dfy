/** internal/mtproto/factorize.go: Brent's cycle finder and the factorisation of pq. */
module Factorize {
  import opened Bytes
  import opened NumberTheory
  import opened Words
  import opened Wrappers

  const BRENT_BUDGET := 0x10_0000
  const BATCH := 128
  const ROUNDS := 20

  // ---- what the walk is

  /** The modulus, the map x -> x^2 + c mod n and the first point of one attempt. */
  datatype Walk = Walk(n: u64, step: u64 -> u64, y0: u64) {
    ghost predicate Valid() {
      n > 3 && y0 < n && forall x: u64 :: step(x) < n
    }

    ghost predicate Follows(m: u64, c: u64)
      requires m > 0
    {
      n == m && forall x: u64 :: step(x) == Next(x, c, m)
    }
  }

  /** The i-th point of the walk. */
  ghost function Point(w: Walk, i: nat): (p: u64)
    requires w.Valid()
    ensures p < w.n
  {
    if i == 0 then w.y0 else w.step(Point(w, i - 1))
  }

  /** Round j starts at this point and compares it with the last 2^j points of the round. */
  ghost function RoundStart(j: nat): nat { 2 * Pow2(j) - 2 }

  ghost function CompareStart(j: nat): nat { 3 * Pow2(j) - 2 }

  ghost function Gap(w: Walk, j: nat, i: nat): (d: u64)
    requires w.Valid()
    ensures d < w.n
  {
    Diff(Point(w, RoundStart(j)), Point(w, i))
  }

  /** Point i shares a factor of n with the round's fixed point. */
  ghost predicate Meets(w: Walk, j: nat, i: nat)
    requires w.Valid()
  {
    Gcd(Gap(w, j, i), w.n) > 1
  }

  ghost predicate Quiet(w: Walk, j: nat, lo: nat, hi: nat)
    requires w.Valid()
  {
    forall i | lo < i <= hi :: !Meets(w, j, i)
  }

  /** The product of the gaps of points lo+1 .. hi. */
  ghost function Product(w: Walk, j: nat, lo: nat, hi: nat): nat
    requires w.Valid() && lo <= hi
    decreases hi - lo
  {
    if lo == hi then 1 else Product(w, j, lo, hi - 1) * Gap(w, j, hi)
  }

  ghost function FirstMeeting(w: Walk, j: nat, lo: nat, hi: nat): (i: nat)
    requires w.Valid() && !Quiet(w, j, lo, hi)
    ensures lo < i <= hi && Meets(w, j, i) && Quiet(w, j, lo, i - 1)
    decreases hi - lo
  {
    if Meets(w, j, lo + 1) then lo + 1 else FirstMeeting(w, j, lo + 1, hi)
  }

  ghost function BatchEnd(j: nat, k: nat): nat
    requires k < Pow2(j)
  {
    CompareStart(j) + k + if BATCH < Pow2(j) - k then BATCH else Pow2(j) - k
  }

  /**
   * What a batch that is not quiet yields. Its gaps are multiplied together; when that
   * product is a multiple of n the first meeting point alone decides, if the budget
   * still allows walking to it again.
   */
  ghost function Settle(w: Walk, j: nat, lo: nat, hi: nat): u64
    requires w.Valid() && lo <= hi && !Quiet(w, j, lo, hi)
  {
    var whole := Gcd(Product(w, j, lo, hi), w.n);
    GcdBound(Product(w, j, lo, hi), w.n);
    if whole < w.n then
      whole
    else
      var i := FirstMeeting(w, j, lo, hi);
      GcdBound(Gap(w, j, i), w.n);
      if hi + (i - lo - 1) <= BRENT_BUDGET then Gcd(Gap(w, j, i), w.n) else 1
  }

  /** The first batch, from batch k of round j on, that is not quiet decides. */
  ghost function Outcome(w: Walk, j: nat, k: nat): u64
    requires w.Valid()
    decreases ROUNDS - j, Pow2(j) - k
  {
    if j >= ROUNDS then 1
    else if k >= Pow2(j) then Outcome(w, j + 1, 0)
    else
      var lo, hi := CompareStart(j) + k, BatchEnd(j, k);
      if Quiet(w, j, lo, hi) then Outcome(w, j, k + BATCH) else Settle(w, j, lo, hi)
  }

  lemma GcdBound(a: nat, n: nat)
    requires n > 0
    ensures 1 <= Gcd(a, n) <= n && Divides(Gcd(a, n), n)
  {
    GcdDivides(a, n);
    DividesLe(Gcd(a, n), n);
  }

  // ---- the batched product

  /** A batch's product is coprime to n exactly when none of its points meets. */
  lemma {:induction false} ProductCoprime(w: Walk, j: nat, lo: nat, hi: nat)
    requires w.Valid() && lo <= hi
    ensures Gcd(Product(w, j, lo, hi), w.n) == 1 <==> Quiet(w, j, lo, hi)
    decreases hi - lo
  {
    hide Gcd, Point, Gap;
    if lo == hi {
      GcdOne(w.n);
    } else {
      var p, d := Product(w, j, lo, hi - 1), Gap(w, j, hi);
      ProductCoprime(w, j, lo, hi - 1);
      CoprimeProduct(p, d, w.n, p * d);
      GcdBound(d, w.n);
      assert Quiet(w, j, lo, hi) <==> Quiet(w, j, lo, hi - 1) && !Meets(w, j, hi);
    }
  }

  lemma GcdOne(n: nat)
    requires n > 1
    ensures Gcd(1, n) == 1
  {
    GcdDivides(1, n);
    DividesLe(Gcd(1, n), 1);
  }

  /** `q` is the carried product: the start `q0` times the batch's own product. */
  ghost predicate Congruent(q: u64, q0: u64, p: nat, n: u64)
    requires n > 0
  {
    q % n == (q0 * p) % n
  }

  lemma CarriedStart(q0: u64, n: u64)
    requires n > 0
    ensures Congruent(q0, q0, 1, n)
  {
    assert q0 * 1 == q0;
  }

  /** A start coprime to n changes no gcd, so products may be carried over batches. */
  lemma CarriedProduct(q0: u64, p: nat, q: u64, n: u64)
    requires n > 0 && Gcd(q0, n) == 1 && Congruent(q, q0, p, n)
    ensures Gcd(q, n) == Gcd(p, n)
  {
    var x: nat := q0 * p;
    GcdMod(x, n);
    GcdMod(q, n);
    GcdMulCoprime(q0, p, n, x);
  }

  lemma ExtendCongruent(q0: u64, p: nat, q: u64, d: u64, n: u64)
    requires n > 0 && Congruent(q, q0, p, n)
    ensures Congruent(MulMod(q, d, n), q0, p * d, n)
  {
    ModMul(q, d, n);
    ModMul(q0 * p, d, n);
    assert (q0 * p) * d == q0 * (p * d);
    ModBelow(MulMod(q, d, n), n);
  }

  lemma Pow2Rounds()
    ensures Pow2(ROUNDS) == 0x10_0000
  {
    var a, b, c := Pow2(5), Pow2(10), Pow2(15);
    assert a == 32;
    assert b == 32 * a;
    assert c == 32 * b;
    assert Pow2(20) == 32 * c;
  }

  lemma Pow2Small(j: nat)
    requires j <= ROUNDS
    ensures Pow2(j) <= 0x10_0000
    ensures Pow2(j) == 0x10_0000 <==> j == ROUNDS
  {
    Pow2Grows(j, ROUNDS);
    Pow2Rounds();
  }

  lemma {:induction false} Pow2Grows(j: nat, k: nat)
    requires j <= k
    ensures Pow2(j) <= Pow2(k)
    ensures j < k ==> Pow2(j) < Pow2(k)
    decreases k - j
  {
    if j < k {
      Pow2Grows(j + 1, k);
    }
  }

  // ---- the algorithm

  /** A random word brought into 1 .. n-1. */
  function Seeded(word: u64, n: u64): (v: u64)
    requires n > 3
    ensures 1 <= v < n
  {
    ModRange(word, n - 1);
    word % (n - 1) + 1
  }

  /** The walk that two words from the random source select. */
  ghost function WalkOf(n: u64, ry: u64, rc: u64): (w: Walk)
    requires n > 3
    ensures w.Valid()
  {
    var c := Seeded(rc, n);
    Walk(n, (x: u64) => Next(x, c, n), Seeded(ry, n))
  }

  /** Where the doubling rounds stand when a batch has produced a gcd other than 1. */
  ghost predicate Found(w: Walk, j: nat, lo: nat, hi: nat, g: u64, x: u64, ys: u64)
    requires w.Valid()
  {
    && lo <= hi <= 0x20_0000 - 2
    && !Quiet(w, j, lo, hi)
    && g == Gcd(Product(w, j, lo, hi), w.n)
    && x == Point(w, RoundStart(j)) && ys == Point(w, lo)
    && Outcome(w, 0, 0) == Settle(w, j, lo, hi)
  }

  /** Every value computed before the next doubling round begins. */
  ghost predicate Searching(w: Walk, j: nat, k: nat, at: nat, y: u64, q: u64, steps: nat)
    requires w.Valid()
  {
    && steps == at && y == Point(w, at)
    && Gcd(q, w.n) == 1
    && Outcome(w, 0, 0) == Outcome(w, j, k)
  }

  /** Lines 45-48: advance without comparing. */
  method Advance(ghost w: Walk, n: u64, c: u64, r: u64, y0: u64, ghost at: nat) returns (y: u64)
    requires n > 0 && w.Valid() && w.Follows(n, c) && y0 == Point(w, at)
    ensures y == Point(w, at + r)
  {
    hide Next;
    y := y0;
    for i := 0 to r
      invariant y == Point(w, at + i)
    {
      y := Next(y, c, n);
    }
  }

  /** Lines 51-57: multiply one batch of gaps into q and take the gcd. */
  method Batch(ghost w: Walk, n: u64, c: u64, x: u64, size: u64, y0: u64, q0: u64, ghost j: nat, ghost lo: nat)
    returns (y: u64, q: u64, g: u64)
    requires n > 0 && w.Valid() && w.Follows(n, c)
    requires x == Point(w, RoundStart(j)) && y0 == Point(w, lo) && Gcd(q0, n) == 1
    ensures y == Point(w, lo + size) && g == Gcd(q, n) == Gcd(Product(w, j, lo, lo + size), n)
    ensures g == 1 <==> Quiet(w, j, lo, lo + size)
  {
    hide Next, Gcd, MulMod, Diff, Quiet, Congruent;
    y, q := y0, q0;
    CarriedStart(q0, n);
    for t := 0 to size
      invariant y == Point(w, lo + t)
      invariant Congruent(q, q0, Product(w, j, lo, lo + t), n)
    {
      y := Next(y, c, n);
      ExtendCongruent(q0, Product(w, j, lo, lo + t), q, Gap(w, j, lo + t + 1), n);
      q := MulMod(q, Diff(x, y), n);
    }
    CarriedProduct(q0, Product(w, j, lo, lo + size), q, n);
    ProductCoprime(w, j, lo, lo + size);
    g := GcdWords(q, n);
  }

  /** Lines 62-72: walk the batch again from ys, one gcd per point. */
  method Replay(ghost w: Walk, n: u64, c: u64, x: u64, ys0: u64, steps0: nat, ghost j: nat, ghost lo: nat)
    returns (g: u64, steps: nat)
    requires n > 0 && w.Valid() && w.Follows(n, c)
    requires Found(w, j, lo, steps0, n, x, ys0)
    ensures g == Outcome(w, 0, 0)
    ensures steps <= 0x20_0000 - 2
  {
    hide Next, Gcd, Product, Quiet, Found, Settle, Outcome, FirstMeeting;
    ReplayTarget(w, j, lo, steps0, x, ys0);
    ghost var first := FirstMeeting(w, j, lo, steps0);
    ghost var t := 0;
    var ys := ys0;
    g, steps := 1, steps0;
    while g == 1
      invariant lo + t <= first && steps == steps0 + t && ys == Point(w, lo + t)
      invariant g == 1 ==> lo + t < first
      invariant g != 1 ==> lo + t == first && steps0 + t - 1 <= BRENT_BUDGET && g == Gcd(Gap(w, j, first), n)
      invariant steps <= 0x20_0000 - 2
      decreases g == 1, first - lo - t
    {
      if steps > BRENT_BUDGET {
        return 1, steps;
      }
      ys := Next(ys, c, n);
      g := GcdWords(Diff(x, ys), n);
      steps, t := steps + 1, t + 1;
      GcdBound(Gap(w, j, lo + t), n);
      QuietBefore(w, j, lo, first, lo + t);
    }
  }

  lemma QuietBefore(w: Walk, j: nat, lo: nat, first: nat, i: nat)
    requires w.Valid() && lo < i <= first && Quiet(w, j, lo, first - 1) && Meets(w, j, first)
    ensures Meets(w, j, i) <==> i == first
  {}

  /** What the replay has to find, and when the budget lets it. */
  lemma ReplayTarget(w: Walk, j: nat, lo: nat, hi: nat, x: u64, ys: u64)
    requires w.Valid() && Found(w, j, lo, hi, w.n, x, ys)
    ensures !Quiet(w, j, lo, hi) && lo <= hi <= 0x20_0000 - 2
    ensures x == Point(w, RoundStart(j)) && ys == Point(w, lo)
    ensures
      var first := FirstMeeting(w, j, lo, hi);
      Outcome(w, 0, 0) == if hi + (first - lo - 1) <= BRENT_BUDGET then Gcd(Gap(w, j, first), w.n) else 1
  {
    hide Gcd, Outcome;
  }

  /** One batch from position k of round j either keeps the search going or settles it. */
  lemma BatchStep(w: Walk, j: nat, k: nat, size: nat)
    requires w.Valid() && j < ROUNDS && k < Pow2(j)
    requires size == if BATCH < Pow2(j) - k then BATCH else Pow2(j) - k
    requires Outcome(w, 0, 0) == Outcome(w, j, k)
    ensures
      var lo := CompareStart(j) + k;
      Outcome(w, 0, 0) == if Quiet(w, j, lo, lo + size) then Outcome(w, j, k + BATCH) else Settle(w, j, lo, lo + size)
  {}

  /** Lines 44-59: one doubling round. */
  method Round(ghost w: Walk, n: u64, c: u64, r: u64, y0: u64, q0: u64, steps0: nat, ghost j: nat)
    returns (y: u64, q: u64, g: u64, x: u64, ys: u64, steps: nat, ghost lo: nat)
    requires n > 0 && w.Valid() && w.Follows(n, c) && j < ROUNDS && r == Pow2(j)
    requires Searching(w, j, 0, RoundStart(j), y0, q0, steps0)
    ensures g == 1 ==> Searching(w, j + 1, 0, RoundStart(j + 1), y, q, steps)
    ensures g != 1 ==> Found(w, j, lo, steps, g, x, ys)
    ensures steps <= 0x20_0000 - 2
  {
    hide Next, Gcd, Product, Quiet, Point, FirstMeeting, Settle, Outcome;
    LastRound(j);
    g, q, x, ys, lo := 1, q0, y0, 0, 0;
    y := Advance(w, n, c, r, y0, RoundStart(j));
    steps := steps0 + r;

    var k: u64 := 0;
    while k < r && g == 1
      invariant k <= r + BATCH
      invariant g == 1 ==> Searching(w, j, k, CompareStart(j) + if k < r then k else r, y, q, steps)
      invariant g != 1 ==> Found(w, j, lo, steps, g, x, ys)
      decreases g == 1, r - k
    {
      var size := if BATCH < r - k then BATCH else r - k;
      ys, lo := y, steps;
      BatchStep(w, j, k, size);
      y, q, g := Batch(w, n, c, x, size, y, q, j, lo);
      steps := steps + size;
      k := k + BATCH;
    }
    if g == 1 {
      NextRound(w, j, k);
    }
  }

  lemma NextRound(w: Walk, j: nat, k: nat)
    requires w.Valid() && j < ROUNDS && k >= Pow2(j)
    ensures Outcome(w, j, k) == Outcome(w, j + 1, 0)
    ensures CompareStart(j) + Pow2(j) == RoundStart(j + 1)
  {}

  lemma SearchStart(w: Walk)
    requires w.Valid()
    ensures Searching(w, 0, 0, RoundStart(0), w.y0, 1, 0)
  {
    GcdOne(w.n);
  }

  /** Lines 40-60: doubling rounds until a gcd other than 1 or the budget ends them. */
  method Search(ghost w: Walk, n: u64, c: u64, y0: u64)
    returns (g: u64, x: u64, ys: u64, steps: nat, ghost j: nat, ghost lo: nat)
    requires n > 0 && w.Valid() && w.Follows(n, c) && w.y0 == y0
    ensures g == 1 ==> Outcome(w, 0, 0) == 1
    ensures g != 1 ==> Found(w, j, lo, steps, g, x, ys)
    ensures steps <= 0x20_0000 - 2
  {
    hide Next, Gcd, Product, Quiet, Point, FirstMeeting, Settle, Outcome, RoundStart, Searching, Found;
    var y, r: u64, q: u64 := y0, 1, 1;
    g, x, ys, steps, lo := 1, 0, 0, 0, 0;
    SearchStart(w);
    Exhausted(w);
    ghost var k := 0;
    j := 0;
    while g == 1
      invariant k <= ROUNDS
      invariant g == 1 ==> r == Pow2(k) && Searching(w, k, 0, RoundStart(k), y, q, steps)
      invariant g != 1 ==> Found(w, j, lo, steps, g, x, ys)
      invariant steps <= 0x20_0000 - 2
      decreases g == 1, ROUNDS - k
    {
      LastRound(k);
      AtRoundStart(w, k, y, q, steps);
      if steps > BRENT_BUDGET {
        return;
      }
      j := k;
      y, q, g, x, ys, steps, lo := Round(w, n, c, r, y, q, steps, k);
      WrapSmall(2 * r);
      r := Wrap(2 * r);
      k := k + 1;
    }
  }

  /**
   * Returns the outcome of the walk and the number of modular steps taken, which the
   * budget keeps below 2^21 - 1.
   */
  method Brent(n: u64, ry: u64, rc: u64) returns (factor: u64, steps: nat)
    ensures n <= 3 ==> factor == n && steps == 0
    ensures n > 3 ==> factor == Outcome(WalkOf(n, ry, rc), 0, 0)
    ensures steps <= 0x20_0000 - 2
  {
    hide Outcome, Found, Seeded;
    if n <= 3 {
      return n, 0;
    }
    var y, c := Seeded(ry, n), Seeded(rc, n);
    ghost var w := WalkOf(n, ry, rc);
    var x, ys;
    ghost var j, lo;
    factor, x, ys, steps, j, lo := Search(w, n, c, y);
    if factor != 1 {
      factor, steps := Finish(w, n, c, factor, x, ys, steps, j, lo);
    }
  }

  /** Lines 62-73: a gcd other than n is the answer, n itself calls for the replay. */
  method Finish(ghost w: Walk, n: u64, c: u64, g0: u64, x: u64, ys: u64, steps0: nat, ghost j: nat, ghost lo: nat)
    returns (g: u64, steps: nat)
    requires n > 0 && w.Valid() && w.Follows(n, c)
    requires Found(w, j, lo, steps0, g0, x, ys)
    ensures g == Outcome(w, 0, 0) && steps <= 0x20_0000 - 2
  {
    hide Next, Gcd, Product, Quiet, Point, FirstMeeting, Settle, Outcome;
    if g0 == n {
      g, steps := Replay(w, n, c, x, ys, steps0, j, lo);
    } else {
      SettleWhole(w, j, lo, steps0, g0, x, ys);
      g, steps := g0, steps0;
    }
  }

  lemma SettleWhole(w: Walk, j: nat, lo: nat, hi: nat, g: u64, x: u64, ys: u64)
    requires w.Valid() && Found(w, j, lo, hi, g, x, ys) && g != w.n
    ensures g == Outcome(w, 0, 0)
  {
    GcdBound(Product(w, j, lo, hi), w.n);
  }

  lemma AtRoundStart(w: Walk, j: nat, y: u64, q: u64, steps: nat)
    requires w.Valid() && Searching(w, j, 0, RoundStart(j), y, q, steps)
    ensures steps == RoundStart(j) && Outcome(w, 0, 0) == Outcome(w, j, 0)
  {}

  lemma WrapSmall(v: nat)
    requires v < TWO_64
    ensures Wrap(v) == v
  {}

  lemma Exhausted(w: Walk)
    requires w.Valid()
    ensures Outcome(w, ROUNDS, 0) == 1 && Pow2(0) == 1
  {}

  lemma LastRound(j: nat)
    requires j <= ROUNDS
    ensures RoundStart(j) > BRENT_BUDGET <==> j == ROUNDS
    ensures Pow2(j) <= 0x10_0000 && Pow2(j + 1) == 2 * Pow2(j)
    ensures j < ROUNDS ==> RoundStart(j + 1) <= 0x20_0000 - 2
  {
    Pow2Small(j);
    if j < ROUNDS {
      Pow2Grows(j, 19);
      Pow2Small(j + 1);
      assert Pow2(20) == 2 * Pow2(19);
      Pow2Rounds();
    }
  }

  // ---- what an attempt promises

  lemma {:induction false} OutcomeDivides(w: Walk, j: nat, k: nat)
    requires w.Valid()
    ensures 1 <= Outcome(w, j, k) <= w.n && Divides(Outcome(w, j, k), w.n)
    decreases ROUNDS - j, Pow2(j) - k
  {
    hide Gcd, Meets, Product, Point;
    GcdDivides(1, w.n);
    GcdOne(w.n);
    if j < ROUNDS {
      if k >= Pow2(j) {
        OutcomeDivides(w, j + 1, 0);
      } else {
        var lo, hi := CompareStart(j) + k, BatchEnd(j, k);
        if Quiet(w, j, lo, hi) {
          OutcomeDivides(w, j, k + BATCH);
        } else {
          GcdBound(Product(w, j, lo, hi), w.n);
          GcdBound(Gap(w, j, FirstMeeting(w, j, lo, hi)), w.n);
        }
      }
    }
  }

  /** A batch that is not quiet yields 1 in exactly one case: its replay is over budget. */
  lemma SettleExactly(w: Walk, j: nat, lo: nat, hi: nat)
    requires w.Valid() && lo <= hi && !Quiet(w, j, lo, hi)
    ensures Settle(w, j, lo, hi) == 1 <==>
              && Gcd(Product(w, j, lo, hi), w.n) == w.n
              && hi + (FirstMeeting(w, j, lo, hi) - lo - 1) > BRENT_BUDGET
  {
    ProductCoprime(w, j, lo, hi);
    GcdBound(Product(w, j, lo, hi), w.n);
  }

  /** The replay always fits the budget up to round 17, and never does in round 19. */
  lemma ReplayBudget(j: nat, k: nat)
    requires j < ROUNDS && k < Pow2(j)
    ensures j <= 17 ==> BatchEnd(j, k) + BATCH <= BRENT_BUDGET
    ensures j == 19 ==> BatchEnd(j, k) > BRENT_BUDGET
  {
    Pow2Rounds();
    assert Pow2(20) == 2 * Pow2(19) && Pow2(19) == 2 * Pow2(18);
    if j <= 17 {
      Pow2Grows(j + 1, 18);
    }
  }

  /**
   * Two compared points that agree modulo a hidden factor d of n make the attempt
   * yield something other than 1, whatever the other points do.
   */
  lemma CollisionFound(w: Walk, d: nat, j: nat, i: nat)
    requires w.Valid() && d > 1 && Divides(d, w.n)
    requires j <= 17 && CompareStart(j) < i <= RoundStart(j + 1)
    requires Point(w, RoundStart(j)) % d == Point(w, i) % d
    ensures Outcome(w, 0, 0) > 1
  {
    var x, y := Point(w, RoundStart(j)), Point(w, i);
    CongruentGap(x, y, d);
    GcdIsGreatest(Gap(w, j, i), w.n, d);
    GcdBound(Gap(w, j, i), w.n);
    DividesLe(d, Gcd(Gap(w, j, i), w.n));
    MeetingFound(w, 0, 0, j, i);
  }

  lemma CongruentGap(x: u64, y: u64, d: nat)
    requires d > 0 && x % d == y % d
    ensures Divides(d, Diff(x, y))
  {
    var hi, lo := if x > y then x else y, if x > y then y else x;
    assert hi == d * (hi / d) + hi % d && lo == d * (lo / d) + lo % d;
    assert Times(d, hi / d - lo / d) == hi - lo by {
      assert d * (hi / d - lo / d) == d * (hi / d) - d * (lo / d);
    }
    if hi / d - lo / d < 0 { MulSign(d, hi / d - lo / d); }
  }

  lemma {:induction false} MeetingFound(w: Walk, j: nat, k: nat, jm: nat, i: nat)
    requires w.Valid() && jm <= 17 && CompareStart(jm) < i <= RoundStart(jm + 1) && Meets(w, jm, i)
    requires j < jm || (j == jm && CompareStart(j) + k < i)
    ensures Outcome(w, j, k) > 1
    decreases ROUNDS - j, Pow2(j) - k
  {
    hide Gcd, Meets, Product, Point, Settle;
    if k >= Pow2(j) {
      MeetingFound(w, j + 1, 0, jm, i);
    } else {
      var lo, hi := CompareStart(j) + k, BatchEnd(j, k);
      if Quiet(w, j, lo, hi) {
        MeetingFound(w, j, k + BATCH, jm, i);
      } else {
        ReplayBudget(j, k);
        SettleExactly(w, j, lo, hi);
        OutcomeDivides(w, j, k);
      }
    }
  }

  // ---- factorize

  datatype Factors = Factors(p: u64, q: u64)

  ghost function Attempt(pq: u64, words: (u64, u64)): (f: u64) {
    if pq <= 3 then pq else Outcome(WalkOf(pq, words.0, words.1), 0, 0)
  }

  /** What the successive attempts yield. */
  ghost function Attempts(pq: u64, words: seq<(u64, u64)>): (fs: seq<u64>)
    ensures |fs| == |words|
  {
    seq(|words|, i requires 0 <= i < |words| => Attempt(pq, words[i]))
  }

  /** A factor and its cofactor, the smaller first. */
  function Ordered(pq: u64, f: u64): Factors
    requires f > 0
  {
    DivWord(pq, f);
    if f > pq / f then Factors(pq / f, f) else Factors(f, pq / f)
  }

  lemma DivWord(pq: nat, f: nat)
    requires f > 0
    ensures 0 <= pq / f <= pq
  {
    MulLe(1, f, pq + 1);
    DivLess(pq, f, pq + 1);
  }

  /** The first attempt, from number i on, whose factor is neither 1 nor pq. */
  ghost function Factored(pq: u64, fs: seq<u64>, i: nat): Result<Factors>
    requires i <= |fs|
    decreases |fs| - i
  {
    if pq % 2 == 0 then Ok(Factors(2, pq / 2))
    else if i == |fs| then Err(NoFactor)
    else if 1 < fs[i] < pq then Ok(Ordered(pq, fs[i]))
    else Factored(pq, fs, i + 1)
  }

  /** The random source contributes one pair of words for each of the eight attempts. */
  method FactorizePQ(pq: u64, words: seq<(u64, u64)>) returns (r: Result<Factors>)
    requires |words| == 8
    ensures r == Factored(pq, Attempts(pq, words), 0)
  {
    hide Outcome, Settle;
    ghost var fs := Attempts(pq, words);
    if pq % 2 == 0 {
      return Ok(Factors(2, pq / 2));
    }
    var attempt := 0;
    while attempt < 8
      invariant attempt <= 8 && Factored(pq, fs, 0) == Factored(pq, fs, attempt)
    {
      var factor, steps := Brent(pq, words[attempt].0, words[attempt].1);
      if factor > 1 && factor < pq {
        DivWord(pq, factor);
        var p: u64, q: u64 := factor, pq / factor;
        if p > q {
          p, q := q, p;
        }
        return Ok(Factors(p, q));
      }
      attempt := attempt + 1;
    }
    return Err(NoFactor);
  }

  /** Every attempt yields a divisor of pq. */
  lemma AttemptDivides(pq: u64, words: seq<(u64, u64)>, i: nat)
    requires i < |words|
    ensures Divides(Attempts(pq, words)[i], pq)
  {
    if pq > 3 {
      OutcomeDivides(WalkOf(pq, words[i].0, words[i].1), 0, 0);
    } else {
      assert Times(pq, 1) == pq;
    }
  }

  /** The pair multiplies back to pq, and for odd pq both parts are proper and ordered. */
  ghost predicate ExactFactors(f: Factors, pq: u64) {
    f.p * f.q == pq && (pq % 2 == 1 ==> 1 < f.p <= f.q < pq)
  }

  /** Success, from any attempt on, returns an exact factorisation. */
  lemma {:induction false} FactoredSound(pq: u64, fs: seq<u64>, i: nat, f: Factors)
    requires i <= |fs| && Factored(pq, fs, i) == Ok(f)
    requires forall k :: 0 <= k < |fs| ==> Divides(fs[k], pq)
    ensures ExactFactors(f, pq)
    decreases |fs| - i
  {
    if pq % 2 == 1 {
      if 1 < fs[i] < pq {
        OrderedExact(pq, fs[i]);
      } else {
        FactoredSound(pq, fs, i + 1, f);
      }
    }
  }

  /** Whatever the random words, a returned pair multiplies back to pq. */
  lemma FactorizeSound(pq: u64, words: seq<(u64, u64)>, f: Factors)
    requires Factored(pq, Attempts(pq, words), 0) == Ok(f)
    ensures ExactFactors(f, pq)
  {
    hide Attempts, Factored;
    forall k | 0 <= k < |words|
      ensures Divides(Attempts(pq, words)[k], pq)
    {
      AttemptDivides(pq, words, k);
    }
    FactoredSound(pq, Attempts(pq, words), 0, f);
  }

  lemma OrderedExact(pq: u64, f: u64)
    requires 1 < f < pq && Divides(f, pq)
    ensures ExactFactors(Ordered(pq, f), pq)
  {
    var k: nat :| Times(f, k) == pq;
    Quotient(f, k, pq);
    MulLe(2, f, k);
    if k <= 1 { MulLe(k, 1, f); }
  }

  lemma Quotient(f: nat, k: nat, n: nat)
    requires f > 0 && f * k == n
    ensures n / f == k && k * f == n
  {
    ModAdd(0, k, f);
    ModBelow(0, f);
    assert n == f * (n / f) + n % f;
    MulCancel(f, n / f, k);
  }

  /** An odd prime is never factored: every attempt yields 1 or the prime itself. */
  lemma OddPrimeFails(pq: u64, words: seq<(u64, u64)>)
    requires IsPrime(pq) && pq % 2 == 1
    ensures Factored(pq, Attempts(pq, words), 0) == Err(NoFactor)
  {
    if f :| Factored(pq, Attempts(pq, words), 0) == Ok(f) {
      FactorizeSound(pq, words, f);
      assert Times(f.p, f.q) == pq;
      assert Divides(f.p, pq);
    } else {
      FactoredExactly(pq, Attempts(pq, words));
    }
  }

  ghost predicate Proper(pq: u64, f: u64) { 1 < f < pq }

  /** Factors can be returned: the number is even, or some attempt yields a proper factor. */
  ghost predicate Factorable(pq: u64, fs: seq<u64>) {
    pq % 2 == 0 || exists k :: 0 <= k < |fs| && Proper(pq, fs[k])
  }

  lemma {:induction false} FactoredFrom(pq: u64, fs: seq<u64>, i: nat)
    requires i <= |fs| && pq % 2 == 1
    ensures
      var r := Factored(pq, fs, i);
      && (r.Err? ==> r == Err(NoFactor) && forall k :: i <= k < |fs| ==> !Proper(pq, fs[k]))
      && (r.Ok? ==> exists k :: i <= k < |fs| && Proper(pq, fs[k]) && (r.value.p == fs[k] || r.value.q == fs[k])
                                && forall j :: i <= j < k ==> !Proper(pq, fs[j]))
    decreases |fs| - i
  {
    if i < |fs| {
      if Proper(pq, fs[i]) {
        assert Factored(pq, fs, i) == Ok(Ordered(pq, fs[i]));
      } else {
        FactoredFrom(pq, fs, i + 1);
      }
    }
  }

  /**
   * Success, exactly: factors are returned when the number is even or some attempt yields a
   * proper factor, and otherwise the error. An even number is halved; for an odd one the
   * first proper factor is one of the pair.
   */
  lemma FactoredExactly(pq: u64, fs: seq<u64>)
    ensures
      var r := Factored(pq, fs, 0);
      && (r.Ok? <==> Factorable(pq, fs)) && (r.Err? ==> r == Err(NoFactor))
      && (pq % 2 == 0 ==> r == Ok(Factors(2, pq / 2)))
      && (pq % 2 == 1 && r.Ok? ==>
            exists k :: 0 <= k < |fs| && Proper(pq, fs[k]) && (r.value.p == fs[k] || r.value.q == fs[k])
                        && forall j :: 0 <= j < k ==> !Proper(pq, fs[j]))
  {
    if pq % 2 == 1 { FactoredFrom(pq, fs, 0); }
  }

  /** The two words of an attempt are brought into range without a gap: consecutive words give consecutive values. */
  lemma SeedsCover(n: u64, v: u64)
    requires n > 3 && 1 <= v < n
    ensures Seeded(v - 1, n) == v
    ensures v + n - 2 < TWO_64 ==> Seeded(v + n - 2, n) == v
  {
    ModBelow(v - 1, n - 1);
    ModAdd(v - 1, 1, n - 1);
  }

  /** A product of two odd primes can only be factored into those primes. */
  lemma SemiprimeFactors(a: u64, b: u64, pq: u64, words: seq<(u64, u64)>, f: Factors)
    requires IsPrime(a) && IsPrime(b) && a <= b && pq == a * b && pq % 2 == 1
    requires Factored(pq, Attempts(pq, words), 0) == Ok(f)
    ensures f == Factors(a, b)
  {
    hide Attempts, Factored, IsPrime;
    FactorizeSound(pq, words, f);
    UniqueFactors(a, b, f.p, f.q, pq);
  }

  lemma UniqueFactors(a: nat, b: nat, p: nat, q: nat, n: nat)
    requires IsPrime(a) && IsPrime(b) && a <= b && n == a * b == p * q && 1 < p <= q
    ensures p == a && q == b
  {
    assert Times(a, b) == n;
    PrimeDividesProduct(a, p, q);
    if Divides(a, p) {
      var k: nat :| Times(a, k) == p;
      CancelFactor(a, k, q, b);
      OneOf(b, k, q);
    } else {
      var k: nat :| Times(a, k) == q;
      CancelFactor(a, k, p, b);
      OneOf(b, k, p);
    }
  }

  lemma CancelFactor(a: nat, k: nat, q: nat, b: nat)
    requires a > 0 && (a * k) * q == a * b
    ensures k * q == b
  {
    var m := k * q;
    assert a * m == (a * k) * q;
    MulCancel(a, m, b);
  }

  lemma MulCancel(a: nat, m: nat, b: nat)
    requires a > 0 && a * m == a * b
    ensures m == b
  {}

  lemma OneOf(b: nat, k: nat, q: nat)
    requires IsPrime(b) && k * q == b
    ensures (k == 1 && q == b) || (k == b && q == 1)
  {
    assert Times(k, q) == b;
    assert Divides(k, b);
    if k == b { MulOne(b, q); }
  }

  lemma MulOne(b: nat, q: nat)
    requires b > 0 && b * q == b
    ensures q == 1
  {
    if q > 1 { MulLe(2, q, b); }
  }
}
