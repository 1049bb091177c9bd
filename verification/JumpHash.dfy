/** Jump consistent hash and the replica ring walk. */
module JumpHash {
  import opened Base

  const MULTIPLIER: nat := 2862933555777941757

  /** The generator, on 64 bits. */
  function NextKey(key: nat): (r: nat)
    ensures r < U64_LIMIT
  {
    (key * MULTIPLIER + 1) % U64_LIMIT
  }

  /** The divisor of a jump: the upper 31 bits, plus one. */
  function Divisor(key: nat): nat {
    key / 0x2_0000_0000 + 1
  }

  /** From zero the generator gives one; adding one to the key adds the multiplier. */
  lemma KeyStream(key: nat)
    ensures NextKey(0) == 1
    ensures NextKey(key + 1) == (NextKey(key) + 2862933555777941757) % 0x1_0000_0000_0000_0000
  {
    var x := key * MULTIPLIER + 1;
    assert (key + 1) * MULTIPLIER + 1 == x + MULTIPLIER;
    SumModulo(x, MULTIPLIER, U64_LIMIT);
  }

  lemma SumModulo(x: nat, y: nat, n: nat)
    requires n > 0
    ensures (x + y) % n == (x % n + y) % n
  {
    var q, r := x / n, (x % n + y) % n;
    var p := (x % n + y) / n;
    assert x + y == (q + p) * n + r;
    RemainderOf(x + y, q + p, r, n);
  }

  lemma RemainderOf(x: nat, q: nat, r: nat, n: nat)
    requires r < n && x == q * n + r
    ensures x % n == r && x / n == q
  {
    var d := x / n - q;
    assert x == x / n * n + x % n;
    assert d * n == r - x % n;
    Multiples(d, n);
    Multiples(-d, n);
  }

  /** The divisor counts the multiples of 2^33 up to the key. */
  lemma DivisorIs(key: nat)
    ensures (Divisor(key) - 1) * 0x2_0000_0000 <= key < Divisor(key) * 0x2_0000_0000
  {}

  /** How far to jump from bucket `b` with divisor `r`. */
  type Step = (nat, nat) -> nat

  /** From every bucket a 32-bit count can have, a jump goes forward. */
  ghost predicate Advancing(step: Step) {
    forall b: nat, r: nat {:trigger step(b, r)} :: b < U32_LIMIT && 1 <= r <= 0x8000_0000 ==> step(b, r) > b
  }

  // ---- The floating-point step -------------------------------------------

  const EXACT: nat := 0x20_0000_0000_0000
  const I64_MAX: nat := 0x7FFF_FFFF_FFFF_FFFF

  /** Rounding to double precision, as far as it matters: order is kept, and whole numbers up
      to 2^53 are exact. Round-to-nearest is such a rounding, and so are the directed modes. */
  ghost predicate Rounding(round: real -> real) {
    && (forall x: real, y: real :: x <= y ==> round(x) <= round(y))
    && (forall x: real :: 0.0 <= x <= EXACT as real && x.Floor as real == x ==> round(x) == x)
  }

  /** Conversion to a 64-bit integer: truncated, and saturated at the ends. */
  function ToI64(x: real): nat {
    if x < 0.0 then 0 else Min(x.Floor, I64_MAX)
  }

  function Quotient(r: nat): real
    requires r > 0
  {
    2147483648.0 / r as real
  }

  function Product(x: real, q: real): real {
    x * q
  }

  /** `((b + 1) as f64 * ((1 << 31) as f64 / r as f64)) as i64`, each operation rounded. */
  function FloatStep(round: real -> real, b: nat, r: nat): nat {
    if r == 0 then I64_MAX else ToI64(round(Product((b + 1) as real, round(Quotient(r)))))
  }

  function FloatSteps(round: real -> real): Step {
    (b, r) => FloatStep(round, b, r)
  }

  /** However it rounds, the quotient is at least one and the product at least `b + 1`. */
  lemma FloatStepAdvances(round: real -> real)
    requires Rounding(round)
    ensures Advancing(FloatSteps(round))
  {
    hide Rounding, FloatStep;
    forall b: nat, r: nat | b < U32_LIMIT && 1 <= r <= 0x8000_0000
      ensures FloatStep(round, b, r) > b
    {
      OneFloatStep(round, b, r);
    }
  }

  lemma OneFloatStep(round: real -> real, b: nat, r: nat)
    requires Rounding(round) && b < U32_LIMIT && 1 <= r <= 0x8000_0000
    ensures FloatStep(round, b, r) > b
  {
    hide Rounding, Quotient, Product, ToI64;
    var next: real := (b + 1) as real;
    AtLeastOne(r);
    Rounded(round, 1, Quotient(r));
    Grows(next, round(Quotient(r)));
    Rounded(round, b + 1, Product(next, round(Quotient(r))));
    AtLeast(round(Product(next, round(Quotient(r)))), b + 1);
  }

  /** What is at least a whole number is still so after rounding. */
  lemma Rounded(round: real -> real, n: nat, x: real)
    requires Rounding(round) && n <= EXACT && n as real <= x
    ensures n as real <= round(x)
  {
    assert (n as real).Floor == n;
  }

  lemma AtLeast(x: real, n: nat)
    requires x >= n as real && n <= U32_LIMIT
    ensures ToI64(x) >= n
  {}

  lemma AtLeastOne(r: nat)
    requires 1 <= r <= 0x8000_0000
    ensures Quotient(r) >= 1 as real
  {}

  lemma Grows(x: real, q: real)
    requires x >= 0.0 && q >= 1 as real
    ensures Product(x, q) >= x
  {
    assert x * (q - 1.0) >= 0.0;
  }

  // ---- How close it is to the exact quotient -----------------------------

  /** Rounding with the relative error of double precision. */
  ghost predicate Double(round: real -> real) {
    Rounding(round) && forall x: real :: x >= 0.0 ==> Close(round(x), x)
  }

  const PRECISION: real := 4503599627370496.0

  predicate Close(y: real, x: real) {
    -x <= (y - x) * PRECISION <= x
  }

  /** Not rounding at all is a rounding of that kind. */
  lemma ExactIsDouble()
    ensures Double(x => x)
  {}

  /** `(b + 1) * 2^31 / r` without any rounding. */
  function ExactStep(b: nat, r: nat): nat
    requires r > 0
  {
    (b + 1) * 0x8000_0000 / r
  }

  lemma ExactStepIs(b: nat, r: nat, j: nat)
    requires r > 0
    ensures j == ExactStep(b, r) <==> j * r <= (b + 1) * 0x8000_0000 < (j + 1) * r
  {
    var n := (b + 1) * 0x8000_0000;
    if j * r <= n < (j + 1) * r {
      assert n == j * r + (n - j * r);
      RemainderOf(n, j, n - j * r, r);
    }
  }

  /** The exact quotient is neither a whole number nor within 2^-50 of it from one. */
  predicate ClearOfWhole(b: nat, r: nat)
    requires r > 0
  {
    var n := (b + 1) * 0x8000_0000;
    n % r * 0x4_0000_0000_0000 >= n && (r - n % r) * 0x4_0000_0000_0000 > n
  }

  lemma ProductLaws(a: real, b: real, c: real)
    ensures Product(a + b, c) == Product(a, c) + Product(b, c) && Product(a - b, c) == Product(a, c) - Product(b, c)
    ensures Product(-a, c) == -Product(a, c) && Product(3.0 * a, c) == 3.0 * Product(a, c)
    ensures Product(a, c) == Product(c, a) && Product(1.0, c) == c
  {}

  lemma ProductPrecise(a: real, c: real)
    ensures Product(a * PRECISION, c) == Product(a, c) * PRECISION
  {}

  lemma ProductSign(a: real, c: real)
    ensures a >= 0.0 && c >= 0.0 ==> Product(a, c) >= 0.0
    ensures a > 0.0 && c > 0.0 ==> Product(a, c) > 0.0
  {}

  lemma ProductOrder(a: real, b: real, c: real)
    requires c >= 0.0
    ensures a <= b ==> Product(a, c) <= Product(b, c)
    ensures a < b && c > 0.0 ==> Product(a, c) < Product(b, c)
  {
    hide Product;
    ProductLaws(b, a, c);
    ProductSign(b - a, c);
  }

  lemma TwoRoundings(q: real, p: real, b: real, y: real)
    requires b >= 0.0 && q >= 0.0 && p >= 0.0 && Close(p, q) && Close(y, Product(b, p))
    ensures -3.0 * Product(b, q) <= (y - Product(b, q)) * PRECISION <= 3.0 * Product(b, q)
  {
    hide Product;
    var x, e: real := Product(b, q), Product(p - q, b);
    ProductLaws(p, q, b);
    ProductLaws(q, q, b);
    ProductPrecise(p - q, b);
    ProductOrder(-q, (p - q) * PRECISION, b);
    ProductOrder((p - q) * PRECISION, q, b);
    ProductOrder(0.0, q, b);
    ProductLaws(0.0, 0.0, b);
    assert Product(b, p) == x + e && -x <= e * PRECISION <= x;
  }

  lemma QuotientIs(c: real, r: nat)
    requires r > 0
    ensures Product(Product(c, Quotient(r)), r as real) == c * 2147483648.0
  {
    var q := Quotient(r);
    assert q * r as real == 2147483648.0;
    assert c * q * r as real == c * (q * r as real);
  }

  /** Away from whole numbers the floating-point step is the exact one. */
  lemma FloatIsExact(round: real -> real, b: nat, r: nat)
    requires Double(round) && b + 1 < U32_LIMIT && 1 <= r <= 0x8000_0000 && ClearOfWhole(b, r)
    ensures FloatStep(round, b, r) == ExactStep(b, r)
  {
    hide Rounding, Quotient, Product, Close, ClearOfWhole, ExactStep;
    var q, c: real := Quotient(r), (b + 1) as real;
    AtLeastOne(r);
    Rounded(round, 1, q);
    var p := round(q);
    Grows(c, p);
    var y := round(Product(c, p));
    TwoRoundings(q, p, c, y);
    QuotientIs(c, r);
    WholePart(Product(c, q), y, b, r);
    SmallStep(b, r);
  }

  lemma SmallStep(b: nat, r: nat)
    requires r >= 1 && b + 1 < U32_LIMIT
    ensures ExactStep(b, r) <= I64_MAX
  {
    NotAbove((b + 1) * 0x8000_0000, r);
  }

  lemma NotAbove(n: nat, r: nat)
    requires r >= 1
    ensures n / r <= n
  {
    if n / r > n {
      DivBack(n, r);
      AtLeastFactor(n / r, n + 1, r);
    }
  }

  lemma DivBack(n: nat, r: nat)
    requires r > 0
    ensures n / r * r <= n
  {}

  lemma AtLeastFactor(a: nat, b: nat, r: nat)
    requires a >= b && r >= 1
    ensures a * r >= b
  {
    assert (a - b) * r >= 0 && b * (r - 1) >= 0;
    assert a * r == (a - b) * r + b * (r - 1) + b;
  }

  lemma WholePart(x: real, y: real, b: nat, r: nat)
    requires r > 0 && Product(x, r as real) == (b + 1) as real * 2147483648.0
    requires -3.0 * x <= (y - x) * PRECISION <= 3.0 * x && ClearOfWhole(b, r)
    ensures ExactStep(b, r) as real <= y < (ExactStep(b, r) + 1) as real
  {
    var n := (b + 1) * 0x8000_0000;
    var j, m := n / r, n % r;
    assert n == j * r + m;
    assert n as real == Product(j as real, r as real) + m as real;
    hide Product, PRECISION;
    Bounds(x, y, r as real, n as real, j as real, m as real);
  }

  lemma Bounds(x: real, y: real, d: real, n: real, j: real, m: real)
    requires d > m >= 0.0 && Product(x, d) == n && n == Product(j, d) + m
    requires -3.0 * x <= (y - x) * PRECISION <= 3.0 * x
    requires m * 1125899906842624.0 >= n && (d - m) * 1125899906842624.0 > n
    ensures j <= y < j + 1.0
  {
    hide Product;
    ProductLaws(y, x, d);
    ProductLaws(x, x, d);
    ProductLaws(3.0 * x, x, d);
    ProductPrecise(y - x, d);
    ProductOrder(-(3.0 * x), (y - x) * PRECISION, d);
    ProductOrder((y - x) * PRECISION, 3.0 * x, d);
    var k: real := Product(y, d) - n;
    assert -3.0 * n <= k * PRECISION <= 3.0 * n;
    assert -m <= k < d - m;
    ProductOrder(y, j, d);
    ProductOrder(j + 1.0, y, d);
    ProductLaws(j, 1.0, d);
    ProductLaws(1.0, 1.0, d);
  }

  // ---- Jumps -------------------------------------------------------------

  /** The state after `i` jumps: generator and landing point. */
  function Jump(step: Step, key: nat, i: nat): (nat, nat) {
    if i == 0 then (key, 0)
    else
      var (k, j) := Jump(step, key, i - 1);
      (NextKey(k), step(j, Divisor(NextKey(k))))
  }

  function Landing(step: Step, key: nat, i: nat): nat {
    Jump(step, key, i).1
  }

  /** Every jump goes strictly forward. */
  lemma JumpsForward(step: Step, key: nat, i: nat)
    requires Advancing(step) && Landing(step, key, i) < U32_LIMIT
    ensures Landing(step, key, i) < Landing(step, key, i + 1)
  {
    var (k, j) := Jump(step, key, i);
    assert 1 <= Divisor(NextKey(k)) <= 0x8000_0000;
  }

  /** The first `i` jumps land below `n`. */
  ghost predicate AllBelow(step: Step, key: nat, n: nat, i: nat) {
    forall k: nat {:trigger Landing(step, key, k)} :: k <= i ==> Landing(step, key, k) < n
  }

  lemma {:induction false} LandingsIncrease(step: Step, key: nat, n: nat, i: nat, k: nat)
    requires Advancing(step) && n <= U32_LIMIT && AllBelow(step, key, n, i) && k <= i
    ensures Landing(step, key, k) <= Landing(step, key, i)
    decreases i
  {
    hide Landing;
    if k < i {
      LandingsIncrease(step, key, n, i - 1, k);
      JumpsForward(step, key, i - 1);
    }
  }

  /** `b` is the last landing point before the jumps leave `0 .. n`. */
  ghost predicate LastBelow(step: Step, key: nat, n: nat, b: nat) {
    exists i: nat {:trigger Landing(step, key, i)} ::
      AllBelow(step, key, n, i) && b == Landing(step, key, i) && n <= Landing(step, key, i + 1)
  }

  method JumpConsistentHash(step: Step, key: nat, numBuckets: nat) returns (r: nat)
    requires Advancing(step) && numBuckets < U32_LIMIT
    ensures numBuckets == 0 ==> r == U32_LIMIT - 1
    ensures numBuckets >= 1 ==> r < numBuckets && LastBelow(step, key, numBuckets, r)
  {
    var k, b, j := key, -1, 0;
    ghost var i := 0;
    while j < numBuckets
      invariant (k, j) == Jump(step, key, i) && b < numBuckets && b < j
      invariant i == 0 ==> b == -1
      invariant i > 0 ==> b == Landing(step, key, i - 1) && AllBelow(step, key, numBuckets, i - 1)
      decreases numBuckets - j
    {
      JumpsForward(step, key, i);
      assert AllBelow(step, key, numBuckets, i);
      b := j;
      k := NextKey(k);
      j := step(b, Divisor(k));
      i := i + 1;
    }
    if numBuckets >= 1 {
      assert i > 0 && Landing(step, key, i - 1 + 1) == j;
    }
    r := b % U32_LIMIT;
  }

  // ---- Placements --------------------------------------------------------

  /** One jump with the numbers filled in. */
  lemma JumpTo(round: real -> real, key: nat, i: nat, k: nat, j: nat, d: nat, j': nat)
    requires Double(round) && Jump(FloatSteps(round), key, i) == (k, j) && j + 1 < U32_LIMIT
    requires Divisor(NextKey(k)) == d && ClearOfWhole(j, d) && ExactStep(j, d) == j'
    ensures Jump(FloatSteps(round), key, i + 1) == (NextKey(k), j') && Landing(FloatSteps(round), key, i + 1) == j'
  {
    hide FloatStep, Double, NextKey, ClearOfWhole, ExactStep;
    assert NextKey(k) < U64_LIMIT;
    FloatIsExact(round, j, d);
  }

  lemma NoJump(step: Step, key: nat)
    ensures Jump(step, key, 0) == (key, 0) && Landing(step, key, 0) == 0
  {}

  lemma Key5Of10(round: real -> real)
    requires Double(round)
    ensures LastBelow(FloatSteps(round), 5, 10, 4)
  {
    hide FloatSteps, Double, Landing, Jump;
    var step := FloatSteps(round);
    NoJump(step, 5);
    assert NextKey(5) == 14314667778889708786;
    JumpTo(round, 5, 0, 5, 0, 1666446657, 1);
    assert NextKey(14314667778889708786) == 7703709579399459627;
    JumpTo(round, 5, 1, 14314667778889708786, 1, 896829830, 4);
    assert NextKey(7703709579399459627) == 9116743188920263040;
    JumpTo(round, 5, 2, 7703709579399459627, 4, 1061328593, 10);
    assert AllBelow(step, 5, 10, 2);
  }

  lemma Key3Of10(round: real -> real)
    requires Double(round)
    ensures LastBelow(FloatSteps(round), 3, 10, 8)
  {
    hide FloatSteps, Double, Landing, Jump;
    var step := FloatSteps(round);
    NoJump(step, 3);
    assert NextKey(3) == 8588800667333825272;
    JumpTo(round, 3, 0, 3, 0, 999867994, 2);
    assert NextKey(8588800667333825272) == 16835445614176583449;
    JumpTo(round, 3, 1, 8588800667333825272, 2, 1959903820, 3);
    assert NextKey(16835445614176583449) == 8478220943449820086;
    JumpTo(round, 3, 2, 16835445614176583449, 3, 986994820, 8);
    assert NextKey(8478220943449820086) == 1604421673667867359;
    JumpTo(round, 3, 3, 8478220943449820086, 8, 186779266, 103);
    assert AllBelow(step, 3, 10, 3);
  }

  lemma Key6Of10(round: real -> real)
    requires Double(round)
    ensures LastBelow(FloatSteps(round), 6, 10, 9)
  {
    hide FloatSteps, Double, Landing, Jump;
    var step := FloatSteps(round);
    NoJump(step, 6);
    assert NextKey(6) == 17177601334667650543;
    JumpTo(round, 6, 0, 6, 0, 1999735988, 1);
    assert NextKey(17177601334667650543) == 12361213598865673524;
    JumpTo(round, 6, 1, 17177601334667650543, 1, 1439034660, 2);
    assert NextKey(12361213598865673524) == 9436004311655484517;
    JumpTo(round, 6, 2, 12361213598865673524, 2, 1098495479, 5);
    assert NextKey(9436004311655484517) == 13815888723065909202;
    JumpTo(round, 6, 3, 9436004311655484517, 5, 1608381133, 8);
    assert NextKey(13815888723065909202) == 17689221436745360011;
    JumpTo(round, 6, 4, 13815888723065909202, 8, 2059296407, 9);
    assert NextKey(17689221436745360011) == 2125789360093016928;
    JumpTo(round, 6, 5, 17689221436745360011, 9, 247474453, 86);
    assert AllBelow(step, 6, 10, 5);
  }

  lemma Key10Of5(round: real -> real)
    requires Double(round)
    ensures LastBelow(FloatSteps(round), 10, 5, 2)
  {
    hide FloatSteps, Double, Landing, Jump;
    var step := FloatSteps(round);
    NoJump(step, 10);
    assert NextKey(10) == 10182591484069865955;
    JumpTo(round, 10, 0, 10, 0, 1185409665, 1);
    assert NextKey(10182591484069865955) == 12544485603020977496;
    JumpTo(round, 10, 1, 10182591484069865955, 1, 1460370329, 2);
    assert NextKey(12544485603020977496) == 10713048802596370425;
    JumpTo(round, 10, 2, 12544485603020977496, 2, 1247163025, 5);
    assert AllBelow(step, 10, 5, 2);
  }

  /** Placements computed from the formula, the same under every double-precision rounding. */
  lemma CheckPlacements(round: real -> real)
    requires Double(round)
    ensures
      var step := FloatSteps(round);
      LastBelow(step, 5, 10, 4) && LastBelow(step, 3, 10, 8) && LastBelow(step, 6, 10, 9) && LastBelow(step, 10, 5, 2)
  {
    hide LastBelow, FloatSteps, Double;
    Key5Of10(round);
    Key3Of10(round);
    Key6Of10(round);
    Key10Of5(round);
  }

  lemma LastBelowUnique(step: Step, key: nat, n: nat, b: nat, b': nat)
    requires LastBelow(step, key, n, b) && LastBelow(step, key, n, b')
    ensures b == b'
  {
    hide Landing;
    var i: nat :| AllBelow(step, key, n, i) && b == Landing(step, key, i) && n <= Landing(step, key, i + 1);
    var i': nat :| AllBelow(step, key, n, i') && b' == Landing(step, key, i') && n <= Landing(step, key, i' + 1);
    assert i' < i + 1 && i < i' + 1;
  }

  /** Growing from `m` to `n` buckets moves a key only into one of the new ones. */
  lemma GrowthMovesOnlyToNew(step: Step, key: nat, m: nat, n: nat, bm: nat, bn: nat)
    requires Advancing(step) && m <= n <= U32_LIMIT && LastBelow(step, key, m, bm) && LastBelow(step, key, n, bn)
    ensures bn == bm || bn >= m
  {
    hide Landing;
    if bn < m {
      var i: nat :| AllBelow(step, key, n, i) && bn == Landing(step, key, i) && n <= Landing(step, key, i + 1);
      forall k: nat | k <= i
        ensures Landing(step, key, k) < m
      {
        LandingsIncrease(step, key, n, i, k);
      }
      assert AllBelow(step, key, m, i) && LastBelow(step, key, m, bn);
      LastBelowUnique(step, key, m, bm, bn);
    }
  }

  // ---- Replicas ----------------------------------------------------------

  /** The number of copies, clamped to the number of shards and to at least one. */
  function Factor(replicationFactor: nat, shardCount: nat): (f: nat)
    ensures f >= 1 && (shardCount >= 1 ==> f <= shardCount)
    ensures 1 <= replicationFactor <= shardCount ==> f == replicationFactor
  {
    Max(Min(replicationFactor, shardCount), 1)
  }

  lemma OnceAround(x: nat, n: nat)
    requires x < 2 * n
    ensures x % n == if x < n then x else x - n
  {
    var q := x / n;
    assert x == q * n + x % n;
    Multiples(q, n);
  }

  lemma Multiples(q: int, n: nat)
    ensures q >= 2 ==> q * n >= 2 * n
    ensures q <= 0 ==> q * n <= 0
    ensures q == 1 ==> q * n == n
  {}

  /** Walk the ring from `home`: consecutive shards, pairwise different. */
  method ReplicaTargets(home: nat, n: nat, rf: nat) returns (targets: seq<nat>)
    requires home < n
    ensures |targets| == if 1 <= rf <= n then rf else n
    ensures targets[0] == home && forall i :: 0 <= i < |targets| ==> targets[i] == (home + i) % n && targets[i] < n
    ensures forall i, j :: 0 <= i < j < |targets| ==> targets[i] != targets[j]
  {
    targets := [];
    OnceAround(home, n);
    for offset := 0 to n
      invariant |targets| == offset && (1 <= rf <= n ==> offset < rf)
      invariant forall i :: 0 <= i < offset ==> targets[i] == (home + i) % n && targets[i] < n
      invariant forall i :: 0 <= i < offset ==> targets[i] == if home + i < n then home + i else home + i - n
    {
      OnceAround(home + offset, n);
      targets := targets + [(home + offset) % n];
      if |targets| == rf {
        return;
      }
    }
  }
}
