/**
  Dividing a context budget among sub-agents (allocate_budget).  The bonus is
  computed in floating point; any arithmetic that is monotone, has a small relative
  error and keeps the counts involved exact will do: exact arithmetic, and doubles
  with unbounded exponents, as the values here stay far from both ends of the range.
 */
module Budget {

  /**
    Floating-point division, multiplication and conversion, up to where counts stay
    exact, and the factors between which a weighted share may be off.
   */
  datatype Float = Float(div: (real, real) -> real, mul: (real, real) -> real, of: nat -> real,
                         exactTo: nat, down: real, up: real)

  function Of(n: nat): real {
    n as real
  }

  predicate DivGrows(f: Float, x: real, y: real, c: real) {
    0.0 <= x <= y && 0.0 < c ==> 0.0 <= f.div(x, c) <= f.div(y, c)
  }

  predicate MulGrows(f: Float, c: real, x: real, y: real) {
    0.0 <= x <= y && 0.0 <= c ==> 0.0 <= f.mul(c, x) <= f.mul(c, y)
  }

  predicate OfGrows(f: Float, m: nat, n: nat) {
    m <= n ==> 0.0 <= f.of(m) <= f.of(n) && (0 < n ==> 0.0 < f.of(n))
  }

  /** y is the exact value but for an error between the two factors, and the slack. */
  predicate Close(f: Float, y: real, exact: real, slack: real) {
    exact * f.down - slack <= y <= exact * f.up
  }

  /** pool * a / (b * n) as computed, against its exact value. */
  predicate ShareClose(f: Float, pool: real, a: real, b: real, n: real, exact: real) {
    0.0 <= pool && 0.0 <= a && 0.0 < b && 0.0 < n && exact * (n * b) == pool * a ==>
      Close(f, f.div(f.mul(pool, f.div(a, b)), n), exact, 0.0)
  }

  ghost predicate IsMonotone(f: Float) {
    && (forall x, y, c :: DivGrows(f, x, y, c))
    && (forall c, x, y :: MulGrows(f, c, x, y))
    && (forall m, n :: OfGrows(f, m, n))
  }

  ghost predicate IsFloat(f: Float) {
    && IsMonotone(f)
    && (forall pool, a, b, n, exact :: ShareClose(f, pool, a, b, n, exact))
    && (forall n: nat :: n <= f.exactTo ==> f.of(n) == Of(n))
  }

  // ---------------------------------------------------------------------
  // Which arithmetic qualifies
  // ---------------------------------------------------------------------

  /** A quotient or product is off by at most the unit roundoff, as a share of it. */
  predicate DivClose(f: Float, unit: real, x: real, c: real) {
    0.0 <= x && 0.0 < c ==> x * (1.0 - unit) <= f.div(x, c) * c <= x * (1.0 + unit)
  }

  predicate MulClose(f: Float, unit: real, c: real, x: real) {
    0.0 <= x && 0.0 <= c ==> c * x * (1.0 - unit) <= f.mul(c, x) <= c * x * (1.0 + unit)
  }

  /** Errors of factors multiply. */
  lemma Chain(y: real, m: real, q: real, pool: real, a: real, b: real, n: real, h: real)
    requires 0.0 <= pool && 0.0 <= b && 0.0 <= h
    requires y * n <= m * h && m <= pool * q * h && q * b <= a * h
    ensures y * (n * b) <= pool * a * (h * h * h)
  {
    Times(y * n, m * h, b);
    Times(m, pool * q * h, h * b);
    Times(q * b, a * h, pool * h * h);
    assert y * (n * b) == y * n * b;
    assert m * h * b == m * (h * b);
    assert pool * q * h * (h * b) == q * b * (pool * h * h);
    assert a * h * (pool * h * h) == pool * a * (h * h * h);
  }

  lemma ChainBelow(y: real, m: real, q: real, pool: real, a: real, b: real, n: real, h: real)
    requires 0.0 <= pool && 0.0 <= b && 0.0 <= h
    requires m * h <= y * n && pool * q * h <= m && a * h <= q * b
    ensures pool * a * (h * h * h) <= y * (n * b)
  {
    Times(m * h, y * n, b);
    Times(pool * q * h, m, h * b);
    Times(a * h, q * b, pool * h * h);
    assert y * (n * b) == y * n * b;
    assert m * h * b == m * (h * b);
    assert pool * q * h * (h * b) == q * b * (pool * h * h);
    assert a * h * (pool * h * h) == pool * a * (h * h * h);
  }

  /** Dividing out the parts leaves the exact share times the error. */
  lemma DivideOut(y: real, parts: real, exact: real, whole: real, c: real)
    requires 0.0 < parts && exact * parts == whole
    ensures y * parts <= whole * c ==> y <= exact * c
    ensures whole * c <= y * parts ==> exact * c <= y
  {
    Swap(exact, parts, c);
    if y * parts <= whole * c {
      CancelReal(y, exact * c, parts);
    }
    if whole * c <= y * parts {
      CancelReal(exact * c, y, parts);
    }
  }

  lemma Swap(x: real, y: real, z: real)
    ensures x * y * z == x * z * y
  {
  }

  /** Three operations with unit roundoff u are off by at most the cube of 1 + u ... */
  lemma RoundedUp(f: Float, u: real, pool: real, a: real, b: real, n: real, up: real)
    requires IsMonotone(f) && 0.0 <= u && up == (1.0 + u) * (1.0 + u) * (1.0 + u)
    requires forall x, c :: DivClose(f, u, x, c)
    requires forall c, x :: MulClose(f, u, c, x)
    requires 0.0 <= pool && 0.0 <= a && 0.0 < b && 0.0 < n
    ensures f.div(f.mul(pool, f.div(a, b)), n) * (n * b) <= pool * a * up
  {
    var q := f.div(a, b);
    var m := f.mul(pool, q);
    assert DivGrows(f, a, a, b) && MulGrows(f, pool, q, q);
    assert DivClose(f, u, a, b) && MulClose(f, u, pool, q) && DivClose(f, u, m, n);
    Chain(f.div(m, n), m, q, pool, a, b, n, 1.0 + u);
  }

  /** ... and of 1 - u. */
  lemma RoundedDown(f: Float, u: real, pool: real, a: real, b: real, n: real, down: real)
    requires IsMonotone(f) && 0.0 <= u <= 1.0 && down == (1.0 - u) * (1.0 - u) * (1.0 - u)
    requires forall x, c :: DivClose(f, u, x, c)
    requires forall c, x :: MulClose(f, u, c, x)
    requires 0.0 <= pool && 0.0 <= a && 0.0 < b && 0.0 < n
    ensures pool * a * down <= f.div(f.mul(pool, f.div(a, b)), n) * (n * b)
  {
    var q := f.div(a, b);
    var m := f.mul(pool, q);
    assert DivGrows(f, a, a, b) && MulGrows(f, pool, q, q);
    assert DivClose(f, u, a, b) && MulClose(f, u, pool, q) && DivClose(f, u, m, n);
    ChainBelow(f.div(m, n), m, q, pool, a, b, n, 1.0 - u);
  }

  predicate HasRoundoff(f: Float, u: real) {
    && 0.0 <= u <= 1.0
    && f.down == (1.0 - u) * (1.0 - u) * (1.0 - u) && f.up == (1.0 + u) * (1.0 + u) * (1.0 + u)
  }

  lemma ThreeRoundings(f: Float, u: real, pool: real, a: real, b: real, n: real, exact: real)
    requires IsMonotone(f) && HasRoundoff(f, u)
    requires forall x, c :: DivClose(f, u, x, c)
    requires forall c, x :: MulClose(f, u, c, x)
    ensures ShareClose(f, pool, a, b, n, exact)
  {
    if 0.0 <= pool && 0.0 <= a && 0.0 < b && 0.0 < n && exact * (n * b) == pool * a {
      RoundedUp(f, u, pool, a, b, n, f.up);
      RoundedDown(f, u, pool, a, b, n, f.down);
      Positive(n, b);
      CloseWhenDivided(f, f.div(f.mul(pool, f.div(a, b)), n), n * b, exact, pool * a);
    }
  }

  /** Floating point with unit roundoff u, and counts exact up to a bound, qualifies ... */
  lemma RoundoffIsFloat(f: Float, u: real)
    requires IsMonotone(f) && HasRoundoff(f, u)
    requires forall x, c :: DivClose(f, u, x, c)
    requires forall c, x :: MulClose(f, u, c, x)
    requires forall n: nat :: n <= f.exactTo ==> f.of(n) == Of(n)
    ensures IsFloat(f)
  {
    forall pool, a, b, n, exact ensures ShareClose(f, pool, a, b, n, exact) {
      ThreeRoundings(f, u, pool, a, b, n, exact);
    }
  }

  /** ... and exact arithmetic is the case without error, for budgets of any size. */
  function Exactly(n: nat): Float {
    Float((x, c) => if c == 0.0 then 0.0 else x / c, (x, y) => x * y, Of, n, 1.0, 1.0)
  }

  lemma ExactIsFloat(n: nat)
    ensures IsFloat(Exactly(n))
  {
    var f := Exactly(n);
    forall x, y, c ensures DivGrows(f, x, y, c) {
    }
    forall c, x, y ensures MulGrows(f, c, x, y) {
    }
    forall m, n ensures OfGrows(f, m, n) {
    }
    forall x, c ensures DivClose(f, 0.0, x, c) {
    }
    forall c, x ensures MulClose(f, 0.0, c, x) {
    }
    RoundoffIsFloat(f, 0.0);
  }

  lemma ExactIsPrecise(n: nat, pool: nat, agents: nat)
    requires pool <= n && agents <= n
    ensures IsPrecise(Exactly(n), pool, agents)
  {
  }

  lemma CloseWhenDivided(f: Float, y: real, parts: real, exact: real, whole: real)
    requires 0.0 < parts && exact * parts == whole
    requires whole * f.down <= y * parts <= whole * f.up
    ensures Close(f, y, exact, 0.0)
  {
    DivideOut(y, parts, exact, whole, f.down);
    DivideOut(y, parts, exact, whole, f.up);
  }

  /** Four fifths of the budget are handed out evenly ... */
  function Distributable(total: nat): nat {
    total * 80 / 100
  }

  /** ... and a tenth of that again as a bonus falling off from the first agent to the last. */
  function PriorityPool(total: nat): nat {
    Distributable(total) * 10 / 100
  }

  /** How far from the last agent this one is, as a share. */
  function PositionFactor(f: Float, agents: nat, index: nat): real
    requires index < agents
  {
    f.div(f.of(agents - 1 - index), f.of(agents - 1))
  }

  /** The pool, weighted with that. */
  function Weighted(f: Float, pool: nat, agents: nat, index: nat): real
    requires index < agents
  {
    f.mul(f.of(pool), PositionFactor(f, agents, index))
  }

  function Shared(f: Float, pool: nat, agents: nat, index: nat): real
    requires index < agents
  {
    f.div(Weighted(f, pool, agents, index), f.of(agents))
  }

  /** `as usize` cuts toward zero and stops at zero. */
  function Truncated(x: real): nat {
    if x < 0.0 then 0 else x.Floor
  }

  function Bonus(f: Float, pool: nat, agents: nat, index: nat): nat
    requires index < agents
  {
    if agents > 1 then Truncated(Shared(f, pool, agents, index)) else 0
  }

  function Share(amount: nat, parts: nat): nat {
    if parts == 0 then 0 else amount / parts
  }

  /** The allocation of one agent; the whole budget when there is nobody to share it. */
  function AllocateBudget(f: Float, total: nat, agents: nat, index: nat): nat
    requires agents == 0 || index < agents
  {
    if agents == 0 then total
    else Share(Distributable(total), agents) + Bonus(f, PriorityPool(total), agents, index)
  }

  /** What the first n of `agents` agents get together. */
  function Allocated(f: Float, total: nat, agents: nat, n: nat): nat
    requires n <= agents
  {
    if n == 0 then 0 else Allocated(f, total, agents, n - 1) + AllocateBudget(f, total, agents, n - 1)
  }

  // Products and quotients of unknowns, one fact at a time.

  lemma Distribute(k: nat, a: nat, b: nat)
    ensures k * (a + b) == k * a + k * b
  {
  }

  lemma DivBounds(a: nat, b: nat)
    requires b > 0
    ensures b * (a / b) <= a < b * (a / b) + b
  {
  }

  lemma Times(a: real, b: real, c: real)
    requires a <= b && 0.0 <= c
    ensures a * c <= b * c
  {
  }

  lemma Positive(x: real, c: real)
    requires 0.0 <= x && 0.0 < c
    ensures 0.0 <= x * c && (0.0 < x ==> 0.0 < x * c)
  {
  }

  // ---------------------------------------------------------------------
  // The fractions
  // ---------------------------------------------------------------------

  /** Four fifths and a tenth of that, rounded down. */
  lemma FractionsAre(total: nat)
    ensures 100 * Distributable(total) <= 80 * total < 100 * Distributable(total) + 100
    ensures 10 * PriorityPool(total) <= Distributable(total) < 10 * PriorityPool(total) + 10
  {
  }

  /** The last agent gets an even share, the first an even share and an even share of the pool on top. */
  lemma FirstAndLastShare(total: nat, agents: nat, n: nat)
    requires agents > 1
    ensures AllocateBudget(Exactly(n), total, agents, agents - 1) == Distributable(total) / agents
    ensures AllocateBudget(Exactly(n), total, agents, 0) == Distributable(total) / agents + PriorityPool(total) / agents
  {
    var f, pool, b := Exactly(n), PriorityPool(total), Of(agents - 1);
    assert Of(0) / b == 0.0 && b / b == 1.0;
    assert PositionFactor(f, agents, 0) == 1.0;
    assert Weighted(f, pool, agents, 0) == Of(pool);
    WholePart(pool, agents);
  }

  lemma WholePart(a: nat, b: nat)
    requires b > 0
    ensures (Of(a) / Of(b)).Floor == a / b
  {
    var q := a / b;
    DivBounds(a, b);
    Product(b, q);
    Product(b, q + 1);
    Distribute(b, q, 1);
    assert Of(b * q) <= Of(a) < Of(b * (q + 1));
    Between(Of(a) / Of(b), Of(a), Of(b), Of(q), Of(q + 1));
  }

  lemma Between(x: real, a: real, b: real, low: real, high: real)
    requires 0.0 < b && x == a / b && b * low <= a < b * high
    ensures low <= x < high
  {
    assert x * b == a;
  }

  // ---------------------------------------------------------------------
  // Order
  // ---------------------------------------------------------------------

  lemma EarlierBonusIsNoLess(f: Float, pool: nat, agents: nat, i: nat, j: nat)
    requires IsMonotone(f) && i <= j < agents && agents > 1
    ensures 0.0 <= PositionFactor(f, agents, j) && 0.0 <= Weighted(f, pool, agents, j)
    ensures 0.0 <= Shared(f, pool, agents, j) <= Shared(f, pool, agents, i)
  {
    assert OfGrows(f, agents - 1 - j, agents - 1 - i) && OfGrows(f, 0, pool);
    assert OfGrows(f, agents - 1, agents - 1) && OfGrows(f, agents, agents);
    assert DivGrows(f, f.of(agents - 1 - j), f.of(agents - 1 - i), f.of(agents - 1));
    assert MulGrows(f, f.of(pool), PositionFactor(f, agents, j), PositionFactor(f, agents, i));
    assert DivGrows(f, Weighted(f, pool, agents, j), Weighted(f, pool, agents, i), f.of(agents));
  }

  /** An earlier agent never gets less than a later one, whatever the rounding. */
  lemma EarlierGetsNoLess(f: Float, total: nat, agents: nat, i: nat, j: nat)
    requires IsMonotone(f) && i <= j < agents
    ensures AllocateBudget(f, total, agents, j) <= AllocateBudget(f, total, agents, i)
  {
    if agents > 1 {
      EarlierBonusIsNoLess(f, PriorityPool(total), agents, i, j);
    }
  }

  // ---------------------------------------------------------------------
  // Sums
  // ---------------------------------------------------------------------

  /** Sum of the bonuses of the first n agents. */
  function BonusTotal(f: Float, pool: nat, agents: nat, n: nat): nat
    requires n <= agents
  {
    if n == 0 then 0 else BonusTotal(f, pool, agents, n - 1) + Bonus(f, pool, agents, n - 1)
  }

  lemma {:induction false} AllocatedIsBaseAndBonus(f: Float, total: nat, agents: nat, base: nat, n: nat)
    requires 0 < agents && n <= agents && base == Distributable(total) / agents
    ensures Allocated(f, total, agents, n) == base * n + BonusTotal(f, PriorityPool(total), agents, n)
  {
    if n > 0 {
      AllocatedIsBaseAndBonus(f, total, agents, base, n - 1);
      Distribute(base, n - 1, 1);
      assert AllocateBudget(f, total, agents, n - 1) == base + Bonus(f, PriorityPool(total), agents, n - 1);
    }
  }

  /** agents - 1, agents - 2, and so on: the numerators of the first n bonuses. */
  function Gaps(agents: nat, n: nat): nat
    requires n <= agents
  {
    if n == 0 then 0 else Gaps(agents, n - 1) + (agents - n)
  }

  lemma {:induction false} GaussSum(agents: nat, n: nat)
    requires 0 < agents && n <= agents
    ensures 2 * Gaps(agents, n) == n * (2 * agents - 1 - n)
  {
    if n > 0 {
      GaussSum(agents, n - 1);
      var rest := 2 * agents - 1 - n;
      assert n * rest == (n - 1) * rest + rest;
      assert (n - 1) * (rest + 1) == (n - 1) * rest + (n - 1);
    }
  }

  /** The counts are exact, and the error moves the pool by less than one token. */
  predicate IsPrecise(f: Float, pool: nat, agents: nat) {
    && pool <= f.exactTo && agents <= f.exactTo
    && Of(pool) * f.up < Of(pool) + 1.0
    && Of(pool) - 1.0 < Of(pool) * f.down
  }

  /** Doubles, with u = 2^-53, are precise for pools of up to 2^51 tokens. */
  lemma DoublesArePrecise(f: Float, u: real, pool: nat, agents: nat)
    requires u == 1.0 / 9007199254740992.0 && f.exactTo == 9007199254740992
    requires HasRoundoff(f, u)
    requires pool <= 2251799813685248 && agents <= f.exactTo
    ensures IsPrecise(f, pool, agents)
  {
    var p, e := Of(pool), 7.0 / 18014398509481984.0;
    assert f.up <= 1.0 + e && 1.0 - e <= f.down;
    assert e * 2251799813685248.0 < 1.0;
    Times(p, 2251799813685248.0, e);
    Times(f.up, 1.0 + e, p);
    Times(1.0 - e, f.down, p);
  }

  /** What one gap is worth: the pool over (agents - 1) * agents. */
  predicate IsUnit(pool: nat, agents: nat, unit: real)
    requires agents > 0
  {
    unit * (Of(agents) * Of(agents - 1)) == Of(pool)
  }

  function Exact(unit: real, agents: nat, index: nat): real
    requires index < agents
  {
    unit * Of(agents - 1 - index)
  }

  lemma ExactIsShare(unit: real, n: real, b: real, gap: real, pool: real)
    requires unit * (n * b) == pool
    ensures unit * gap * (n * b) == pool * gap
  {
    Swap(unit, gap, n * b);
  }

  lemma BonusIsClose(f: Float, pool: nat, agents: nat, index: nat, unit: real)
    requires IsFloat(f) && pool <= f.exactTo && agents <= f.exactTo && index < agents && agents > 1
    requires IsUnit(pool, agents, unit)
    ensures Close(f, Of(Bonus(f, pool, agents, index)), Exact(unit, agents, index), 1.0)
  {
    EarlierBonusIsNoLess(f, pool, agents, index, index);
    ExactIsShare(unit, Of(agents), Of(agents - 1), Of(agents - 1 - index), Of(pool));
    assert ShareClose(f, Of(pool), Of(agents - 1 - index), Of(agents - 1), Of(agents), Exact(unit, agents, index));
    CutShort(f, Shared(f, pool, agents, index), Of(Bonus(f, pool, agents, index)), Exact(unit, agents, index));
  }

  lemma CutShort(f: Float, y: real, cut: real, exact: real)
    requires cut <= y <= cut + 1.0 && Close(f, y, exact, 0.0)
    ensures Close(f, cut, exact, 1.0)
  {
  }

  /** What the first n agents should get together. */
  function ExactTotal(unit: real, agents: nat, n: nat): real
    requires n <= agents
  {
    if n == 0 then 0.0 else ExactTotal(unit, agents, n - 1) + Exact(unit, agents, n - 1)
  }

  lemma {:induction false} BonusesAreClose(f: Float, pool: nat, agents: nat, n: nat, unit: real)
    requires IsFloat(f) && pool <= f.exactTo && agents <= f.exactTo && n <= agents && agents > 1
    requires IsUnit(pool, agents, unit)
    ensures Close(f, Of(BonusTotal(f, pool, agents, n)), ExactTotal(unit, agents, n), Of(n))
  {
    if n > 0 {
      BonusesAreClose(f, pool, agents, n - 1, unit);
      BonusIsClose(f, pool, agents, n - 1, unit);
      CloseSum(f, Of(BonusTotal(f, pool, agents, n - 1)), ExactTotal(unit, agents, n - 1), Of(n - 1),
               Of(Bonus(f, pool, agents, n - 1)), Exact(unit, agents, n - 1));
    }
  }

  lemma CloseSum(f: Float, sum: real, exact: real, slack: real, bonus: real, share: real)
    requires Close(f, sum, exact, slack) && Close(f, bonus, share, 1.0)
    ensures Close(f, sum + bonus, exact + share, slack + 1.0)
  {
    assert (exact + share) * f.down == exact * f.down + share * f.down;
    assert (exact + share) * f.up == exact * f.up + share * f.up;
  }

  lemma {:induction false} TotalOfGaps(unit: real, agents: nat, n: nat)
    requires n <= agents
    ensures ExactTotal(unit, agents, n) == unit * Of(Gaps(agents, n))
  {
    if n > 0 {
      TotalOfGaps(unit, agents, n - 1);
      SplitProduct(unit, Of(Gaps(agents, n - 1)), Of(agents - n), Of(Gaps(agents, n)));
    }
  }

  lemma SplitProduct(c: real, x: real, y: real, sum: real)
    requires sum == x + y
    ensures c * sum == c * x + c * y
  {
  }

  lemma CancelReal(a: real, b: real, c: real)
    requires 0.0 < c && a * c <= b * c
    ensures a <= b
  {
  }

  /** All gaps together are worth half the pool. */
  lemma HalfAsExact(pool: nat, agents: nat) returns (unit: real)
    requires agents > 1
    ensures IsUnit(pool, agents, unit) && 2.0 * ExactTotal(unit, agents, agents) == Of(pool)
  {
    var parts := Of(agents) * Of(agents - 1);
    Positive(Of(agents), Of(agents - 1));
    unit := Of(pool) / parts;
    assert unit * parts == Of(pool);
    TotalOfGaps(unit, agents, agents);
    GapsAsReal(agents);
    assert 2.0 * (unit * Of(Gaps(agents, agents))) == unit * (2.0 * Of(Gaps(agents, agents)));
  }

  /** The bonuses together use half of their pool, but for less than a token per agent. */
  lemma BonusesUseHalfThePool(f: Float, pool: nat, agents: nat)
    requires IsFloat(f) && IsPrecise(f, pool, agents) && agents > 0
    ensures 2 * BonusTotal(f, pool, agents, agents) <= pool
    ensures agents > 1 ==> pool <= 2 * (BonusTotal(f, pool, agents, agents) + agents)
  {
    if agents == 1 {
      assert BonusTotal(f, pool, 1, 1) == BonusTotal(f, pool, 1, 0) + Bonus(f, pool, 1, 0);
    } else {
      var unit := HalfAsExact(pool, agents);
      BonusesAreClose(f, pool, agents, agents, unit);
      WithinOne(f, BonusTotal(f, pool, agents, agents), agents, pool, ExactTotal(unit, agents, agents));
    }
  }

  lemma WithinOne(f: Float, sum: nat, n: nat, pool: nat, exact: real)
    requires IsPrecise(f, pool, n) && 2.0 * exact == Of(pool) && Close(f, Of(sum), exact, Of(n))
    ensures 2 * sum <= pool <= 2 * (sum + n)
  {
    assert 2.0 * (exact * f.up) == Of(pool) * f.up && 2.0 * (exact * f.down) == Of(pool) * f.down;
    assert Of(2 * sum) < Of(pool + 1) && Of(pool) < Of(2 * (sum + n) + 1);
  }

  lemma GapsAsReal(agents: nat)
    requires agents > 1
    ensures 2.0 * Of(Gaps(agents, agents)) == Of(agents) * Of(agents - 1)
  {
    GaussSum(agents, agents);
    assert 2 * Gaps(agents, agents) == agents * (agents - 1);
    Product(agents, agents - 1);
  }

  lemma Product(a: nat, b: nat)
    ensures Of(a * b) == Of(a) * Of(b)
  {
  }

  /** All shares together never exceed 84% of the budget. */
  lemma SharesStayWithin84Percent(f: Float, total: nat, agents: nat)
    requires IsFloat(f) && IsPrecise(f, PriorityPool(total), agents) && agents > 0
    ensures 100 * Allocated(f, total, agents, agents) <= 84 * total
  {
    AllocatedIsBaseAndBonus(f, total, agents, Distributable(total) / agents, agents);
    DivBounds(Distributable(total), agents);
    BonusesUseHalfThePool(f, PriorityPool(total), agents);
  }

  lemma Remainder(a: nat, b: nat)
    requires b > 0
    ensures a == a / b * b + a % b
  {
  }

  lemma FitsExactly(total: nat, even: nat, left: nat, bonuses: nat)
    requires Distributable(total) == even + left
    ensures 100 * (even + bonuses) <= 80 * total <==> bonuses <= left
  {
  }

  /**
    A fifth of the budget is meant to stay in reserve.  Under any rounding at all, it
    does exactly when the bonuses fit in what the even division leaves over.
   */
  lemma ReserveKeptExactlyWhen(f: Float, total: nat, agents: nat)
    requires agents > 0
    ensures 100 * Allocated(f, total, agents, agents) <= 80 * total <==>
              BonusTotal(f, PriorityPool(total), agents, agents) <= Distributable(total) % agents
  {
    var even := Distributable(total) / agents;
    AllocatedIsBaseAndBonus(f, total, agents, even, agents);
    Remainder(Distributable(total), agents);
    FitsExactly(total, even * agents, Distributable(total) % agents, BonusTotal(f, PriorityPool(total), agents, agents));
  }

  /**
    In closed form: the reserve is kept with a single agent, and whenever half the
    pool fits in the remainder of the even division ...
   */
  lemma ReserveIsKept(f: Float, total: nat, agents: nat)
    requires IsFloat(f) && IsPrecise(f, PriorityPool(total), agents) && agents > 0
    requires agents == 1 || PriorityPool(total) / 2 <= Distributable(total) % agents
    ensures 100 * Allocated(f, total, agents, agents) <= 80 * total
  {
    ReserveKeptExactlyWhen(f, total, agents);
    BonusesUseHalfThePool(f, PriorityPool(total), agents);
    if agents == 1 {
      assert BonusTotal(f, PriorityPool(total), 1, 1) == BonusTotal(f, PriorityPool(total), 1, 0);
    }
  }

  /** ... and cut into when the remainder falls short of that by more than a token per agent. */
  lemma ReserveIsCutInto(f: Float, total: nat, agents: nat)
    requires IsFloat(f) && IsPrecise(f, PriorityPool(total), agents) && agents > 1
    requires 2 * (Distributable(total) % agents + agents) < PriorityPool(total)
    ensures 80 * total < 100 * Allocated(f, total, agents, agents)
  {
    ReserveKeptExactlyWhen(f, total, agents);
    BonusesUseHalfThePool(f, PriorityPool(total), agents);
  }

  /** The default budget and two agents: 84% goes out, in exact arithmetic. */
  lemma DefaultBudgetCutsIntoTheReserve()
    ensures 80 * 100_000 < 100 * Allocated(Exactly(100_000), 100_000, 2, 2)
    ensures 100 * Allocated(Exactly(100_000), 100_000, 2, 2) <= 84 * 100_000
  {
    ExactIsFloat(100_000);
    ExactIsPrecise(100_000, PriorityPool(100_000), 2);
    ReserveIsCutInto(Exactly(100_000), 100_000, 2);
    SharesStayWithin84Percent(Exactly(100_000), 100_000, 2);
  }
}
