/**
  Decay tiers and budget pressure, in exact reals.

  The growth of half-life with importance, `2^((importance - 50) / 25)`, is a parameter `pow2` that
  is positive and does not decrease; nothing here depends on its other values.
 */
module Decay {
  const H50: real := 24.0
  const D: real := 25.0
  const G: real := 2.0
  const Z1: real := 0.201
  const Z2: real := 0.729
  const Z3: real := 1.322
  const Z4: real := 2.587
  const P_FLOOR: real := 0.1

  type Tier = t: nat | 1 <= t <= 5 witness 1

  /** `TIER_COST`; a P5 compartment is archived and costs nothing here. */
  function TierCost(t: Tier): real {
    if t == 1 then 322.0 else if t == 2 then 109.0 else if t == 3 then 35.0 else if t == 4 then 20.0 else 5.0
  }

  ghost predicate Growth(pow2: real -> real) {
    && (forall x :: pow2(x) > 0.0)
    && (forall x, y | x <= y :: pow2(x) <= pow2(y))
  }

  function Max(a: real, b: real): real {
    if a < b then b else a
  }

  function ClampImportance(importance: int): real {
    if importance < 1 then 1.0 else if importance > 100 then 100.0 else importance as real
  }

  function Age(index: nat): real {
    if index < 1 then 0.0 else (index - 1) as real
  }

  /** Half-life at pressure 1. */
  function HalfLife(importance: int, pow2: real -> real): (h: real)
    requires Growth(pow2)
    ensures h > 0.0
  {
    H50 * pow2((ClampImportance(importance) - 50.0) / D)
  }

  function Effective(pressure: real): (p: real)
    ensures p >= P_FLOOR > 0.0
  {
    Max(pressure, P_FLOOR)
  }

  function ZValue(index: nat, importance: int, pressure: real, pow2: real -> real): real
    requires Growth(pow2)
  {
    Age(index) / (HalfLife(importance, pow2) / Effective(pressure))
  }

  function TierOf(index: nat, importance: int, pressure: real, pow2: real -> real): Tier
    requires Growth(pow2)
  {
    TierAt(ZValue(index, importance, pressure, pow2))
  }

  function TierAt(z: real): Tier {
    if z < Z1 then 1 else if z < Z2 then 2 else if z < Z3 then 3 else if z < Z4 then 4 else 5
  }

  function Clamp01(x: real): real {
    if x < 0.0 then 0.0 else if x > 1.0 then 1.0 else x
  }

  predicate ShouldArchive(index: nat, importance: int, pressure: real, overlap: real, pow2: real -> real)
    requires Growth(pow2)
  {
    ZValue(index, importance, pressure, pow2) >= Z4 + G * Clamp01(overlap)
  }

  function RenderedTier(index: nat, importance: int, pressure: real, overlap: real, pow2: real -> real): Tier
    requires Growth(pow2)
  {
    if ShouldArchive(index, importance, pressure, overlap, pow2) then 5
    else if TierOf(index, importance, pressure, pow2) < 4 then TierOf(index, importance, pressure, pow2) else 4
  }

  // ----- Division-free form

  /** A quotient of a quotient, as the ratio it is. */
  lemma AsRatio(a: real, h: real, p: real) returns (z: real)
    requires h > 0.0 && p > 0.0
    ensures z == a / (h / p) && z * h == a * p
  {
    var q := h / p;
    assert q * p == h;
    assert q > 0.0;
    z := a / q;
    assert z * q == a;
    Assoc(z, q, p);
  }

  /** A compartment is below a boundary while `age * pressure` is below the boundary's share of the half-life. */
  lemma BelowBoundary(index: nat, importance: int, pressure: real, pow2: real -> real, z: real)
    requires Growth(pow2)
    ensures ZValue(index, importance, pressure, pow2) < z
       <==> Age(index) * Effective(pressure) < z * HalfLife(importance, pow2)
  {
    var value := AsRatio(Age(index), HalfLife(importance, pow2), Effective(pressure));
    AtMostQuotient(z, HalfLife(importance, pow2), value);
  }

  // ----- Monotonicity

  lemma Product(a: real, b: real, c: real, d: real)
    requires 0.0 <= a <= b && 0.0 <= c <= d
    ensures a * c <= b * d
  {
    assert a * c <= b * c by {
      assert (b - a) * c >= 0.0;
    }
    assert b * c <= b * d by {
      assert b * (d - c) >= 0.0;
    }
  }

  lemma HalfLifeGrows(importance: int, importance': int, pow2: real -> real)
    requires Growth(pow2) && importance <= importance'
    ensures HalfLife(importance, pow2) <= HalfLife(importance', pow2)
  {
    var x, x' := (ClampImportance(importance) - 50.0) / D, (ClampImportance(importance') - 50.0) / D;
    assert x <= x';
  }

  /** Older, less important or under more pressure: never a lower tier. */
  lemma TierIsMonotone(
    index: nat, index': nat, importance: int, importance': int, pressure: real, pressure': real, pow2: real -> real)
    requires Growth(pow2)
    requires index <= index' && importance' <= importance && pressure <= pressure'
    ensures TierOf(index, importance, pressure, pow2) <= TierOf(index', importance', pressure', pow2)
  {
    HalfLifeGrows(importance', importance, pow2);
    RatioGrows(Age(index), Age(index'), HalfLife(importance, pow2), HalfLife(importance', pow2),
               Effective(pressure), Effective(pressure'));
    TierGrows(ZValue(index, importance, pressure, pow2), ZValue(index', importance', pressure', pow2));
  }

  lemma RatioGrows(a: real, a': real, h: real, h': real, p: real, p': real)
    requires 0.0 <= a <= a' && 0.0 < h' <= h && 0.0 < p <= p'
    ensures a / (h / p) <= a' / (h' / p')
  {
    var z := AsRatio(a, h, p);
    var z' := AsRatio(a', h', p');
    Product(a, a', p, p');
    NonNegativeProduct(a', p');
    NonNegativeRatio(z', h');
    Product(z', z', h', h);
    AtMostQuotient(z, h, z');
  }

  lemma NonNegativeRatio(z: real, h: real)
    requires h > 0.0 && z * h >= 0.0
    ensures z >= 0.0
  {
    if z < 0.0 {
      Positive(-z, h);
    }
  }

  lemma TierGrows(z: real, z': real)
    requires z <= z'
    ensures TierAt(z) <= TierAt(z')
  {
  }

  /** Overlap only ever protects, only from being archived, and without it the rendered tier is the natural one. */
  lemma OverlapProtects(index: nat, importance: int, pressure: real, overlap: real, pow2: real -> real)
    requires Growth(pow2)
    ensures RenderedTier(index, importance, pressure, overlap, pow2) <= TierOf(index, importance, pressure, pow2)
    ensures TierOf(index, importance, pressure, pow2) == 5 ==>
              RenderedTier(index, importance, pressure, overlap, pow2) >= 4
    ensures TierOf(index, importance, pressure, pow2) < 5 || overlap <= 0.0 ==>
              RenderedTier(index, importance, pressure, overlap, pow2) == TierOf(index, importance, pressure, pow2)
  {
  }

  /** Nothing in `0..1` is nearer to `x` than its clamped value. */
  lemma ClampIsNearest(x: real, y: real)
    requires 0.0 <= y <= 1.0
    ensures 0.0 <= Clamp01(x) <= 1.0
    ensures (x - Clamp01(x)) * (x - Clamp01(x)) <= (x - y) * (x - y)
  {
    var r := Clamp01(x);
    if x < r {
      Product(r - x, y - x, r - x, y - x);
    } else {
      if x > r {
        Product(x - r, x - y, x - r, x - y);
      }
      Square(x - y);
    }
  }

  lemma Square(a: real)
    ensures a * a >= 0.0
  {
    if a < 0.0 {
      Positive(-a, -a);
    } else {
      NonNegativeProduct(a, a);
    }
  }

  /** A compartment is archived from `Z4` half-lives on, and `G` later for each unit of overlap up to one. */
  lemma OverlapMovesTheArchiveLine(index: nat, importance: int, pressure: real, overlap: real, pow2: real -> real)
    requires Growth(pow2)
    ensures
      var z := ZValue(index, importance, pressure, pow2);
      && (overlap <= 0.0 ==> (RenderedTier(index, importance, pressure, overlap, pow2) == 5 <==> z >= Z4))
      && (0.0 <= overlap <= 1.0 ==>
            (RenderedTier(index, importance, pressure, overlap, pow2) == 5 <==> z >= Z4 + G * overlap))
      && (overlap >= 1.0 ==> (RenderedTier(index, importance, pressure, overlap, pow2) == 5 <==> z >= Z4 + G))
  {
  }

  /**
    What a tier means: at index 1 the newest compartment has age 0, and a compartment of age `a` has
    reached a tier when `a` times the pressure, floored, is that tier's share of the half-life.
   */
  lemma TierIsAgeInHalfLives(index: nat, importance: int, pressure: real, pow2: real -> real, k: nat)
    requires Growth(pow2) && 1 <= k <= 4
    ensures
      var age := if index == 0 then 0.0 else index as real - 1.0;
      var p := if pressure < P_FLOOR then P_FLOOR else pressure;
      TierOf(index, importance, pressure, pow2) > k <==> age * p >= Boundary(k) * HalfLife(importance, pow2)
  {
    BelowBoundary(index, importance, pressure, pow2, Boundary(k));
    TierAboveBoundary(ZValue(index, importance, pressure, pow2), k);
  }

  lemma TierAboveBoundary(z: real, k: nat)
    requires 1 <= k <= 4
    ensures TierAt(z) > k <==> z >= Boundary(k)
  {
  }

  /** Twenty-five points of importance double the half-life, from 24 at 50, between importance 1 and 100. */
  lemma HalfLifeDoubles(importance: int, pow2: real -> real)
    requires Growth(pow2) && (forall x :: pow2(x + 1.0) == 2.0 * pow2(x)) && pow2(0.0) == 1.0
    ensures HalfLife(50, pow2) == 24.0
    ensures 1 <= importance <= 75 ==> HalfLife(importance + 25, pow2) == 2.0 * HalfLife(importance, pow2)
    ensures importance < 1 ==> HalfLife(importance, pow2) == HalfLife(1, pow2)
    ensures importance > 100 ==> HalfLife(importance, pow2) == HalfLife(100, pow2)
  {
    if 1 <= importance <= 75 {
      var x := (importance as real - 50.0) / D;
      assert ((importance + 25) as real - 50.0) / D == x + 1.0;
    }
    assert (50.0 - 50.0) / D == 0.0;
  }

  // ----- Costs

  /** A compartment as the budget counts it: index 1 is the newest. */
  datatype DecayInput = DecayInput(index: nat, importance: int)

  function NaturalCost(t: Tier): real {
    if t < 5 then TierCost(t) else 0.0
  }

  function Cost(compartments: seq<DecayInput>, pressure: real, pow2: real -> real): real
    requires Growth(pow2)
  {
    if compartments == [] then 0.0
    else
      var last := compartments[|compartments| - 1];
      Cost(compartments[..|compartments| - 1], pressure, pow2)
      + NaturalCost(TierOf(last.index, last.importance, pressure, pow2))
  }

  /** What the pressure is, as a function of the natural cost. */
  function PressureFor(cost: real, budget: real): real {
    if budget <= 0.0 then 1.0 else Max(cost / budget, P_FLOOR)
  }

  /** The pressure is enough for `cost` to fit the budget once it is scaled down, and is allowed. */
  predicate Affords(pressure: real, cost: real, budget: real) {
    pressure >= P_FLOOR && cost <= budget * pressure
  }

  /** A quotient is the least factor. */
  lemma QuotientIsLeast(cost: real, budget: real, q: real)
    requires budget > 0.0
    ensures cost / budget <= q <==> cost <= budget * q
  {
    var ratio := cost / budget;
    assert ratio * budget == cost;
    AtMostQuotient(ratio, budget, q);
  }

  lemma PressureIsLeast(cost: real, budget: real, q: real)
    requires budget > 0.0
    ensures Affords(PressureFor(cost, budget), cost, budget)
    ensures Affords(q, cost, budget) ==> PressureFor(cost, budget) <= q
  {
    QuotientIsLeast(cost, budget, PressureFor(cost, budget));
    QuotientIsLeast(cost, budget, q);
  }

  /**
    `compute_budget_pressure`: the least allowed pressure at which the natural cost, scaled down by
    it, fits the budget; less than 1 for a history with budget to spare, and 1 without a budget.
   */
  method ComputeBudgetPressure(compartments: seq<DecayInput>, budget: real, pow2: real -> real) returns (pressure: real)
    requires Growth(pow2)
    ensures pressure == PressureFor(Cost(compartments, 1.0, pow2), budget)
    ensures budget <= 0.0 ==> pressure == 1.0
    ensures budget > 0.0 ==> Affords(pressure, Cost(compartments, 1.0, pow2), budget)
    ensures budget > 0.0 ==> forall q | Affords(q, Cost(compartments, 1.0, pow2), budget) :: pressure <= q
  {
    if budget <= 0.0 {
      return 1.0;
    }
    var naturalCost := 0.0;
    for k := 0 to |compartments|
      invariant naturalCost == Cost(compartments[..k], 1.0, pow2)
    {
      assert compartments[..k + 1][..k] == compartments[..k];
      var c := compartments[k];
      var naturalTier := TierOf(c.index, c.importance, 1.0, pow2);
      if naturalTier < 5 {
        naturalCost := naturalCost + TierCost(naturalTier);
      }
    }
    assert compartments[..|compartments|] == compartments;
    pressure := Max(naturalCost / budget, P_FLOOR);
    forall q
      ensures Affords(pressure, naturalCost, budget)
      ensures Affords(q, naturalCost, budget) ==> pressure <= q
    {
      PressureIsLeast(naturalCost, budget, q);
    }
  }

  // ----- The budget bound

  /** A history of `n` compartments of one importance, newest first. */
  function History(n: nat, importance: int): (h: seq<DecayInput>)
    ensures |h| == n
  {
    if n == 0 then [] else History(n - 1, importance) + [DecayInput(n, importance)]
  }

  /** How many of the first `n` ages lie below `bound` when each step ages by `p`. */
  function Below(n: nat, p: real, bound: real): real {
    if n == 0 then 0.0 else Below(n - 1, p, bound) + One((n - 1) as real * p < bound)
  }

  /** The cost is a weighted count: each boundary a compartment has not reached adds its step in price. */
  function Layered(n: nat, p: real, h: real): real {
    213.0 * Below(n, p, Z1 * h) + 74.0 * Below(n, p, Z2 * h) + 15.0 * Below(n, p, Z3 * h) + 20.0 * Below(n, p, Z4 * h)
  }

  function One(b: bool): real {
    if b then 1.0 else 0.0
  }

  lemma PriceIsLayered(z: real)
    ensures NaturalCost(TierAt(z)) == 213.0 * One(z < Z1) + 74.0 * One(z < Z2) + 15.0 * One(z < Z3) + 20.0 * One(z < Z4)
  {
  }

  lemma LayersAdd(n: nat, p: real, h: real, b1: bool, b2: bool, b3: bool, b4: bool)
    requires n > 0
    requires b1 == ((n - 1) as real * p < Z1 * h) && b2 == ((n - 1) as real * p < Z2 * h)
    requires b3 == ((n - 1) as real * p < Z3 * h) && b4 == ((n - 1) as real * p < Z4 * h)
    ensures Layered(n, p, h)
         == Layered(n - 1, p, h) + (213.0 * One(b1) + 74.0 * One(b2) + 15.0 * One(b3) + 20.0 * One(b4))
  {
  }

  lemma CostTurns(n: nat, importance: int, pressure: real, pow2: real -> real)
    requires Growth(pow2) && n > 0
    ensures Cost(History(n, importance), pressure, pow2)
         == Cost(History(n - 1, importance), pressure, pow2)
            + NaturalCost(TierAt(ZValue(n, importance, pressure, pow2)))
  {
    assert History(n, importance)[..n - 1] == History(n - 1, importance);
    assert History(n, importance)[n - 1] == DecayInput(n, importance);
  }

  lemma LayersTurn(n: nat, importance: int, pressure: real, pow2: real -> real)
    requires Growth(pow2) && n > 0
    ensures Layered(n, Effective(pressure), HalfLife(importance, pow2))
         == Layered(n - 1, Effective(pressure), HalfLife(importance, pow2))
            + NaturalCost(TierAt(ZValue(n, importance, pressure, pow2)))
  {
    BelowBoundary(n, importance, pressure, pow2, Z1);
    BelowBoundary(n, importance, pressure, pow2, Z2);
    BelowBoundary(n, importance, pressure, pow2, Z3);
    BelowBoundary(n, importance, pressure, pow2, Z4);
    assert Age(n) == (n - 1) as real;
    var z := ZValue(n, importance, pressure, pow2);
    PriceIsLayered(z);
    LayersAdd(n, Effective(pressure), HalfLife(importance, pow2), z < Z1, z < Z2, z < Z3, z < Z4);
  }

  lemma {:induction false} CostIsLayered(n: nat, importance: int, pressure: real, pow2: real -> real)
    requires Growth(pow2)
    ensures Cost(History(n, importance), pressure, pow2) == Layered(n, Effective(pressure), HalfLife(importance, pow2))
  {
    if n == 0 {
      assert History(n, importance) == [];
    } else {
      CostIsLayered(n - 1, importance, pressure, pow2);
      CostTurns(n, importance, pressure, pow2);
      LayersTurn(n, importance, pressure, pow2);
    }
  }

  /** The ages below a bound are the first ones: at most `bound / p` of them and one more. */
  lemma {:induction false} BelowIsBounded(n: nat, p: real, bound: real)
    requires p > 0.0 && bound > 0.0
    ensures 0.0 <= Below(n, p, bound) <= n as real
    ensures Below(n, p, bound) * p < bound + p
    ensures n == 0 || (n - 1) as real * p < bound ==> Below(n, p, bound) == n as real
    ensures n > 0 && (n - 1) as real * p >= bound ==> Below(n, p, bound) * p >= bound
  {
    if n > 0 {
      BelowIsBounded(n - 1, p, bound);
      var age := (n - 1) as real;
      if age * p < bound {
        if n > 1 {
          assert (n - 2) as real * p < bound by {
            assert (n - 2) as real == age - 1.0;
            assert (age - 1.0) * p == age * p - p;
          }
        }
        assert Below(n, p, bound) == n as real;
        assert n as real * p == age * p + p;
      } else if n > 1 && (n - 2) as real * p < bound {
        assert Below(n, p, bound) == age;
      }
    }
  }

  /** Stretching the ages by `p` multiplies a boundary's count by less than `1 / p`, and one more. */
  lemma CountScales(n: nat, p: real, bound: real)
    requires p > 0.0 && bound > 0.0
    requires p <= 1.0 || (n > 0 && (n - 1) as real >= bound)
    ensures Below(n, p, bound) * p < Below(n, 1.0, bound) + p
  {
    BelowIsBounded(n, p, bound);
    BelowIsBounded(n, 1.0, bound);
    if n == 0 || (n - 1) as real * 1.0 < bound {
      assert Below(n, p, bound) * p <= n as real * p;
      Product(n as real, n as real, p, 1.0);
    }
  }

  /** What `CountScales` says of one boundary. */
  predicate Scales(n: nat, p: real, bound: real) {
    Below(n, p, bound) * p < Below(n, 1.0, bound) + p
  }

  lemma CountScalesWithin(n: nat, p: real, bound: real, limit: real)
    requires p > 0.0 && 0.0 < bound <= limit
    requires p <= 1.0 || (n > 0 && (n - 1) as real >= limit)
    ensures Scales(n, p, bound)
  {
    CountScales(n, p, bound);
  }

  lemma Stretched(z: real, top: real, h: real)
    requires 0.0 < z <= top && h > 0.0
    ensures 0.0 < z * h <= top * h
  {
    Positive(z, h);
    Product(z, top, h, h);
  }

  lemma BoundaryScales(n: nat, p: real, z: real, h: real)
    requires p > 0.0 && h > 0.0 && 0.0 < z <= Z4
    requires p <= 1.0 || (n > 0 && (n - 1) as real >= Z4 * h)
    ensures Scales(n, p, z * h)
  {
    Stretched(z, Z4, h);
    CountScalesWithin(n, p, z * h, Z4 * h);
  }

  /** Weighted counts scale as their counts do, with the price of the freshest tier as the overshoot. */
  lemma Weigh(a: real, b: real, c: real, d: real, a': real, b': real, c': real, d': real, p: real)
    returns (stretched: real, cost: real)
    requires a * p < a' + p && b * p < b' + p && c * p < c' + p && d * p < d' + p
    ensures stretched == 213.0 * a + 74.0 * b + 15.0 * c + 20.0 * d
    ensures cost == 213.0 * a' + 74.0 * b' + 15.0 * c' + 20.0 * d'
    ensures stretched * p < cost + TierCost(1) * p
  {
    stretched, cost := 213.0 * a + 74.0 * b + 15.0 * c + 20.0 * d, 213.0 * a' + 74.0 * b' + 15.0 * c' + 20.0 * d';
    assert (213.0 * a + 74.0 * b + 15.0 * c + 20.0 * d) * p
        == 213.0 * (a * p) + 74.0 * (b * p) + 15.0 * (c * p) + 20.0 * (d * p);
  }

  lemma LayersScale(n: nat, p: real, h: real) returns (stretched: real, cost: real)
    requires p > 0.0 && h > 0.0 && (p <= 1.0 || (n > 0 && (n - 1) as real >= Z4 * h))
    ensures stretched == Layered(n, p, h) && cost == Layered(n, 1.0, h)
    ensures stretched * p < cost + TierCost(1) * p
  {
    BoundaryScales(n, p, Z1, h);
    BoundaryScales(n, p, Z2, h);
    BoundaryScales(n, p, Z3, h);
    BoundaryScales(n, p, Z4, h);
    stretched, cost := Weigh(
      Below(n, p, Z1 * h), Below(n, p, Z2 * h), Below(n, p, Z3 * h), Below(n, p, Z4 * h),
      Below(n, 1.0, Z1 * h), Below(n, 1.0, Z2 * h), Below(n, 1.0, Z3 * h), Below(n, 1.0, Z4 * h), p);
  }

  lemma {:induction false} BelowIsNatural(n: nat, p: real, bound: real)
    ensures Below(n, p, bound) >= 0.0
  {
    if n > 0 {
      BelowIsNatural(n - 1, p, bound);
    }
  }

  lemma CostIsNatural(n: nat, importance: int, pow2: real -> real)
    requires Growth(pow2)
    ensures Cost(History(n, importance), 1.0, pow2) >= 0.0
  {
    var h := HalfLife(importance, pow2);
    CostIsLayered(n, importance, 1.0, pow2);
    BelowIsNatural(n, 1.0, Z1 * h);
    BelowIsNatural(n, 1.0, Z2 * h);
    BelowIsNatural(n, 1.0, Z3 * h);
    BelowIsNatural(n, 1.0, Z4 * h);
  }

  lemma Positive(a: real, b: real)
    requires a > 0.0 && b > 0.0
    ensures a * b > 0.0
  {
  }

  /** `cost / p` stays within the budget the pressure was derived from, floor or no floor. */
  lemma PressureMeetsBudget(cost: real, budget: real)
    requires cost >= 0.0 && budget > 0.0
    ensures cost <= budget * PressureFor(cost, budget)
  {
    var q := cost / budget;
    assert q * budget == cost;
    var p := PressureFor(cost, budget);
    assert q <= p;
    assert (p - q) * budget >= 0.0;
  }

  /** More pressure never costs more, whatever the history. */
  lemma {:induction false} CostFallsWithPressure(compartments: seq<DecayInput>, pressure: real, pressure': real,
                                                 pow2: real -> real)
    requires Growth(pow2) && pressure <= pressure'
    ensures Cost(compartments, pressure', pow2) <= Cost(compartments, pressure, pow2)
  {
    if compartments != [] {
      var last := compartments[|compartments| - 1];
      CostFallsWithPressure(compartments[..|compartments| - 1], pressure, pressure', pow2);
      TierIsMonotone(last.index, last.index, last.importance, last.importance, pressure, pressure', pow2);
      OlderIsCheaper(TierOf(last.index, last.importance, pressure, pow2),
                     TierOf(last.index, last.importance, pressure', pow2));
    }
  }

  lemma OlderIsCheaper(t: Tier, t': Tier)
    requires t <= t'
    ensures NaturalCost(t') <= NaturalCost(t)
  {
  }

  /**
    The pressure keeps its promise: at the derived pressure, a history's cost overshoots the budget
    by less than one freshest compartment. It is enough that the oldest compartment is an archive
    candidate at pressure 1, or that the history at pressure 1 is itself within that overshoot.
   */
  lemma BudgetIsMet(n: nat, importance: int, budget: real, pow2: real -> real)
    requires Growth(pow2) && budget > 0.0
    requires
      || (n > 0 && TierOf(n, importance, 1.0, pow2) == 5)
      || Cost(History(n, importance), 1.0, pow2) < budget + TierCost(1)
    ensures
      var pressure := PressureFor(Cost(History(n, importance), 1.0, pow2), budget);
      Cost(History(n, importance), pressure, pow2) < budget + TierCost(1)
  {
    CostIsNatural(n, importance, pow2);
    var cost := Cost(History(n, importance), 1.0, pow2);
    var p := PressureFacts(cost, budget);
    if n > 0 && TierOf(n, importance, 1.0, pow2) == 5 {
      OldestIsPast(n, importance, pow2);
      MetAt(n, importance, cost, budget, p, pow2);
    } else if p <= 1.0 {
      MetAt(n, importance, cost, budget, p, pow2);
    } else {
      CostFallsWithPressure(History(n, importance), 1.0, p, pow2);
    }
  }

  lemma PressureFacts(cost: real, budget: real) returns (p: real)
    requires cost >= 0.0 && budget > 0.0
    ensures p == PressureFor(cost, budget) && p >= P_FLOOR
    ensures cost <= budget * p
    ensures cost <= budget ==> p <= 1.0
  {
    p := PressureFor(cost, budget);
    PressureMeetsBudget(cost, budget);
    if cost <= budget {
      AtMostOne(cost, budget);
    }
  }

  /** Stretching a history's ages by `p` divides its cost by `p`, up to one freshest compartment. */
  lemma CostScales(n: nat, importance: int, p: real, pow2: real -> real) returns (stretched: real, cost: real)
    requires Growth(pow2) && p >= P_FLOOR
    requires p <= 1.0 || (n > 0 && (n - 1) as real >= Z4 * HalfLife(importance, pow2))
    ensures stretched == Cost(History(n, importance), p, pow2) && cost == Cost(History(n, importance), 1.0, pow2)
    ensures stretched * p < cost + TierCost(1) * p
  {
    CostIsLayered(n, importance, p, pow2);
    CostIsLayered(n, importance, 1.0, pow2);
    stretched, cost := LayersScale(n, p, HalfLife(importance, pow2));
  }

  lemma MetAt(n: nat, importance: int, cost: real, budget: real, p: real, pow2: real -> real)
    requires Growth(pow2) && p >= P_FLOOR
    requires cost == Cost(History(n, importance), 1.0, pow2) && cost <= budget * p
    requires p <= 1.0 || (n > 0 && (n - 1) as real >= Z4 * HalfLife(importance, pow2))
    ensures Cost(History(n, importance), p, pow2) < budget + TierCost(1)
  {
    var stretched, same := CostScales(n, importance, p, pow2);
    Overshoot(stretched, same, budget, p);
  }

  lemma Overshoot(stretched: real, cost: real, budget: real, p: real)
    requires p > 0.0
    requires stretched * p < cost + TierCost(1) * p && cost <= budget * p
    ensures stretched < budget + TierCost(1)
  {
    assert (budget + TierCost(1)) * p == budget * p + TierCost(1) * p;
    Cancel(stretched, budget + TierCost(1), p);
  }

  lemma OldestIsPast(n: nat, importance: int, pow2: real -> real)
    requires Growth(pow2) && n > 0 && TierOf(n, importance, 1.0, pow2) == 5
    ensures (n - 1) as real >= Z4 * HalfLife(importance, pow2)
  {
    BelowBoundary(n, importance, 1.0, pow2, Z4);
    assert Effective(1.0) == 1.0;
    assert Age(n) == (n - 1) as real;
  }

  lemma AtMostOne(cost: real, budget: real)
    requires 0.0 <= cost <= budget && budget > 0.0
    ensures PressureFor(cost, budget) <= 1.0
  {
    var q := cost / budget;
    assert q * budget == cost;
    if q > 1.0 {
      Positive(q - 1.0, budget);
    }
  }

  lemma Cancel(a: real, b: real, p: real)
    requires p > 0.0 && a * p < b * p
    ensures a < b
  {
    if a > b {
      Positive(a - b, p);
    }
  }

  /** Short of that the bound fails: four fresh compartments and half their cost as the budget. */
  lemma ShortHistoryOvershoots(pow2: real -> real)
    requires Growth(pow2) && pow2(0.0) == 1.0
    ensures Cost(History(4, 50), 1.0, pow2) == 1288.0
    ensures PressureFor(1288.0, 644.0) == 2.0
    ensures Cost(History(4, 50), 2.0, pow2) == 1075.0
    ensures 1075.0 >= 644.0 + TierCost(1)
  {
    assert HalfLife(50, pow2) == 24.0;
    CostIsLayered(4, 50, 1.0, pow2);
    CostIsLayered(4, 50, 2.0, pow2);
    FourCounts(1.0);
    FourCounts(2.0);
  }

  lemma FourCounts(p: real)
    requires p == 1.0 || p == 2.0
    ensures Below(4, p, Z1 * 24.0) == if p == 1.0 then 4.0 else 3.0
    ensures Below(4, p, Z2 * 24.0) == 4.0
    ensures Below(4, p, Z3 * 24.0) == 4.0
    ensures Below(4, p, Z4 * 24.0) == 4.0
  {
    forall bound | bound > 0.0
      ensures Below(4, p, bound)
           == One(0.0 * p < bound) + One(1.0 * p < bound) + One(2.0 * p < bound) + One(3.0 * p < bound)
    {
      assert Below(2, p, bound) == One(0.0 * p < bound) + One(1.0 * p < bound) by {
        assert Below(1, p, bound) == Below(0, p, bound) + One(0.0 * p < bound);
      }
      assert Below(3, p, bound) == Below(2, p, bound) + One(2.0 * p < bound);
    }
  }

  // ----- Exactly when the bound holds, for every budget

  function Boundary(k: nat): (z: real)
    requires 1 <= k <= 4
    ensures z > 0.0
  {
    if k == 1 then Z1 else if k == 2 then Z2 else if k == 3 then Z3 else Z4
  }

  /** How many of the ages `0..n` times `zi` are at most `zk * j`, namely `min(n, floor(zk * j / zi) + 1)`. */
  function Kept(n: nat, zk: real, zi: real, j: nat): real {
    if n == 0 then 0.0 else Kept(n - 1, zk, zi, j) + One((n - 1) as real * zi <= zk * j as real)
  }

  /** The cost just below the pressure at which age `j` crosses boundary `zi`. */
  function CostBelow(n: nat, zi: real, j: nat): real {
    213.0 * Kept(n, Z1, zi, j) + 74.0 * Kept(n, Z2, zi, j) + 15.0 * Kept(n, Z3, zi, j) + 20.0 * Kept(n, Z4, zi, j)
  }

  /** At this crossing the cost is within the overshoot of `cost` scaled down by the crossing's pressure. */
  predicate CrossingFits(n: nat, i: nat, j: nat, h: real, cost: real)
    requires 1 <= i <= 4
  {
    (CostBelow(n, Boundary(i), j) - TierCost(1)) * (Boundary(i) * h) <= cost * j as real
  }

  /**
    The crossings above pressure 1 all fit: at most `4 * (n - 1)` comparisons, on the number of
    compartments, their half-life and their cost at pressure 1 alone.
   */
  predicate CrossingsFit(n: nat, h: real, cost: real) {
    forall i, j: nat | 1 <= i <= 4 && 1 <= j < n && j as real < Boundary(i) * h :: CrossingFits(n, i, j, h, cost)
  }

  /** The promise for one budget. */
  predicate Meets(n: nat, importance: int, budget: real, pow2: real -> real)
    requires Growth(pow2)
  {
    var pressure := PressureFor(Cost(History(n, importance), 1.0, pow2), budget);
    Cost(History(n, importance), pressure, pow2) < budget + TierCost(1)
  }

  /** `Kept` in closed form. */
  lemma {:induction false} KeptIsFloor(n: nat, zk: real, zi: real, j: nat)
    requires zk > 0.0 && zi > 0.0
    ensures
      var whole := (zk * j as real / zi).Floor + 1;
      Kept(n, zk, zi, j) == if n < whole then n as real else whole as real
  {
    var q := zk * j as real / zi;
    assert q * zi == zk * j as real;
    NotNegative(zk, j as real, zi, q);
    KeptUpTo(n, zk, zi, j, q);
  }

  lemma {:induction false} KeptUpTo(n: nat, zk: real, zi: real, j: nat, q: real)
    requires zi > 0.0 && q >= 0.0 && q * zi == zk * j as real
    ensures Kept(n, zk, zi, j) == if n < q.Floor + 1 then n as real else (q.Floor + 1) as real
  {
    if n > 0 {
      KeptUpTo(n - 1, zk, zi, j, q);
      KeptTurn(n - 1, zi, q, zk * j as real);
    }
  }

  lemma KeptTurn(age: int, zi: real, q: real, most: real)
    requires zi > 0.0 && q * zi == most
    ensures age as real * zi <= most <==> age <= q.Floor
  {
    AtMostQuotient(age as real, zi, q);
    FloorIsLargest(age, q);
  }

  lemma FloorIsLargest(m: int, q: real)
    ensures m as real <= q <==> m <= q.Floor
  {
  }

  lemma NotNegative(zk: real, j: real, zi: real, q: real)
    requires zk > 0.0 && j >= 0.0 && zi > 0.0 && q * zi == zk * j
    ensures q >= 0.0
  {
    assert zk * j >= 0.0;
    if q < 0.0 {
      Positive(-q, zi);
    }
  }

  lemma AtMostQuotient(a: real, z: real, q: real)
    requires z > 0.0
    ensures a * z <= q * z <==> a <= q
  {
    if a < q {
      Positive(q - a, z);
    } else if a > q {
      Positive(a - q, z);
    }
  }

  // Failing crossings give failing budgets.

  /** Below its crossing pressure an age that was kept is still below its boundary. */
  lemma StillBelow(a: real, p: real, zk: real, zi: real, j: real, h: real)
    requires zk > 0.0 && zi > 0.0 && j > 0.0 && h > 0.0 && p > 0.0 && a >= 0.0
    requires j * p < zi * h && a * zi <= zk * j
    ensures a * p < zk * h
  {
    // (a p) zi <= zk j p < zk zi h
    var left, right := a * p, zk * h;
    assert left * zi == (a * zi) * p;
    Product(a * zi, zk * j, p, p) by {
      Product(0.0, a, zi, zi);
    }
    assert (zk * j) * p == zk * (j * p);
    assert zk * (j * p) < zk * (zi * h) by {
      Positive(zk, zi * h - j * p);
    }
    assert zk * (zi * h) == right * zi;
    Cancel2(left, right, zi);
  }

  lemma Cancel2(a: real, b: real, z: real)
    requires z > 0.0 && a * z < b * z
    ensures a < b
  {
    if a > b {
      Positive(a - b, z);
    }
  }

  lemma {:induction false} KeptStaysBelow(n: nat, p: real, zk: real, zi: real, j: nat, h: real)
    requires zk > 0.0 && zi > 0.0 && j > 0 && h > 0.0 && p > 0.0 && j as real * p < zi * h
    ensures Kept(n, zk, zi, j) <= Below(n, p, zk * h)
  {
    if n > 0 {
      KeptStaysBelow(n - 1, p, zk, zi, j, h);
      var age := (n - 1) as real;
      if age * zi <= zk * j as real {
        StillBelow(age, p, zk, zi, j as real, h);
      }
    }
  }

  /** A pressure just short of a crossing, close enough that scaling has already run out. */
  lemma PressureBefore(crossing: real, excess: real, cost: real) returns (p: real)
    requires crossing > 1.0 && cost > 0.0 && excess * crossing > cost
    ensures 1.0 < p < crossing && cost <= excess * p
  {
    ExcessIsPositive(excess, crossing, cost);
    var q := cost / excess;
    assert q * excess == cost;
    Cancel2(q, crossing, excess);
    var mid := (1.0 + crossing) / 2.0;
    p := if q < mid then mid else q;
    Product(excess, excess, q, p) by {
      assert q >= 0.0 by {
        if q < 0.0 {
          Positive(-q, excess);
        }
      }
    }
  }

  lemma ExcessIsPositive(excess: real, crossing: real, cost: real)
    requires crossing > 0.0 && cost > 0.0 && excess * crossing > cost
    ensures excess > 0.0
  {
    if excess < 0.0 {
      Positive(-excess, crossing);
    }
  }

  /** A budget that makes the pressure `p`. */
  lemma BudgetFor(cost: real, p: real) returns (budget: real)
    requires cost > 0.0 && p > 1.0
    ensures budget > 0.0 && budget * p == cost && PressureFor(cost, budget) == p
  {
    budget := cost / p;
    assert budget * p == cost;
    if budget < 0.0 {
      Positive(-budget, p);
    }
    assert budget != 0.0;
    var q := cost / budget;
    assert q * budget == cost == p * budget;
    AtMostQuotient(q, budget, p);
    AtMostQuotient(p, budget, q);
  }

  /** At a pressure short of the crossing, the cost is no less than just below the crossing. */
  lemma CostBeforeCrossing(n: nat, importance: int, p: real, pow2: real -> real, i: nat, j: nat, share: real)
    requires Growth(pow2) && p > 1.0 && 1 <= i <= 4 && j > 0
    requires share == Boundary(i) * HalfLife(importance, pow2) && j as real * p < share
    ensures CostBelow(n, Boundary(i), j) <= Cost(History(n, importance), p, pow2)
  {
    var h := HalfLife(importance, pow2);
    CostIsLayered(n, importance, p, pow2);
    LayersKept(n, p, h, Boundary(i), j, share);
  }

  lemma LayersKept(n: nat, p: real, h: real, zi: real, j: nat, share: real)
    requires h > 0.0 && zi > 0.0 && p > 0.0 && j > 0 && share == zi * h && j as real * p < share
    ensures CostBelow(n, zi, j) <= Layered(n, p, h)
  {
    KeptStaysBelow(n, p, Z1, zi, j, h);
    KeptStaysBelow(n, p, Z2, zi, j, h);
    KeptStaysBelow(n, p, Z3, zi, j, h);
    KeptStaysBelow(n, p, Z4, zi, j, h);
  }

  lemma Assoc(a: real, b: real, c: real)
    ensures (a * b) * c == a * (b * c)
  {
  }

  /** A crossing at `share / age` that does not fit leaves room for a failing budget. */
  lemma FailingBudget(share: real, age: real, excess: real, cost: real) returns (p: real, budget: real)
    requires 0.0 < age < share && cost > 0.0 && excess * share > cost * age
    ensures p > 1.0 && age * p < share
    ensures budget > 0.0 && PressureFor(cost, budget) == p && budget <= excess
  {
    var crossing := share / age;
    assert crossing * age == share;
    Cancel2(1.0, crossing, age);
    Assoc(excess, crossing, age);
    Cancel2(cost, excess * crossing, age);
    p := PressureBefore(crossing, excess, cost);
    budget := BudgetFor(cost, p);
    ShortOf(age, p, crossing, share);
    WithinExcess(budget, p, excess, cost);
  }

  lemma ShortOf(age: real, p: real, crossing: real, share: real)
    requires age > 0.0 && p < crossing && crossing * age == share
    ensures age * p < share
  {
    Positive(age, crossing - p);
  }

  lemma WithinExcess(budget: real, p: real, excess: real, cost: real)
    requires p > 0.0 && budget * p == cost && cost <= excess * p
    ensures budget <= excess
  {
    AtMostQuotient(budget, p, excess);
  }

  /** A crossing that does not fit gives a budget for which the promise fails. */
  lemma UnfitCrossingFails(n: nat, importance: int, pow2: real -> real, i: nat, j: nat, h: real, cost: real)
    returns (budget: real)
    requires Growth(pow2) && 1 <= i <= 4 && 1 <= j < n
    requires h == HalfLife(importance, pow2) && cost == Cost(History(n, importance), 1.0, pow2)
    requires j as real < Boundary(i) * h && !CrossingFits(n, i, j, h, cost)
    ensures budget > 0.0 && !Meets(n, importance, budget, pow2)
  {
    FreshestCosts(n, importance, 1.0, pow2);
    var share, age, excess := UnfitTerms(n, i, j, h, cost);
    var p;
    p, budget := FailingBudget(share, age, excess, cost);
    CostBeforeCrossing(n, importance, p, pow2, i, j, share);
    NotMet(n, importance, budget, p, cost, pow2);
  }

  lemma UnfitTerms(n: nat, i: nat, j: nat, h: real, cost: real) returns (share: real, age: real, excess: real)
    requires 1 <= i <= 4 && j as real < Boundary(i) * h && !CrossingFits(n, i, j, h, cost)
    ensures share == Boundary(i) * h && age == j as real < share && excess == CostBelow(n, Boundary(i), j) - TierCost(1)
    ensures excess * share > cost * age
  {
    share, age, excess := Boundary(i) * h, j as real, CostBelow(n, Boundary(i), j) - TierCost(1);
  }

  lemma NotMet(n: nat, importance: int, budget: real, p: real, cost: real, pow2: real -> real)
    requires Growth(pow2) && cost == Cost(History(n, importance), 1.0, pow2) && PressureFor(cost, budget) == p
    requires Cost(History(n, importance), p, pow2) >= budget + TierCost(1)
    ensures !Meets(n, importance, budget, pow2)
  {
  }

  /** The newest compartment is always paid for in full. */
  lemma {:induction false} FreshestCosts(n: nat, importance: int, p: real, pow2: real -> real)
    requires Growth(pow2) && n > 0
    ensures Cost(History(n, importance), p, pow2) >= TierCost(1)
  {
    var h := HalfLife(importance, pow2);
    CostIsLayered(n, importance, p, pow2);
    NewestIsBelow(n, Effective(p), Z1 * h);
    NewestIsBelow(n, Effective(p), Z2 * h);
    NewestIsBelow(n, Effective(p), Z3 * h);
    NewestIsBelow(n, Effective(p), Z4 * h);
  }

  lemma {:induction false} NewestIsBelow(n: nat, p: real, bound: real)
    requires n > 0 && bound > 0.0
    ensures Below(n, p, bound) >= 1.0
  {
    if n > 1 {
      NewestIsBelow(n - 1, p, bound);
    } else {
      assert 0 as real * p == 0.0;
    }
  }

  // Fitting crossings give every budget.

  /** Some age past the newest is below some boundary at this pressure. */
  ghost predicate Crosses(n: nat, p: real, h: real, i: nat, j: nat) {
    1 <= i <= 4 && 1 <= j < n && j as real * p < Boundary(i) * h
  }

  /** The next crossing to come: no age that is below a boundary is further along than `j` is on boundary `i`. */
  ghost predicate NextCrossing(n: nat, p: real, h: real, i: nat, j: nat) {
    && Crosses(n, p, h, i, j)
    && forall k, a | Crosses(n, p, h, k, a) :: a as real * Boundary(i) <= Boundary(k) * j as real
  }

  /** `a / zk <= j / zi` and `j / zi < b / zl` put `a / zk` below `b / zl`. */
  lemma FurtherAlong(a: real, zk: real, j: real, zi: real, b: real, zl: real)
    requires a >= 0.0 && zk > 0.0 && zi > 0.0 && zl > 0.0 && j >= 0.0
    requires a * zi <= zk * j && j * zl <= zi * b
    ensures a * zl <= zk * b
  {
    assert (a * zl) * zi == (a * zi) * zl;
    Product(a * zi, zk * j, zl, zl) by {
      Product(0.0, a, 0.0, zi);
    }
    assert (zk * j) * zl == zk * (j * zl);
    Product(zk, zk, j * zl, zi * b) by {
      Product(0.0, j, 0.0, zl);
    }
    assert zk * (zi * b) == (zk * b) * zi;
    AtMostQuotient(a * zl, zi, zk * b);
  }

  predicate Considered(k: nat, a: nat, m: nat, l: nat) {
    a < m || (a == m && k <= l)
  }

  /** The furthest crossing among ages below `m`, and at age `m` among the first `l` boundaries. */
  ghost predicate FurthestOf(n: nat, p: real, h: real, m: nat, l: nat, i: nat, j: nat) {
    && Crosses(n, p, h, i, j)
    && forall k, a | Crosses(n, p, h, k, a) && Considered(k, a, m, l) ::
         a as real * Boundary(i) <= Boundary(k) * j as real
  }

  /** The outcome of a search over the considered crossings. */
  ghost predicate Searched(n: nat, p: real, h: real, m: nat, l: nat, found: bool, i: nat, j: nat) {
    if found then FurthestOf(n, p, h, m, l, i, j)
    else forall k, a | Considered(k, a, m, l) :: !Crosses(n, p, h, k, a)
  }

  lemma {:induction false} Seek(n: nat, p: real, h: real, m: nat, l: nat) returns (found: bool, i: nat, j: nat)
    requires l <= 4
    ensures Searched(n, p, h, m, l, found, i, j)
    decreases m, l
  {
    if l > 0 {
      found, i, j := Seek(n, p, h, m, l - 1);
      found, i, j := SeekOne(n, p, h, m, l, found, i, j);
    } else if m > 0 {
      found, i, j := Seek(n, p, h, m - 1, 4);
    } else {
      found, i, j := false, 0, 0;
    }
  }

  lemma SeekOne(n: nat, p: real, h: real, m: nat, l: nat, found0: bool, i0: nat, j0: nat)
    returns (found: bool, i: nat, j: nat)
    requires 1 <= l <= 4 && Searched(n, p, h, m, l - 1, found0, i0, j0)
    ensures Searched(n, p, h, m, l, found, i, j)
  {
    found, i, j := found0, i0, j0;
    if !Crosses(n, p, h, l, m) {
      NoCrossing(n, p, h, m, l, found, i, j);
    } else if !found {
      FirstCrossing(n, p, h, m, l);
      found, i, j := true, l, m;
    } else if m as real * Boundary(i) > Boundary(l) * j as real {
      Overtakes(n, p, h, m, l, i, j);
      i, j := l, m;
    } else {
      StaysAhead(n, p, h, m, l, i, j);
    }
  }

  lemma NoCrossing(n: nat, p: real, h: real, m: nat, l: nat, found: bool, i: nat, j: nat)
    requires l > 0 && Searched(n, p, h, m, l - 1, found, i, j) && !Crosses(n, p, h, l, m)
    ensures Searched(n, p, h, m, l, found, i, j)
  {
  }

  lemma FirstCrossing(n: nat, p: real, h: real, m: nat, l: nat)
    requires l > 0 && Crosses(n, p, h, l, m)
    requires forall k, a | Considered(k, a, m, l - 1) :: !Crosses(n, p, h, k, a)
    ensures FurthestOf(n, p, h, m, l, l, m)
  {
    forall k, a | Crosses(n, p, h, k, a) && Considered(k, a, m, l)
      ensures a as real * Boundary(l) <= Boundary(k) * m as real
    {
      assert k == l && a == m;
    }
  }

  lemma StaysAhead(n: nat, p: real, h: real, m: nat, l: nat, i: nat, j: nat)
    requires l > 0 && FurthestOf(n, p, h, m, l - 1, i, j)
    requires Crosses(n, p, h, l, m) && m as real * Boundary(i) <= Boundary(l) * j as real
    ensures FurthestOf(n, p, h, m, l, i, j)
  {
    forall k, a | Crosses(n, p, h, k, a) && Considered(k, a, m, l)
      ensures a as real * Boundary(i) <= Boundary(k) * j as real
    {
      assert Considered(k, a, m, l - 1) || (k == l && a == m);
    }
  }

  lemma Overtakes(n: nat, p: real, h: real, m: nat, l: nat, i: nat, j: nat)
    requires 1 <= l <= 4 && FurthestOf(n, p, h, m, l - 1, i, j)
    requires Crosses(n, p, h, l, m) && m as real * Boundary(i) > Boundary(l) * j as real
    ensures FurthestOf(n, p, h, m, l, l, m)
  {
    forall k, a | Crosses(n, p, h, k, a) && Considered(k, a, m, l)
      ensures a as real * Boundary(l) <= Boundary(k) * m as real
    {
      if k != l || a != m {
        FurtherAlong(a as real, Boundary(k), j as real, Boundary(i), m as real, Boundary(l));
      }
    }
  }

  /** An age below the bound at `p` is still kept when age `j` is at the boundary `zi`. */
  predicate StillKept(age: nat, p: real, bound: real, zk: real, zi: real, j: nat) {
    age as real * p < bound ==> age as real * zi <= zk * j as real
  }

  lemma OneMoreKept(m: nat, p: real, bound: real, zk: real, zi: real, j: nat)
    requires m > 0 && Below(m - 1, p, bound) <= Kept(m - 1, zk, zi, j)
    requires StillKept(m - 1, p, bound, zk, zi, j)
    ensures Below(m, p, bound) <= Kept(m, zk, zi, j)
  {
  }

  lemma OneIsKept(n: nat, age: nat, p: real, h: real, k: nat, i: nat, j: nat)
    requires age < n && 1 <= k <= 4 && NextCrossing(n, p, h, i, j)
    ensures StillKept(age, p, Boundary(k) * h, Boundary(k), Boundary(i), j)
  {
    if age == 0 {
      KeepsNewest(Boundary(k), Boundary(i), j);
    } else if age as real * p < Boundary(k) * h {
      assert Crosses(n, p, h, k, age);
    }
  }

  lemma {:induction false} BelowIsKept(m: nat, p: real, bound: real, zk: real, zi: real, j: nat)
    requires forall age: nat | age < m :: StillKept(age, p, bound, zk, zi, j)
    ensures Below(m, p, bound) <= Kept(m, zk, zi, j)
  {
    if m > 0 {
      BelowIsKept(m - 1, p, bound, zk, zi, j);
      assert StillKept(m - 1, p, bound, zk, zi, j);
      OneMoreKept(m, p, bound, zk, zi, j);
    }
  }

  /** Every age below a boundary at `p` is still kept at the next crossing. */
  lemma BelowAtNext(n: nat, p: real, h: real, k: nat, i: nat, j: nat)
    requires 1 <= k <= 4 && NextCrossing(n, p, h, i, j)
    ensures Below(n, p, Boundary(k) * h) <= Kept(n, Boundary(k), Boundary(i), j)
  {
    var bound, zk, zi := Boundary(k) * h, Boundary(k), Boundary(i);
    forall age: nat | age < n
      ensures StillKept(age, p, bound, zk, zi, j)
    {
      OneIsKept(n, age, p, h, k, i, j);
    }
    BelowIsKept(n, p, bound, zk, zi, j);
  }

  lemma KeepsNewest(zk: real, zi: real, j: nat)
    requires zk > 0.0
    ensures 0 as real * zi <= zk * j as real
  {
    NonNegativeProduct(zk, j as real);
  }

  lemma NonNegativeProduct(a: real, b: real)
    requires a >= 0.0 && b >= 0.0
    ensures a * b >= 0.0
  {
  }

  lemma CostAtNext(n: nat, importance: int, p: real, pow2: real -> real, i: nat, j: nat)
    requires Growth(pow2) && p >= P_FLOOR && NextCrossing(n, p, HalfLife(importance, pow2), i, j)
    ensures Cost(History(n, importance), p, pow2) <= CostBelow(n, Boundary(i), j)
  {
    var h := HalfLife(importance, pow2);
    CostIsLayered(n, importance, p, pow2);
    BelowAtNext(n, p, h, 1, i, j);
    BelowAtNext(n, p, h, 2, i, j);
    BelowAtNext(n, p, h, 3, i, j);
    BelowAtNext(n, p, h, 4, i, j);
  }

  /** Past the last crossing only the newest compartment costs anything. */
  lemma {:induction false} OnlyNewestUpTo(n: nat, m: nat, p: real, h: real, k: nat)
    requires 1 <= k <= 4 && m <= n && forall l, a :: !Crosses(n, p, h, l, a)
    ensures Below(m, p, Boundary(k) * h) <= 1.0
  {
    if m > 1 {
      OnlyNewestUpTo(n, m - 1, p, h, k);
      assert !Crosses(n, p, h, k, m - 1);
    }
  }

  lemma CostPastLast(n: nat, importance: int, p: real, pow2: real -> real)
    requires Growth(pow2) && p >= P_FLOOR && forall k, a :: !Crosses(n, p, HalfLife(importance, pow2), k, a)
    ensures Cost(History(n, importance), p, pow2) <= TierCost(1)
  {
    var h := HalfLife(importance, pow2);
    CostIsLayered(n, importance, p, pow2);
    OnlyNewestUpTo(n, n, p, h, 1);
    OnlyNewestUpTo(n, n, p, h, 2);
    OnlyNewestUpTo(n, n, p, h, 3);
    OnlyNewestUpTo(n, n, p, h, 4);
  }

  /** A fitting crossing still to come keeps the cost within the overshoot before it. */
  lemma FitsBefore(excess: real, share: real, age: real, cost: real, budget: real, p: real)
    requires age > 0.0 && age * p < share && budget > 0.0 && budget * p == cost && p > 1.0
    requires excess * share <= cost * age
    ensures excess < budget
  {
    // excess * share <= budget * p * age < budget * share
    assert cost * age == budget * (age * p);
    Positive(budget, share - age * p);
    NonNegativeProduct(age, p);
    Cancel2(excess, budget, share);
  }

  lemma FitCrossingsMeet(n: nat, importance: int, budget: real, pow2: real -> real)
    requires Growth(pow2) && budget > 0.0
    requires CrossingsFit(n, HalfLife(importance, pow2), Cost(History(n, importance), 1.0, pow2))
    ensures Meets(n, importance, budget, pow2)
  {
    var h, cost := HalfLife(importance, pow2), Cost(History(n, importance), 1.0, pow2);
    CostIsNatural(n, importance, pow2);
    var p := PressureFacts(cost, budget);
    if p <= 1.0 {
      MetAt(n, importance, cost, budget, p, pow2);
    } else {
      PressureIsRatio(cost, budget, p);
      FitAbove(n, importance, budget, p, pow2);
    }
  }

  lemma FitAbove(n: nat, importance: int, budget: real, p: real, pow2: real -> real)
    requires Growth(pow2) && budget > 0.0 && p > 1.0
    requires budget * p == Cost(History(n, importance), 1.0, pow2)
    requires CrossingsFit(n, HalfLife(importance, pow2), Cost(History(n, importance), 1.0, pow2))
    ensures Cost(History(n, importance), p, pow2) < budget + TierCost(1)
  {
    var h, cost := HalfLife(importance, pow2), Cost(History(n, importance), 1.0, pow2);
    var found, i, j := Seek(n, p, h, n, 4);
    if found {
      AllConsidered(n, p, h, i, j);
      FitAhead(n, p, h, i, j, budget, cost);
      CostAtNext(n, importance, p, pow2, i, j);
    } else {
      forall k, a
        ensures !Crosses(n, p, h, k, a)
      {
        assert Considered(k, a, n, 4) || !Crosses(n, p, h, k, a);
      }
      CostPastLast(n, importance, p, pow2);
    }
  }

  lemma FitAhead(n: nat, p: real, h: real, i: nat, j: nat, budget: real, cost: real)
    requires Crosses(n, p, h, i, j) && budget > 0.0 && p > 1.0 && budget * p == cost
    requires CrossingsFit(n, h, cost)
    ensures CostBelow(n, Boundary(i), j) < budget + TierCost(1)
  {
    CrossingAhead(j as real, p, Boundary(i) * h);
    assert CrossingFits(n, i, j, h, cost);
    FitsBefore(CostBelow(n, Boundary(i), j) - TierCost(1), Boundary(i) * h, j as real, cost, budget, p);
  }

  lemma AllConsidered(n: nat, p: real, h: real, i: nat, j: nat)
    requires FurthestOf(n, p, h, n, 4, i, j)
    ensures NextCrossing(n, p, h, i, j)
  {
    forall k, a | Crosses(n, p, h, k, a)
      ensures a as real * Boundary(i) <= Boundary(k) * j as real
    {
      assert Considered(k, a, n, 4);
    }
  }

  lemma CrossingAhead(age: real, p: real, share: real)
    requires age > 0.0 && p > 1.0 && age * p < share
    ensures age < share
  {
    Positive(age, p - 1.0);
  }

  lemma PressureIsRatio(cost: real, budget: real, p: real)
    requires budget > 0.0 && p == PressureFor(cost, budget) && p > 1.0
    ensures budget * p == cost
  {
  }

  lemma UnfitCrossing(n: nat, h: real, cost: real) returns (i: nat, j: nat)
    requires !CrossingsFit(n, h, cost)
    ensures 1 <= i <= 4 && 1 <= j < n && j as real < Boundary(i) * h && !CrossingFits(n, i, j, h, cost)
  {
    i, j :| 1 <= i <= 4 && 1 <= j < n && j as real < Boundary(i) * h && !CrossingFits(n, i, j, h, cost);
  }

  /**
    Exactly when the promise is kept: a uniform history is within one freshest compartment of EVERY
    budget iff its crossings fit.
   */
  lemma EveryBudgetIsMet(n: nat, importance: int, pow2: real -> real)
    requires Growth(pow2)
    ensures
      (forall budget | budget > 0.0 :: Meets(n, importance, budget, pow2))
      <==> CrossingsFit(n, HalfLife(importance, pow2), Cost(History(n, importance), 1.0, pow2))
  {
    var h, cost := HalfLife(importance, pow2), Cost(History(n, importance), 1.0, pow2);
    if CrossingsFit(n, h, cost) {
      forall budget | budget > 0.0
        ensures Meets(n, importance, budget, pow2)
      {
        FitCrossingsMeet(n, importance, budget, pow2);
      }
    } else {
      var i, j := UnfitCrossing(n, h, cost);
      var budget := UnfitCrossingFails(n, importance, pow2, i, j, h, cost);
    }
  }
}
