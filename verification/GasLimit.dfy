/** Block gas limits: what `NoProof::populateFromParent` produces against what
    `SealEngineFace::verify` accepts, block after block.
 */
module GasLimit {
  import opened Words

  datatype Params = Params(minGasLimit: Word, maxGasLimit: Word, boundDivisor: Word)

  const INVALID_256: Word := TWO_256 - 1
  const DEFAULT_FLOOR: Word := 3141562

  /** Parameters under which 256 bits hold every sum of a limit and its bound. */
  predicate Sane(p: Params)
  {
    p.boundDivisor > 0 && p.maxGasLimit + Quotient(p.maxGasLimit, p.boundDivisor) < TWO_256
  }

  function Floor(target: Word): (f: Word)
  {
    if target == INVALID_256 then DEFAULT_FLOOR else target
  }

  /** `calculateGasLimit` on 256-bit words. */
  function CalculateGasLimit(p: Params, gasLimit: Word, gasUsed: Word, target: Word): (r: Word)
    requires p.boundDivisor > 0
  {
    var floor := Floor(target);
    if gasLimit < floor then Raised(gasLimit, Quotient(gasLimit, p.boundDivisor), floor)
    else Lowered(gasLimit, Quotient(gasLimit, p.boundDivisor), Share(gasUsed, p.boundDivisor), floor)
  }

  function Share(gasUsed: Word, divisor: Word): (s: nat)
    requires divisor > 0
  {
    Quotient(SixFifths(gasUsed), divisor)
  }

  function SixFifths(gasUsed: Word): (s: Word)
  {
    var used: nat := gasUsed;
    Wrap256(used * 6) / 5
  }

  /** Division by an unknown divisor, as repeated subtraction: the solver treats it as linear. */
  function Quotient(a: nat, d: nat): (q: nat)
    requires d > 0
  {
    if a < d then 0 else 1 + Quotient(a - d, d)
  }

  lemma {:induction false} QuotientIsDivision(a: nat, d: nat)
    requires d > 0
    ensures Quotient(a, d) == a / d
  {
    if a < d {
      DivModUnique(a, d, 0, a);
    } else {
      QuotientIsDivision(a - d, d);
      var q := (a - d) / d;
      MulDistrib(q, 1, d);
      DivModUnique(a, d, q + 1, (a - d) % d);
    }
  }

  function Raised(gasLimit: Word, bound: nat, floor: Word): (r: Word)
  {
    var n: nat := gasLimit;
    var up := Wrap256(n + bound - 1);
    if up < floor then up else floor
  }

  function Lowered(gasLimit: Word, bound: nat, used: nat, floor: Word): (r: Word)
  {
    var n: nat := gasLimit;
    var down := Wrap256(n - bound + 1 + used);
    if floor < down then down else floor
  }

  /** The gas limit part of `verify` against the parent. */
  predicate Accepted(p: Params, parent: Word, gasLimit: Word)
    requires p.boundDivisor > 0
  {
    && p.minGasLimit <= gasLimit <= p.maxGasLimit
    && Within(parent, Quotient(parent, p.boundDivisor), gasLimit)
  }

  predicate Within(parent: Word, bound: nat, gasLimit: Word)
  {
    var n: nat := parent;
    Wrap256(n - bound) < gasLimit < Wrap256(n + bound)
  }

  class BlockHeader {
    var number: nat
    var gasLimit: Word
    var gasUsed: Word

    constructor (number: nat, gasLimit: Word, gasUsed: Word)
      ensures this.number == number && this.gasLimit == gasLimit && this.gasUsed == gasUsed
    {
      this.number, this.gasLimit, this.gasUsed := number, gasLimit, gasUsed;
    }

    /** `BlockHeader::populateFromParent`: the limit is inherited and nothing is used yet. */
    method InheritFrom(parent: BlockHeader)
      modifies this
      ensures number == old(parent.number) + 1 && gasLimit == old(parent.gasLimit) && gasUsed == 0
    {
      number := parent.number + 1;
      gasLimit := parent.gasLimit;
      gasUsed := 0;
    }

    /** `NoProof::populateFromParent`: from limits in range it leaves one that `verify` accepts exactly
        when the parent's limit is at least the divisor. */
    method PopulateFromParent(p: Params, parent: BlockHeader)
      requires parent != this && p.boundDivisor > 0
      modifies this
      ensures number == parent.number + 1 && gasUsed == 0
      ensures gasLimit == Produced(p, parent.gasLimit, INVALID_256)
      ensures Sane(p) && Valid(p, parent.gasLimit, DEFAULT_FLOOR) ==>
        (Accepted(p, parent.gasLimit, gasLimit) <==> parent.gasLimit >= p.boundDivisor)
    {
      InheritFrom(parent);
      gasLimit := CalculateGasLimit(p, gasLimit, gasUsed, INVALID_256);
      if Sane(p) && Valid(p, parent.gasLimit, DEFAULT_FLOOR) {
        ProducedAccepted(p, parent.gasLimit, INVALID_256);
      }
    }
  }

  predicate Valid(p: Params, gasLimit: Word, floor: Word)
  {
    p.minGasLimit <= gasLimit <= p.maxGasLimit && p.minGasLimit <= floor <= p.maxGasLimit
  }

  /** The child of a block with this limit. */
  function Produced(p: Params, gasLimit: Word, target: Word): (r: Word)
    requires p.boundDivisor > 0
  {
    CalculateGasLimit(p, gasLimit, 0, target)
  }

  // ---- Production without wrap-around ----

  lemma {:induction false} QuotientFacts(g: nat, d: nat)
    requires d > 0
    ensures Quotient(g, d) <= g
    ensures Quotient(g, d) >= 1 <==> g >= d
    ensures Quotient(g, d) >= 2 <==> g >= 2 * d
  {
    if g >= d { QuotientFacts(g - d, d); }
  }

  lemma {:induction false} QuotientMonotone(a: nat, b: nat, d: nat)
    requires a <= b && d > 0
    ensures Quotient(a, d) <= Quotient(b, d)
  {
    if a >= d { QuotientMonotone(a - d, b - d, d); }
  }

  lemma RaisedValue(g: Word, q: nat, floor: Word)
    requires g + q < TWO_256 && q <= g
    ensures var n: nat := g; Raised(g, q, floor) == if n > 0 && n + q - 1 < floor then n + q - 1 else floor
  {
    var n: nat := g;
    if n == 0 {
      assert Wrap256(n + q - 1) == TWO_256 - 1;
    } else {
      assert Wrap256(n + q - 1) == n + q - 1;
    }
  }

  lemma LoweredValue(g: Word, q: nat, floor: Word)
    requires q <= g < TWO_256 - 1
    ensures var n: nat := g; Lowered(g, q, 0, floor) == if floor < n - q + 1 then n - q + 1 else floor
  {
  }

  lemma WithinValue(g: Word, q: nat, r: Word)
    requires g + q < TWO_256 && q <= g
    ensures var n: nat := g; Within(g, q, r) <==> n - q < r < n + q
  {
  }

  /** What a limit is changed by at most: no sum with it leaves 256 bits. */
  lemma BoundFits(p: Params, g: Word)
    requires Sane(p) && g <= p.maxGasLimit
    ensures Quotient(g, p.boundDivisor) <= g < TWO_256 - 1 && g + Quotient(g, p.boundDivisor) < TWO_256
  {
    QuotientFacts(p.maxGasLimit, p.boundDivisor);
    QuotientFacts(g, p.boundDivisor);
    QuotientMonotone(g, p.maxGasLimit, p.boundDivisor);
  }

  /** For limits in range the 256-bit arithmetic is exact, except that the limit 0 steps down to
      the largest word. */
  lemma ProducedValue(p: Params, g: Word, target: Word)
    requires Sane(p) && Valid(p, g, Floor(target))
    ensures var q := Quotient(g, p.boundDivisor); var floor := Floor(target); var n: nat := g;
      q <= n && Produced(p, g, target) ==
        if g < floor then (if n > 0 && n + q - 1 < floor then n + q - 1 else floor)
        else (if floor < n - q + 1 then n - q + 1 else floor)
  {
    var q, floor := Quotient(g, p.boundDivisor), Floor(target);
    BoundFits(p, g);
    RaisedValue(g, q, floor);
    LoweredValue(g, q, floor);
  }

  lemma BoundsExact(p: Params, g: Word, r: Word)
    requires Sane(p) && g <= p.maxGasLimit
    ensures var n: nat, q := g, Quotient(g, p.boundDivisor);
            Accepted(p, g, r) <==> (p.minGasLimit <= r <= p.maxGasLimit && n - q < r < n + q)
  {
    BoundFits(p, g);
    WithinValue(g, Quotient(g, p.boundDivisor), r);
  }

  /** Every produced limit passes the test of `verify` exactly when the parent's limit is at least
      the divisor. */
  lemma ProducedAccepted(p: Params, g: Word, target: Word)
    requires Sane(p) && Valid(p, g, Floor(target))
    ensures Accepted(p, g, Produced(p, g, target)) <==> g >= p.boundDivisor
  {
    ProducedValue(p, g, target);
    BoundsExact(p, g, Produced(p, g, target));
    QuotientFacts(g, p.boundDivisor);
  }

  // ---- Whole chains ----

  /** The limit `n` blocks later. */
  function After(p: Params, g: Word, target: Word, n: nat): (r: Word)
    requires p.boundDivisor > 0
  {
    if n == 0 then g else Produced(p, After(p, g, target, n - 1), target)
  }

  ghost predicate Healthy(p: Params, g: Word, target: Word)
  {
    Sane(p) && Valid(p, g, Floor(target)) && g >= p.boundDivisor && Floor(target) >= p.boundDivisor
  }

  lemma HealthyNext(p: Params, g: Word, target: Word)
    requires Healthy(p, g, target)
    ensures Healthy(p, Produced(p, g, target), target)
  {
    ProducedValue(p, g, target);
    QuotientFacts(g, p.boundDivisor);
  }

  /** From a healthy block on, every block of the chain is accepted on top of its parent. */
  lemma {:induction false} ChainAccepted(p: Params, g: Word, target: Word, n: nat)
    requires Healthy(p, g, target)
    ensures Healthy(p, After(p, g, target, n), target)
    ensures Accepted(p, After(p, g, target, n), After(p, g, target, n + 1))
  {
    if n > 0 {
      ChainAccepted(p, g, target, n - 1);
      HealthyNext(p, After(p, g, target, n - 1), target);
    }
    ProducedAccepted(p, After(p, g, target, n), target);
  }

  // ---- Convergence ----

  /** The limits from which the floor is reached. */
  predicate Converging(p: Params, g: Word, floor: Word)
  {
    var n: nat, f: nat := g, floor;
    || n == f
    || (n < f && n >= 2 * p.boundDivisor)
    || (n > f && f + 1 >= 2 * p.boundDivisor)
  }

  function Distance(a: Word, b: Word): (d: nat)
  {
    if a < b then b - a else a - b
  }

  /** A converging limit gets closer to the floor and stays converging; the floor stays. */
  lemma Closer(p: Params, g: Word, target: Word)
    requires Healthy(p, g, target) && Converging(p, g, Floor(target))
    ensures var r := Produced(p, g, target);
      && Converging(p, r, Floor(target))
      && (g == Floor(target) ==> r == g)
      && (g != Floor(target) ==> Distance(r, Floor(target)) < Distance(g, Floor(target)))
  {
    ProducedValue(p, g, target);
    QuotientFacts(g, p.boundDivisor);
  }

  /** A limit that is not converging never becomes the floor. */
  lemma Stuck(p: Params, g: Word, target: Word)
    requires Healthy(p, g, target) && !Converging(p, g, Floor(target))
    ensures !Converging(p, Produced(p, g, target), Floor(target))
  {
    var n: nat, d: nat, floor: nat := g, p.boundDivisor, Floor(target);
    ProducedValue(p, g, target);
    QuotientFacts(n, d);
    if n > floor { StepDownStops(n, d); }
  }

  /** Steps down stop short of twice the divisor. */
  lemma {:induction false} StepDownStops(n: nat, d: nat)
    requires d > 0 && n >= d
    ensures n >= 2 * d ==> n - Quotient(n, d) + 1 >= 2 * d - 1
    ensures n < 2 * d ==> n - Quotient(n, d) + 1 == n
  {
    QuotientFacts(n, d);
    if n >= 2 * d { StepDownStops(n - d, d); }
  }

  lemma {:induction false} Approach(p: Params, g: Word, target: Word, n: nat)
    requires Healthy(p, g, target)
    ensures var r := After(p, g, target, n);
      && Healthy(p, r, target)
      && (Converging(p, r, Floor(target)) <==> Converging(p, g, Floor(target)))
      && (Converging(p, g, Floor(target)) ==>
            Distance(r, Floor(target)) + n <= Distance(g, Floor(target)) || r == Floor(target))
  {
    if n > 0 {
      Approach(p, g, target, n - 1);
      var before := After(p, g, target, n - 1);
      HealthyNext(p, before, target);
      if Converging(p, g, Floor(target)) { Closer(p, before, target); } else { Stuck(p, before, target); }
    }
  }

  /** From a healthy block the floor is reached exactly from the converging limits, after at most as
      many blocks as the limits are apart, and never left again. */
  lemma ReachesFloor(p: Params, g: Word, target: Word)
    requires Healthy(p, g, target)
    ensures (exists n: nat :: After(p, g, target, n) == Floor(target)) <==> Converging(p, g, Floor(target))
    ensures Converging(p, g, Floor(target)) ==>
      forall n: nat :: n >= Distance(g, Floor(target)) ==> After(p, g, target, n) == Floor(target)
  {
    var floor := Floor(target);
    if Converging(p, g, floor) {
      forall n: nat | n >= Distance(g, floor) ensures After(p, g, target, n) == floor
      {
        Approach(p, g, target, n);
      }
      assert After(p, g, target, Distance(g, floor)) == floor;
    } else {
      forall n: nat ensures After(p, g, target, n) != floor
      {
        Approach(p, g, target, n);
      }
    }
  }

  /** The default parameters. */
  function Defaults(): (p: Params)
  {
    Params(0x1388, 0x7FFF_FFFF_FFFF_FFFF, 0x400)
  }

  /** With them the limit reaches 3141562 from every valid limit and stays there, and every block on
      the way is accepted. */
  lemma DefaultsConverge(g: Word, p: Params)
    requires p == Defaults() && p.minGasLimit <= g <= p.maxGasLimit
    ensures forall n: nat :: n >= Distance(g, DEFAULT_FLOOR) ==> After(p, g, INVALID_256, n) == DEFAULT_FLOOR
    ensures forall n: nat :: Accepted(p, After(p, g, INVALID_256, n), After(p, g, INVALID_256, n + 1))
  {
    QuotientFacts(p.maxGasLimit, p.boundDivisor);
    assert Healthy(p, g, INVALID_256);
    ReachesFloor(p, g, INVALID_256);
    forall n: nat ensures Accepted(p, After(p, g, INVALID_256, n), After(p, g, INVALID_256, n + 1))
    {
      ChainAccepted(p, g, INVALID_256, n);
    }
  }

  // ---- Used gas ----

  /** At or above the floor the limit rises exactly when six fifths of the gas used come to as many
      whole divisors as the limit: a block has to be about five sixths full. */
  lemma RisesWhenFull(p: Params, g: Word, used: Word, target: Word)
    requires Sane(p) && Floor(target) <= g <= p.maxGasLimit && used <= g && g < TWO_255 / 4
    ensures var n: nat, six: nat := g, used;
      CalculateGasLimit(p, g, used, target) > n <==> Quotient(6 * six / 5, p.boundDivisor) >= Quotient(n, p.boundDivisor)
  {
    var u: nat := used;
    BoundFits(p, g);
    SixFifthsExact(used);
    QuotientFacts(6 * u / 5, p.boundDivisor);
    LoweredRises(g, Quotient(g, p.boundDivisor), Share(used, p.boundDivisor), Floor(target));
  }

  lemma SixFifthsExact(used: Word)
    requires used < TWO_255 / 4
    ensures var u: nat := used; SixFifths(used) == 6 * u / 5 < TWO_255
  {
  }

  lemma LoweredRises(g: Word, q: nat, share: nat, floor: Word)
    requires q <= g < TWO_255 / 4 && share < TWO_255 && floor <= g
    ensures Lowered(g, q, share, floor) > g <==> share >= q
  {
  }

  // ---- Limits that fail ----

  /** Parameters and a valid limit below the divisor: its child is rejected. */
  lemma RejectedChild() returns (p: Params, g: Word, target: Word)
    ensures Sane(p) && Valid(p, g, Floor(target)) && !Accepted(p, g, Produced(p, g, target))
  {
    p, g, target := Params(10, 5000, 1024), 1000, 3000;
    QuotientFacts(p.maxGasLimit, p.boundDivisor);
    ProducedAccepted(p, g, target);
  }

  /** Parameters and a healthy limit from which the chain goes on for ever without the floor. */
  lemma NeverReached() returns (p: Params, g: Word, target: Word)
    ensures Healthy(p, g, target) && forall n: nat :: After(p, g, target, n) != Floor(target)
  {
    p, g, target := Params(10, 9000, 1024), 1500, 3000;
    QuotientFacts(p.maxGasLimit, p.boundDivisor);
    ReachesFloor(p, g, target);
  }
}
