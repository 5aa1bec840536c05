/** The EIP-1559 base fee: one block ahead, the worst case some blocks ahead, and what it does to a transaction. */
module BaseFee {
  import opened Wrappers

  const INITIAL_BASE_FEE_PER_GAS: nat := 1000000000
  const ELASTICITY: nat := 2
  const BASE_FEE_MAX_CHANGE_DENOMINATOR: nat := 8

  /** What of a block decides the next base fee. */
  datatype Usage = Usage(gasLimit: nat, gasUsed: nat)
  {
    function Target(): nat { gasLimit / ELASTICITY }

    /** The block uses at most twice its gas target. */
    predicate Within() { gasUsed <= 2 * Target() }
  }

  /** Two floors, as in the source; the target is not 0. */
  function FeeDelta(fee: nat, gasDelta: nat, target: nat): nat
    requires target > 0
  {
    fee * gasDelta / target / BASE_FEE_MAX_CHANGE_DENOMINATOR
  }

  /** `calcNextBaseFeeBigInt`; `None` is the source's division by zero. */
  function NextBaseFee(fee: nat, u: Usage): (next: Option<nat>)
    ensures next.None? <==> u.Target() == 0 < u.gasUsed
  {
    if u.gasUsed == u.Target() then Some(fee)
    else if u.Target() == 0 then None
    else if u.gasUsed > u.Target() then
      var delta := FeeDelta(fee, u.gasUsed - u.Target(), u.Target());
      Some(if delta > 1 then fee + delta else fee + 1)
    else
      DeltaAtMost(fee, u.Target() - u.gasUsed, u.Target());
      Some(fee - FeeDelta(fee, u.Target() - u.gasUsed, u.Target()))
  }

  /** The two floors are the floor of the exact eighth of the fee for this share of the target. */
  lemma FeeDeltaIsOneFloor(fee: nat, gasDelta: nat, target: nat)
    requires target > 0
    ensures var delta := FeeDelta(fee, gasDelta, target);
            8 * delta * target <= fee * gasDelta < 8 * (delta + 1) * target
  {
    var product := fee * gasDelta;
    var q := product / target;
    var delta := q / 8;
    assert q * target <= product < q * target + target;
    Scaled(8 * delta, q, target);
    Scaled(q + 1, 8 * delta + 8, target);
    assert (q + 1) * target == q * target + target;
    assert 8 * delta + 8 == 8 * (delta + 1);
  }

  lemma Scaled(x: nat, y: nat, scale: nat)
    requires x <= y
    ensures x * scale <= y * scale
  {
  }

  lemma DeltaAtMost(fee: nat, gasDelta: nat, target: nat)
    requires gasDelta <= target && target > 0
    ensures FeeDelta(fee, gasDelta, target) <= fee / 8 <= fee
    ensures gasDelta == target ==> FeeDelta(fee, gasDelta, target) == fee / 8
  {
    QuotientAtMost(fee, gasDelta, target);
  }

  lemma QuotientAtMost(fee: nat, part: nat, whole: nat)
    requires part <= whole && whole > 0
    ensures fee * part / whole <= fee
    ensures part == whole ==> fee * part / whole == fee
  {
    MulAtMost(fee, part, whole);
    DivAtMost(fee * part, whole, fee);
  }

  lemma MulAtMost(fee: nat, part: nat, whole: nat)
    requires part <= whole
    ensures fee * part <= fee * whole
  {
  }

  lemma DivAtMost(product: nat, whole: nat, most: nat)
    requires whole > 0 && product <= most * whole
    ensures product / whole <= most
    ensures product == most * whole ==> product / whole == most
  {
    var q := product / whole;
    assert q * whole <= product < q * whole + whole;
    Minus(q, most, whole);
    Minus(most, q + 1, whole);
    Sign(q - most, whole);
    Sign(most - q - 1, whole);
  }

  lemma Minus(x: int, y: int, scale: int)
    ensures (x - y) * scale == x * scale - y * scale
  {
  }

  lemma Sign(x: int, scale: nat)
    requires scale > 0
    ensures x * scale <= 0 ==> x <= 0
    ensures x * scale < 0 ==> x < 0
  {
  }

  // ---------- One block ----------

  /** How far the base fee can move in one block. */
  lemma StepBounds(fee: nat, u: Usage)
    requires u.Within()
    ensures NextBaseFee(fee, u).Some?
    ensures fee - fee / 8 <= NextBaseFee(fee, u).value <= fee + Max(fee / 8, 1)
    ensures u.gasUsed == 2 * u.Target() > 0 ==> NextBaseFee(fee, u).value == fee + Max(fee / 8, 1)
  {
    if u.gasUsed > u.Target() {
      DeltaAtMost(fee, u.gasUsed - u.Target(), u.Target());
    } else if u.gasUsed < u.Target() {
      DeltaAtMost(fee, u.Target() - u.gasUsed, u.Target());
    }
  }

  /**
   * EIP-1559 in numbers alone: with half of the gas limit as the target, the fee falls or rises
   * by the floor of an eighth of itself, in proportion to the distance from the target; it
   * rises by at least 1.
   */
  predicate Moves(fee: nat, u: Usage, next: nat) {
    var target := u.gasLimit / 2;
    if u.gasUsed == target then next == fee
    else if u.gasUsed > target then
      var rise, share := next - fee, fee * (u.gasUsed - target);
      target > 0 && rise >= 1 && (rise == 1 || 8 * rise * target <= share) && share < 8 * (rise + 1) * target
    else
      var fall, share := fee - next, fee * (target - u.gasUsed);
      8 * fall * target <= share < 8 * (fall + 1) * target
  }

  lemma EighthsApart(low: int, high: int, share: int, target: nat)
    requires 8 * high * target <= share < 8 * (low + 1) * target
    ensures high <= low
  {
    if low + 1 <= high { EighthsOrdered(low + 1, high, target); }
  }

  lemma EighthsOrdered(low: int, high: int, target: nat)
    requires low <= high
    ensures 8 * low * target <= 8 * high * target
  {
    assert (high - low) * target >= 0;
    assert 8 * high * target == 8 * low * target + 8 * ((high - low) * target);
  }

  lemma MovesToOne(fee: nat, u: Usage, one: nat, other: nat)
    requires Moves(fee, u, one) && Moves(fee, u, other)
    ensures one <= other
  {
    var target := u.gasLimit / 2;
    if u.gasUsed > target {
      if one - fee != 1 { EighthsApart(other - fee, one - fee, fee * (u.gasUsed - target), target); }
    } else if u.gasUsed < target {
      EighthsApart(fee - one, fee - other, fee * (target - u.gasUsed), target);
    }
  }

  /** The next base fee is the one number that satisfies this; without a target there is none. */
  lemma NextBaseFeeIff(fee: nat, u: Usage, next: nat)
    ensures NextBaseFee(fee, u) == Some(next) <==> Moves(fee, u, next)
  {
    if NextBaseFee(fee, u).Some? {
      NextBaseFeeMoves(fee, u);
      if Moves(fee, u, next) {
        MovesToOne(fee, u, next, NextBaseFee(fee, u).value);
        MovesToOne(fee, u, NextBaseFee(fee, u).value, next);
      }
    }
  }

  lemma NextBaseFeeMoves(fee: nat, u: Usage)
    requires NextBaseFee(fee, u).Some?
    ensures Moves(fee, u, NextBaseFee(fee, u).value)
  {
    var target := u.Target();
    if u.gasUsed > target {
      FeeDeltaIsOneFloor(fee, u.gasUsed - target, target);
    } else if u.gasUsed < target {
      DeltaAtMost(fee, target - u.gasUsed, target);
      FeeDeltaIsOneFloor(fee, target - u.gasUsed, target);
    }
  }

  function Max(a: nat, b: nat): nat { if a > b then a else b }

  function Min(a: nat, b: nat): nat { if a < b then a else b }

  /** Nothing takes the base fee below 7, or below where it already was under 7. */
  lemma FloorKept(fee: nat, u: Usage)
    requires NextBaseFee(fee, u).Some?
    ensures NextBaseFee(fee, u).value >= Min(7, fee)
  {
    if u.gasUsed < u.Target() { DeltaAtMost(fee, u.Target() - u.gasUsed, u.Target()); }
  }

  // ---------- Some blocks ahead ----------

  /** The base fee after the blocks of a history. */
  function FeeAfter(fee: nat, history: seq<Usage>): Option<nat> {
    if history == [] then Some(fee)
    else
      match FeeAfter(fee, history[..|history| - 1])
      case None => None
      case Some(f) => NextBaseFee(f, history[|history| - 1])
  }

  /** The largest base fee promised for the `n`-th block, where `next` is the first one's. */
  function MaxBaseFee(n: nat, next: nat): (most: nat)
    requires n > 0
    ensures most >= next
  {
    if n == 1 then next
    else
      var most := MaxBaseFee(n - 1, next);
      most + most / BASE_FEE_MAX_CHANGE_DENOMINATOR
  }

  /** `calcNBlocksMaxBaseFee`; the source's loop does not end for 0 blocks. */
  method CalcNBlocksMaxBaseFee(blocks: nat, parentFee: nat, parent: Usage) returns (most: Option<nat>)
    requires blocks > 0
    ensures most.None? <==> NextBaseFee(parentFee, parent).None?
    ensures most.Some? ==> most.value == MaxBaseFee(blocks, NextBaseFee(parentFee, parent).value)
  {
    var next := NextBaseFee(parentFee, parent);
    if next.None? {
      return None;
    }
    var maxPossibleBaseFee := next.value;
    var left := blocks - 1;
    while left > 0
      invariant left < blocks
      invariant maxPossibleBaseFee == MaxBaseFee(blocks - left, next.value)
    {
      maxPossibleBaseFee := maxPossibleBaseFee + maxPossibleBaseFee / BASE_FEE_MAX_CHANGE_DENOMINATOR;
      left := left - 1;
    }
    most := Some(maxPossibleBaseFee);
  }

  ghost predicate AllWithin(history: seq<Usage>) {
    forall u <- history :: u.Within()
  }

  lemma {:induction false} FeeBounded(next: nat, history: seq<Usage>)
    requires next >= 8 && AllWithin(history)
    ensures FeeAfter(next, history).Some?
    ensures FeeAfter(next, history).value <= MaxBaseFee(|history| + 1, next)
  {
    if history != [] {
      var front, u := history[..|history| - 1], history[|history| - 1];
      FeeBounded(next, front);
      StepBounds(FeeAfter(next, front).value, u);
    }
  }

  lemma {:induction false} MaxGrows(k: nat, n: nat, next: nat)
    requires 0 < k <= n
    ensures MaxBaseFee(k, next) <= MaxBaseFee(n, next)
    decreases n
  {
    if k < n { MaxGrows(k, n - 1, next); }
  }

  /** Every one of the next `n` blocks stays within the bound, whatever gas the blocks use. */
  lemma NBlocksBounded(next: nat, history: seq<Usage>, n: nat)
    requires next >= 8 && AllWithin(history) && |history| < n
    ensures FeeAfter(next, history).Some? && FeeAfter(next, history).value <= MaxBaseFee(n, next)
  {
    FeeBounded(next, history);
    MaxGrows(|history| + 1, n, next);
  }

  /** The bound is reached when every block is as full as it may be. */
  lemma {:induction false} BoundReached(next: nat, history: seq<Usage>)
    requires next >= 8
    requires forall u <- history :: u.gasUsed == 2 * u.Target() > 0
    ensures FeeAfter(next, history) == Some(MaxBaseFee(|history| + 1, next))
  {
    if history != [] {
      var front, u := history[..|history| - 1], history[|history| - 1];
      BoundReached(next, front);
      StepBounds(FeeAfter(next, front).value, u);
      MaxGrows(1, |front| + 1, next);
    }
  }

  lemma {:induction false} IdleFee(fee: nat, history: seq<Usage>)
    requires forall u <- history :: u.gasUsed == u.Target()
    ensures FeeAfter(fee, history) == Some(fee)
  {
    if history != [] {
      var u := history[|history| - 1];
      assert u in history && forall other <- history[..|history| - 1] :: other in history;
      IdleFee(fee, history[..|history| - 1]);
    }
  }

  ghost predicate BoundHolds(next: nat, n: nat)
    requires n > 0
  {
    forall history: seq<Usage> :: |history| == n - 1 && AllWithin(history) ==>
      FeeAfter(next, history).Some? && FeeAfter(next, history).value <= MaxBaseFee(n, next)
  }

  /** The bound holds for all histories exactly when the next base fee is at least 8. */
  lemma BoundHoldsIff(next: nat, n: nat)
    requires n >= 2
    ensures BoundHolds(next, n) <==> next >= 8
  {
    if next >= 8 {
      forall history: seq<Usage> | |history| == n - 1 && AllWithin(history)
        ensures FeeAfter(next, history).Some? && FeeAfter(next, history).value <= MaxBaseFee(n, next)
      {
        FeeBounded(next, history);
      }
    } else {
      var steady := seq(n - 2, _ => Usage(2, 1));
      var history := steady + [Usage(2, 2)];
      IdleFee(next, steady);
      SmallBound(n, next);
      assert history[..|history| - 1] == steady;
      assert AllWithin(history) && FeeAfter(next, history) == Some(next + 1);
    }
  }

  lemma {:induction false} SmallBound(n: nat, next: nat)
    requires next < 8 && n > 0
    ensures MaxBaseFee(n, next) == next
  {
    if n > 1 { SmallBound(n - 1, next); }
  }

  // ---------- Blocks under one gas limit ----------

  /** A block that respects an even gas limit uses at most twice its target. */
  lemma FullBlockIsWithin(u: Usage)
    requires u.gasUsed <= u.gasLimit
    ensures u.gasLimit % 2 == 0 || u.gasUsed < u.gasLimit ==> u.Within()
  {
  }

  lemma DivMonotone(x: nat, y: nat, d: nat)
    requires x <= y && d > 0
    ensures x / d <= y / d
  {
    if y / d + 1 <= x / d { Scaled(y / d + 1, x / d, d); }
  }

  lemma DeltaMonotone(fee: nat, higher: nat, gas: nat, more: nat, target: nat)
    requires fee <= higher && gas <= more && target > 0
    ensures FeeDelta(fee, gas, target) <= FeeDelta(higher, more, target)
  {
    Scaled(fee, higher, gas);
    MulAtMost(higher, gas, more);
    DivMonotone(fee * gas, higher * more, target);
  }

  lemma OneMoreThanTarget(fee: nat, target: nat)
    requires target > 0
    ensures FeeDelta(fee, target + 1, target) == (fee + fee / target) / 8
  {
    assert fee * (target + 1) == fee * target + fee;
    QuotientPlus(fee, fee, target);
  }

  lemma QuotientPlus(whole: nat, rest: nat, d: nat)
    requires d > 0
    ensures (whole * d + rest) / d == whole + rest / d
  {
    var q := rest / d;
    assert q * d <= rest < q * d + d;
    assert (whole + q) * d == whole * d + q * d;
    QuotientIs(whole * d + rest, whole + q, d);
  }

  lemma QuotientIs(x: nat, q: nat, d: nat)
    requires d > 0 && q * d <= x < q * d + d
    ensures x / d == q
  {
    DivAtMost(x, d, q + 1);
    var p := x / d;
    assert p * d <= x < p * d + d;
    Minus(p, q + 1, d);
    Minus(q, p + 1, d);
    Sign(p - q - 1, d);
    Sign(q - p - 1, d);
  }

  /** What a full block adds to a fee of at least 8. */
  function Surge(fee: nat, limit: nat): nat
    requires limit > 1
  {
    FeeDelta(fee, limit - limit / 2, limit / 2)
  }

  /** A full block raises this fee by no more than an eighth. */
  predicate CoversFull(fee: nat, limit: nat)
    requires limit > 1
  {
    limit % 2 == 0 || fee % 8 + fee / (limit / 2) < 8
  }

  lemma EighthOfSum(fee: nat, more: nat)
    ensures (fee + more) / 8 >= fee / 8
    ensures (fee + more) / 8 == fee / 8 <==> fee % 8 + more < 8
  {
  }

  lemma SurgeIs(fee: nat, limit: nat)
    requires limit > 1
    ensures Surge(fee, limit) >= fee / 8
    ensures Surge(fee, limit) == fee / 8 <==> CoversFull(fee, limit)
  {
    var target := limit / 2;
    if limit % 2 == 0 {
      DeltaAtMost(fee, target, target);
      assert limit - target == target;
    } else {
      OneMoreThanTarget(fee, target);
      assert limit - target == target + 1;
      EighthOfSum(fee, fee / target);
    }
  }

  /** A full block stays within an eighth exactly when the rests of the two floors do not add up to another one. */
  lemma FullBlockIff(fee: nat, limit: nat)
    requires fee >= 8 && limit > 1
    ensures NextBaseFee(fee, Usage(limit, limit)) == Some(fee + Surge(fee, limit))
    ensures NextBaseFee(fee, Usage(limit, limit)).value <= fee + fee / 8 <==> CoversFull(fee, limit)
  {
    SurgeIs(fee, limit);
  }

  /** No block raises a fee further than a full one raises a higher fee. */
  lemma FullIsWorst(fee: nat, higher: nat, used: nat, limit: nat)
    requires fee <= higher && higher >= 8 && used <= limit && limit > 1
    ensures NextBaseFee(fee, Usage(limit, used)).Some?
    ensures NextBaseFee(fee, Usage(limit, used)).value <= higher + Surge(higher, limit)
  {
    SurgeIs(higher, limit);
    if used > limit / 2 { DeltaMonotone(fee, higher, used - limit / 2, limit - limit / 2, limit / 2); }
  }

  ghost predicate Respects(history: seq<Usage>, limit: nat) {
    forall u <- history :: u.gasLimit == limit && u.gasUsed <= limit
  }

  ghost predicate AllCovered(next: nat, n: nat, limit: nat)
    requires limit > 1
  {
    forall k :: 1 <= k < n ==> CoversFull(MaxBaseFee(k, next), limit)
  }

  lemma {:induction false} CoveredBounded(next: nat, history: seq<Usage>, limit: nat)
    requires next >= 8 && limit > 1 && Respects(history, limit) && AllCovered(next, |history| + 1, limit)
    ensures FeeAfter(next, history).Some?
    ensures FeeAfter(next, history).value <= MaxBaseFee(|history| + 1, next)
  {
    if history != [] {
      var front, u := history[..|history| - 1], history[|history| - 1];
      assert u in history && forall other <- front :: other in history;
      CoveredBounded(next, front, limit);
      var most := MaxBaseFee(|history|, next);
      SurgeIs(most, limit);
      assert CoversFull(most, limit);
      FullIsWorst(FeeAfter(next, front).value, most, u.gasUsed, limit);
    }
  }

  function FullBlocks(k: nat, limit: nat): (history: seq<Usage>)
    ensures |history| == k && forall u <- history :: u == Usage(limit, limit)
  {
    seq(k, _ => Usage(limit, limit))
  }

  /** Full blocks reach the bound, and pass it for good after a fee they raise by more than an eighth. */
  lemma {:induction false} FullBlocksPass(next: nat, n: nat, limit: nat)
    requires next >= 8 && limit > 1 && n > 0
    ensures FeeAfter(next, FullBlocks(n - 1, limit)).Some?
    ensures FeeAfter(next, FullBlocks(n - 1, limit)).value >= MaxBaseFee(n, next)
    ensures !AllCovered(next, n, limit) ==> FeeAfter(next, FullBlocks(n - 1, limit)).value > MaxBaseFee(n, next)
  {
    if n > 1 {
      var most := MaxBaseFee(n - 1, next);
      FullBlocksPass(next, n - 1, limit);
      assert FullBlocks(n - 1, limit)[..n - 2] == FullBlocks(n - 2, limit);
      var fee := FeeAfter(next, FullBlocks(n - 2, limit)).value;
      FullBlockIff(fee, limit);
      DeltaMonotone(most, fee, limit - limit / 2, limit - limit / 2, limit / 2);
      SurgeIs(most, limit);
      AllCoveredLast(next, n, limit);
    }
  }

  lemma AllCoveredLast(next: nat, n: nat, limit: nat)
    requires limit > 1 && n > 1
    ensures AllCovered(next, n, limit) <==> AllCovered(next, n - 1, limit) && CoversFull(MaxBaseFee(n - 1, next), limit)
  {
  }

  ghost predicate BoundHoldsUnder(next: nat, n: nat, limit: nat)
    requires n > 0
  {
    forall history: seq<Usage> :: |history| == n - 1 && Respects(history, limit) ==>
      FeeAfter(next, history).Some? && FeeAfter(next, history).value <= MaxBaseFee(n, next)
  }

  /**
   * The bound for the `n`-th block holds for all blocks that respect one gas limit exactly when
   * the first fee is at least 8 and full blocks raise none of the bounds before by more than an
   * eighth. A limit of 0 leaves the fee alone, and one of 1 divides by 0.
   */
  lemma BoundHoldsUnderIff(next: nat, n: nat, limit: nat)
    requires n >= 2
    ensures BoundHoldsUnder(next, n, limit)
            <==> limit == 0 || (limit > 1 && next >= 8 && AllCovered(next, n, limit))
  {
    if limit == 0 {
      NoGasHolds(next, n);
    } else if limit == 1 {
      UnitLimitFails(next, n);
    } else if next < 8 {
      SmallFeeFails(next, n, limit);
    } else if AllCovered(next, n, limit) {
      forall history: seq<Usage> | |history| == n - 1 && Respects(history, limit)
        ensures FeeAfter(next, history).Some? && FeeAfter(next, history).value <= MaxBaseFee(n, next)
      {
        CoveredBounded(next, history, limit);
      }
    } else {
      FullBlocksPass(next, n, limit);
      assert Respects(FullBlocks(n - 1, limit), limit);
    }
  }

  lemma NoGasHolds(next: nat, n: nat)
    requires n > 0
    ensures BoundHoldsUnder(next, n, 0)
  {
    forall history: seq<Usage> | |history| == n - 1 && Respects(history, 0)
      ensures FeeAfter(next, history).Some? && FeeAfter(next, history).value <= MaxBaseFee(n, next)
    {
      IdleFee(next, history);
    }
  }

  /** Blocks that use exactly their target, and then a full one. */
  function IdleThenFull(k: nat, limit: nat): (history: seq<Usage>)
    ensures |history| == k + 1
  {
    seq(k, _ => Usage(limit, limit / 2)) + [Usage(limit, limit)]
  }

  lemma IdleThenFullFee(next: nat, k: nat, limit: nat)
    ensures Respects(IdleThenFull(k, limit), limit)
    ensures FeeAfter(next, IdleThenFull(k, limit)) == NextBaseFee(next, Usage(limit, limit))
  {
    var idle := seq(k, _ => Usage(limit, limit / 2));
    IdleFee(next, idle);
    assert IdleThenFull(k, limit)[..k] == idle;
  }

  lemma UnitLimitFails(next: nat, n: nat)
    requires n >= 2
    ensures !BoundHoldsUnder(next, n, 1)
  {
    IdleThenFullFee(next, n - 2, 1);
    var history := IdleThenFull(n - 2, 1);
    assert |history| == n - 1 && Respects(history, 1) && FeeAfter(next, history).None?;
  }

  lemma SmallFeeFails(next: nat, n: nat, limit: nat)
    requires n >= 2 && next < 8 && limit > 1
    ensures !BoundHoldsUnder(next, n, limit)
  {
    IdleThenFullFee(next, n - 2, limit);
    SmallBound(n, next);
    var history := IdleThenFull(n - 2, limit);
    assert |history| == n - 1 && Respects(history, limit) && FeeAfter(next, history).value > next;
  }

  /** A full block under the odd limit 30000001, at the base fee of the genesis block. */
  lemma OddLimitBreaksBound()
    ensures var fee, full := INITIAL_BASE_FEE_PER_GAS, Usage(30000001, 30000001);
            && FeeAfter(fee, [full]) == Some(1125000008)
            && MaxBaseFee(2, fee) == 1125000000
            && !BoundHoldsUnder(fee, 2, 30000001)
  {
    var fee, limit := INITIAL_BASE_FEE_PER_GAS, 30000001;
    var full := Usage(limit, limit);
    assert [full][..0] == [];
    OneMoreThanTarget(fee, 15000000);
    FullBlockIff(fee, limit);
    assert Respects([full], limit);
  }

  // ---------- Fee market transactions ----------

  /** Fields the caller left out are `None`. */
  class FeeMarketTransaction {
    var gas: Option<nat>
    var maxPriorityFeePerGas: Option<nat>
    var maxFeePerGas: Option<nat>
    var value: nat
    var effectiveGasPrice: int

    constructor (gas: Option<nat>, maxPriorityFeePerGas: Option<nat>, maxFeePerGas: Option<nat>, value: nat)
      ensures this.gas == gas && this.maxPriorityFeePerGas == maxPriorityFeePerGas
      ensures this.maxFeePerGas == maxFeePerGas && this.value == value
    {
      this.gas, this.value := gas, value;
      this.maxPriorityFeePerGas, this.maxFeePerGas := maxPriorityFeePerGas, maxFeePerGas;
      effectiveGasPrice := 0;
    }

    /** What the caller gave stays; a missing maximum fee is the bound for the next three blocks. */
    method Autofill(defaultLimit: Option<nat>, estimate: nat, parentFee: nat, parent: Usage, priorityFee: nat)
      requires NextBaseFee(parentFee, parent).Some?
      modifies this`gas, this`maxFeePerGas, this`maxPriorityFeePerGas
      ensures gas == Some(Or(old(gas), Or(defaultLimit, estimate)))
      ensures maxFeePerGas == Some(Or(old(maxFeePerGas), MaxBaseFee(3, NextBaseFee(parentFee, parent).value)))
      ensures maxPriorityFeePerGas == Some(Or(old(maxPriorityFeePerGas), priorityFee))
    {
      if gas.None? {
        gas := if defaultLimit.None? then Some(estimate) else defaultLimit;
      }
      if maxFeePerGas.None? {
        maxFeePerGas := CalcNBlocksMaxBaseFee(3, parentFee, parent);
      }
      if maxPriorityFeePerGas.None? {
        maxPriorityFeePerGas := Some(priorityFee);
      }
    }

    method UpdateEffectiveGasPrice(baseFee: nat)
      requires maxFeePerGas.Some? && maxPriorityFeePerGas.Some?
      modifies this`effectiveGasPrice
      ensures effectiveGasPrice == EffectivePrice(maxFeePerGas.value, maxPriorityFeePerGas.value, baseFee)
    {
      var a := maxFeePerGas.value - baseFee;
      var tip := if a < maxPriorityFeePerGas.value then a else maxPriorityFeePerGas.value;
      effectiveGasPrice := baseFee + tip;
    }

    /** What the miner asks the sender to hold. */
    method GetUpfrontCost(baseFee: nat) returns (cost: int)
      requires gas.Some? && maxFeePerGas.Some? && maxPriorityFeePerGas.Some?
      ensures cost == gas.value * EffectivePrice(maxFeePerGas.value, maxPriorityFeePerGas.value, baseFee) + value
    {
      var room := maxFeePerGas.value - baseFee;
      var inclusionFeePerGas := if maxPriorityFeePerGas.value < room then maxPriorityFeePerGas.value else room;
      var gasPrice := inclusionFeePerGas + baseFee;
      cost := gas.value * gasPrice + value;
    }
  }

  function Or(given: Option<nat>, default: nat): nat {
    if given.Some? then given.value else default
  }

  /** The tip on top of the base fee, up to the maximum fee. */
  function EffectivePrice(maxFee: nat, priorityFee: nat, baseFee: nat): nat {
    Min(maxFee, baseFee + priorityFee)
  }

  /** A price covers the base fee exactly when the maximum fee does, and never costs more than was checked. */
  lemma PriceCovers(gas: nat, value: nat, maxFee: nat, priorityFee: nat, baseFee: nat)
    ensures var price := EffectivePrice(maxFee, priorityFee, baseFee);
            && price <= maxFee && price <= baseFee + priorityFee
            && (price < maxFee ==> price == baseFee + priorityFee)
            && (baseFee <= price <==> baseFee <= maxFee)
            && gas * price + value <= gas * maxFee + value
  {
    var price := EffectivePrice(maxFee, priorityFee, baseFee);
    assert gas * (maxFee - price) >= 0;
  }

  /**
   * An autofilled transaction that passed the pool's funds check is payable in each of the
   * next three blocks.
   */
  lemma AutofilledIsPayable(gas: nat, value: nat, priorityFee: nat, parentFee: nat, parent: Usage,
                            history: seq<Usage>, balance: nat)
    requires NextBaseFee(parentFee, parent).Some? && NextBaseFee(parentFee, parent).value >= 8
    requires |history| < 3 && AllWithin(history)
    requires balance >= gas * MaxBaseFee(3, NextBaseFee(parentFee, parent).value) + value
    ensures var next := NextBaseFee(parentFee, parent).value;
            var maxFee, baseFee := MaxBaseFee(3, next), FeeAfter(next, history);
            && baseFee.Some?
            && baseFee.value <= EffectivePrice(maxFee, priorityFee, baseFee.value) <= maxFee
            && gas * EffectivePrice(maxFee, priorityFee, baseFee.value) + value <= balance
  {
    var next := NextBaseFee(parentFee, parent).value;
    NBlocksBounded(next, history, 3);
    PriceCovers(gas, value, MaxBaseFee(3, next), priorityFee, FeeAfter(next, history).value);
  }

  /** The same for blocks that respect one gas limit, odd ones included, where the bound holds under it. */
  lemma AutofilledIsPayableUnder(gas: nat, value: nat, priorityFee: nat, parentFee: nat, parent: Usage,
                                 history: seq<Usage>, limit: nat, balance: nat)
    requires NextBaseFee(parentFee, parent).Some? && NextBaseFee(parentFee, parent).value >= 8
    requires |history| < 3 && Respects(history, limit)
    requires limit > 1 && AllCovered(NextBaseFee(parentFee, parent).value, 3, limit)
    requires balance >= gas * MaxBaseFee(3, NextBaseFee(parentFee, parent).value) + value
    ensures var next := NextBaseFee(parentFee, parent).value;
            var maxFee, baseFee := MaxBaseFee(3, next), FeeAfter(next, history);
            && baseFee.Some?
            && baseFee.value <= EffectivePrice(maxFee, priorityFee, baseFee.value) <= maxFee
            && gas * EffectivePrice(maxFee, priorityFee, baseFee.value) + value <= balance
  {
    var next := NextBaseFee(parentFee, parent).value;
    CoveredBounded(next, history, limit);
    MaxGrows(|history| + 1, 3, next);
    PriceCovers(gas, value, MaxBaseFee(3, next), priorityFee, FeeAfter(next, history).value);
  }
}
