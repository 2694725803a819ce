/**
 The next block's gas limit (core/block_validator.go): a walk of unsigned 64-bit numbers that is
 meant to settle inside the configured floor and ceiling.
 */
module GasLimits {
  import opened Transactions

  const GAS_LIMIT_BOUND_DIVISOR := 100
  const MIN_GAS_LIMIT := 5000

  // What a 64-bit register keeps of x.
  function Wrap(x: int): nat { x % WORD }

  function Decay(limit: nat): nat { Wrap(limit / GAS_LIMIT_BOUND_DIVISOR - 1) }

  function Proposal(used: nat, limit: nat): nat {
    var contrib := Wrap(used + used / 2) / GAS_LIMIT_BOUND_DIVISOR;
    var next := Wrap(limit - Decay(limit) + contrib);
    if next < MIN_GAS_LIMIT then MIN_GAS_LIMIT else next
  }

  function FastCalcGasLimit(used: nat, limit: nat, gasFloor: nat, gasCeil: nat): nat {
    var next := Proposal(used, limit);
    if next < gasFloor then
      var raised := Wrap(limit + Decay(limit));
      if raised > gasFloor then gasFloor else raised
    else if next > gasCeil then
      var lowered := Wrap(limit - Decay(limit));
      if lowered < gasCeil then gasCeil else lowered
    else
      next
  }

  // Raising the limit by its own decay stays within 64 bits.
  predicate Roomy(limit: nat) { limit + limit / GAS_LIMIT_BOUND_DIVISOR <= WORD }

  /**
   A limit inside the range stays inside it, whatever the block used, with two exceptions: at a
   ceiling under the divisor the decay is minus one and the limit climbs past the ceiling; and
   raising a limit close to 2^64 can overflow to a number under the floor.
   */
  lemma StaysInRange(used: nat, limit: nat, gasFloor: nat, gasCeil: nat)
    requires limit < WORD && gasFloor <= limit <= gasCeil < WORD
    ensures gasFloor <= FastCalcGasLimit(used, limit, gasFloor, gasCeil) <= gasCeil <==>
      && !(limit == gasCeil && gasCeil < GAS_LIMIT_BOUND_DIVISOR)
      && !(!Roomy(limit) && Proposal(used, limit) < gasFloor && limit + limit / GAS_LIMIT_BOUND_DIVISOR - 1 - WORD < gasFloor)
  {
    assert MIN_GAS_LIMIT <= Proposal(used, limit);
    DecayIs(limit);
    hide Proposal, Decay;
  }

  lemma DecayIs(limit: nat)
    requires limit < WORD
    ensures Decay(limit) == if limit < GAS_LIMIT_BOUND_DIVISOR then WORD - 1 else limit / GAS_LIMIT_BOUND_DIVISOR - 1
  {}

  // None of the sums leaves 64 bits.
  predicate Fits(used: nat, limit: nat) {
    && used + used / 2 < WORD && limit < WORD && Roomy(limit)
    && limit - limit / GAS_LIMIT_BOUND_DIVISOR + 1 + (used + used / 2) / GAS_LIMIT_BOUND_DIVISOR < WORD
  }

  // Inside the range the proposal is cut to the range, and gas used counts one and a half times.
  lemma InRangeIsCut(used: nat, limit: nat, gasFloor: nat, gasCeil: nat)
    requires Fits(used, limit) && GAS_LIMIT_BOUND_DIVISOR <= limit && gasFloor <= limit <= gasCeil < WORD
    ensures var next := limit - limit / GAS_LIMIT_BOUND_DIVISOR + 1 + (used + used / 2) / GAS_LIMIT_BOUND_DIVISOR;
      FastCalcGasLimit(used, limit, gasFloor, gasCeil) == Max(gasFloor, Min(gasCeil, Max(MIN_GAS_LIMIT, next)))
  {
    DecayIs(limit);
    ProposalIs(used, limit);
    assert Wrap(limit + Decay(limit)) == (limit + Decay(limit)) && Wrap(limit - Decay(limit)) == limit - Decay(limit);
    hide Decay, Proposal, Wrap;
  }

  lemma ProposalIs(used: nat, limit: nat)
    requires Fits(used, limit) && GAS_LIMIT_BOUND_DIVISOR <= limit
    ensures Proposal(used, limit) ==
      Max(MIN_GAS_LIMIT, limit - limit / GAS_LIMIT_BOUND_DIVISOR + 1 + (used + used / 2) / GAS_LIMIT_BOUND_DIVISOR)
  {
    DecayIs(limit);
    hide Decay;
  }

  /**
   Which way the limit moves inside the range: up exactly if one and a half times the gas used reaches the
   limit rounded down to hundreds, or the limit is below the minimum; down exactly if it stays more than a
   hundred under that. At the ceiling it does not rise, at the floor or the minimum it does not fall.
   */
  lemma LimitFollowsUse(used: nat, limit: nat, gasFloor: nat, gasCeil: nat)
    requires Fits(used, limit) && GAS_LIMIT_BOUND_DIVISOR <= limit && gasFloor <= limit <= gasCeil < WORD
    ensures var next, hundreds := FastCalcGasLimit(used, limit, gasFloor, gasCeil), limit / GAS_LIMIT_BOUND_DIVISOR;
      && (limit < next <==> limit < gasCeil && (limit < MIN_GAS_LIMIT || hundreds * GAS_LIMIT_BOUND_DIVISOR <= used + used / 2))
      && (next < limit <==> Max(gasFloor, MIN_GAS_LIMIT) < limit && used + used / 2 < (hundreds - 1) * GAS_LIMIT_BOUND_DIVISOR)
  {
    InRangeIsCut(used, limit, gasFloor, gasCeil);
    hide FastCalcGasLimit, Roomy;
  }

  // More gas used never lowers the next limit.
  lemma MoreUseRaises(used: nat, used': nat, limit: nat, gasFloor: nat, gasCeil: nat)
    requires Fits(used, limit) && Fits(used', limit) && used <= used'
    requires GAS_LIMIT_BOUND_DIVISOR <= limit && gasFloor <= limit <= gasCeil < WORD
    ensures FastCalcGasLimit(used, limit, gasFloor, gasCeil) <= FastCalcGasLimit(used', limit, gasFloor, gasCeil)
  {
    InRangeIsCut(used, limit, gasFloor, gasCeil);
    InRangeIsCut(used', limit, gasFloor, gasCeil);
    hide FastCalcGasLimit, Roomy;
  }

  /**
   A block that uses more than two thirds of its limit raises it. The converse fails: at exactly two
   thirds, where the limit is meant to stay, it still rises.
   */
  lemma TwoThirds(used: nat, limit: nat, gasFloor: nat, gasCeil: nat)
    requires Fits(used, limit) && GAS_LIMIT_BOUND_DIVISOR <= limit && gasFloor <= limit < gasCeil < WORD
    ensures 2 * limit < 3 * used ==> limit < FastCalcGasLimit(used, limit, gasFloor, gasCeil)
    ensures 3 * 10000 == 2 * 15000 && FastCalcGasLimit(10000, 15000, 0, 20000) == 15001
  {
    LimitFollowsUse(used, limit, gasFloor, gasCeil);
    InRangeIsCut(10000, 15000, 0, 20000);
    hide FastCalcGasLimit;
  }

  const MAX_GAS_LIMIT := 0x7FFF_FFFF_FFFF_FFFF

  // What header verification asks of a limit, given the parent's.
  predicate Verifies(parent: nat, limit: nat) {
    MIN_GAS_LIMIT <= limit <= MAX_GAS_LIMIT && Max(parent - limit, limit - parent) < parent / GAS_LIMIT_BOUND_DIVISOR
  }

  // A ceiling above what headers may have lets the proposal, or the step up to the floor, through.
  predicate Overshoots(used: nat, limit: nat, gasFloor: nat, gasCeil: nat) {
    MAX_GAS_LIMIT < gasCeil &&
    var next := Proposal(used, limit);
    if next < gasFloor then MAX_GAS_LIMIT < Min(gasFloor, limit + limit / GAS_LIMIT_BOUND_DIVISOR - 1) else MAX_GAS_LIMIT < next
  }

  /**
   The limit proposed on top of a verified block passes verification itself, whether or not the parent's is
   in the range, except under a ceiling below the minimum, or above what headers may have.
   */
  lemma ProposalVerifies(used: nat, limit: nat, gasFloor: nat, gasCeil: nat)
    requires MIN_GAS_LIMIT <= limit <= MAX_GAS_LIMIT && used <= limit && gasFloor <= gasCeil < WORD
    ensures Verifies(limit, FastCalcGasLimit(used, limit, gasFloor, gasCeil)) <==>
      && (MIN_GAS_LIMIT <= gasCeil || MIN_GAS_LIMIT <= limit - limit / GAS_LIMIT_BOUND_DIVISOR + 1)
      && !Overshoots(used, limit, gasFloor, gasCeil)
  {
    DecayIs(limit);
    ProposalNear(used, limit);
    hide Decay, Proposal, Wrap;
  }

  lemma ProposalNear(used: nat, limit: nat)
    requires MIN_GAS_LIMIT <= limit <= MAX_GAS_LIMIT && used <= limit
    ensures MIN_GAS_LIMIT <= Proposal(used, limit) && limit - Decay(limit) <= Proposal(used, limit) <= limit + Decay(limit)
    ensures Wrap(limit + Decay(limit)) == limit + Decay(limit) && Wrap(limit - Decay(limit)) == limit - Decay(limit)
  {
    DecayIs(limit);
    ProposalIs(used, limit);
    hide Decay, Proposal;
  }

  function Distance(limit: nat, gasFloor: nat, gasCeil: nat): nat {
    if limit < gasFloor then gasFloor - limit else if limit > gasCeil then limit - gasCeil else 0
  }

  lemma RoomyBelow(a: nat, b: nat)
    requires Roomy(b)
    ensures a <= b ==> Roomy(a)
  {}

  // From a limit of at least 200, every block strictly approaches the range.
  lemma Approaches(used: nat, limit: nat, gasFloor: nat, gasCeil: nat)
    requires 2 * GAS_LIMIT_BOUND_DIVISOR <= limit < WORD && Roomy(limit)
    requires gasFloor <= gasCeil < WORD && Roomy(gasCeil) && 199 <= gasCeil
    ensures var next := FastCalcGasLimit(used, limit, gasFloor, gasCeil);
      && Roomy(next) && next < WORD
      && (Distance(limit, gasFloor, gasCeil) == 0 ==> Distance(next, gasFloor, gasCeil) == 0)
      && (Distance(limit, gasFloor, gasCeil) > 0 ==> Distance(next, gasFloor, gasCeil) < Distance(limit, gasFloor, gasCeil))
      && (Distance(next, gasFloor, gasCeil) > 0 ==> next >= 2 * GAS_LIMIT_BOUND_DIVISOR)
  {
    DecayIs(limit);
    assert Wrap(limit + Decay(limit)) == limit + Decay(limit) && Wrap(limit - Decay(limit)) == limit - Decay(limit);
    var next := FastCalcGasLimit(used, limit, gasFloor, gasCeil);
    RoomyBelow(next, gasCeil);
    RoomyBelow(next, limit);
    hide Decay, Proposal, Wrap, Roomy;
  }

  lemma SmallIsRoomy(limit: nat)
    requires limit < 2 * GAS_LIMIT_BOUND_DIVISOR
    ensures Roomy(limit)
  {}

  // The limit of the n-th block, each block using used(k).
  function LimitAfter(used: nat -> nat, limit: nat, gasFloor: nat, gasCeil: nat, n: nat): nat {
    if n == 0 then limit
    else FastCalcGasLimit(used(n - 1), LimitAfter(used, limit, gasFloor, gasCeil, n - 1), gasFloor, gasCeil)
  }

  ghost predicate WithinLimit(used: nat -> nat, limit: nat, gasFloor: nat, gasCeil: nat, k: nat) {
    used(k) <= LimitAfter(used, limit, gasFloor, gasCeil, k)
  }

  // No block uses more gas than its limit.
  ghost predicate WithinLimits(used: nat -> nat, limit: nat, gasFloor: nat, gasCeil: nat) {
    forall k: nat :: WithinLimit(used, limit, gasFloor, gasCeil, k)
  }

  ghost predicate InRangeAt(used: nat -> nat, limit: nat, gasFloor: nat, gasCeil: nat, n: nat) {
    gasFloor <= LimitAfter(used, limit, gasFloor, gasCeil, n) <= gasCeil
  }

  // From the n-th block on, every limit is in the range.
  ghost predicate SettledFrom(used: nat -> nat, limit: nat, gasFloor: nat, gasCeil: nat, n: nat) {
    forall m: nat :: n <= m ==> InRangeAt(used, limit, gasFloor, gasCeil, m)
  }

  // A range, and numbers small enough not to overflow.
  predicate Configured(limit: nat, gasFloor: nat, gasCeil: nat) {
    limit < WORD && Roomy(limit) && gasFloor <= gasCeil < WORD && Roomy(gasCeil)
  }

  // With a ceiling that headers may have, every block's limit verifies against the one before.
  lemma {:induction false} WalkVerifies(used: nat -> nat, limit: nat, gasFloor: nat, gasCeil: nat, n: nat)
    requires MIN_GAS_LIMIT <= limit <= MAX_GAS_LIMIT && gasFloor <= gasCeil && MIN_GAS_LIMIT <= gasCeil <= MAX_GAS_LIMIT
    requires WithinLimits(used, limit, gasFloor, gasCeil)
    ensures MIN_GAS_LIMIT <= LimitAfter(used, limit, gasFloor, gasCeil, n) <= MAX_GAS_LIMIT
    ensures Verifies(LimitAfter(used, limit, gasFloor, gasCeil, n), LimitAfter(used, limit, gasFloor, gasCeil, n + 1))
  {
    hide FastCalcGasLimit;
    if 0 < n { WalkVerifies(used, limit, gasFloor, gasCeil, n - 1); }
    assert WithinLimit(used, limit, gasFloor, gasCeil, n);
    ProposalVerifies(used(n), LimitAfter(used, limit, gasFloor, gasCeil, n), gasFloor, gasCeil);
  }

  // A ceiling that the decay can come down to.
  predicate Wide(limit: nat, gasFloor: nat, gasCeil: nat) {
    Configured(limit, gasFloor, gasCeil) && 199 <= gasCeil
  }

  // Limits the decay cannot move: it rounds down to nothing.
  predicate Stuck(limit: nat, gasFloor: nat) {
    GAS_LIMIT_BOUND_DIVISOR <= limit < 2 * GAS_LIMIT_BOUND_DIVISOR && gasFloor > MIN_GAS_LIMIT
  }

  lemma {:induction false} KeepsDistance(used: nat -> nat, limit: nat, gasFloor: nat, gasCeil: nat, n: nat, m: nat)
    requires Wide(LimitAfter(used, limit, gasFloor, gasCeil, n), gasFloor, gasCeil)
    requires LimitAfter(used, limit, gasFloor, gasCeil, n) >= 2 * GAS_LIMIT_BOUND_DIVISOR
    requires m >= Distance(LimitAfter(used, limit, gasFloor, gasCeil, n), gasFloor, gasCeil)
    ensures exists k: nat :: k >= n && InRangeAt(used, limit, gasFloor, gasCeil, k)
    decreases m
  {
    hide FastCalcGasLimit, Roomy;
    if Distance(LimitAfter(used, limit, gasFloor, gasCeil, n), gasFloor, gasCeil) == 0 {
      assert InRangeAt(used, limit, gasFloor, gasCeil, n);
    } else {
      Approaches(used(n), LimitAfter(used, limit, gasFloor, gasCeil, n), gasFloor, gasCeil);
      if Distance(LimitAfter(used, limit, gasFloor, gasCeil, n + 1), gasFloor, gasCeil) == 0 {
        assert InRangeAt(used, limit, gasFloor, gasCeil, n + 1);
      } else {
        KeepsDistance(used, limit, gasFloor, gasCeil, n + 1, m - 1);
      }
    }
  }

  // One block from a limit below 200: it reaches the range at once, stands still, or falls by one.
  lemma LowStep(used: nat, limit: nat, gasFloor: nat, gasCeil: nat)
    requires used <= limit < 2 * GAS_LIMIT_BOUND_DIVISOR
    requires Wide(limit, gasFloor, gasCeil)
    ensures var next := FastCalcGasLimit(used, limit, gasFloor, gasCeil);
      if gasFloor <= MIN_GAS_LIMIT || limit == 0 then gasFloor <= next <= gasCeil
      else if limit < GAS_LIMIT_BOUND_DIVISOR then next == limit - 1
      else next == limit
  {
    LowDecay(limit);
    LowProposal(used, limit);
    hide Decay, Proposal, Roomy;
  }

  lemma LowDecay(limit: nat)
    requires limit < 2 * GAS_LIMIT_BOUND_DIVISOR
    ensures Decay(limit) == if limit < GAS_LIMIT_BOUND_DIVISOR then WORD - 1 else 0
  {}

  lemma LowProposal(used: nat, limit: nat)
    requires used <= limit < 2 * GAS_LIMIT_BOUND_DIVISOR
    ensures Proposal(used, limit) == MIN_GAS_LIMIT
  {
    LowDecay(limit);
  }

  // Under the divisor the decay is minus one: the limit falls one by one and leaps to the floor from zero.
  lemma {:induction false} FallsThenLeaps(used: nat -> nat, limit: nat, gasFloor: nat, gasCeil: nat, n: nat)
    requires WithinLimits(used, limit, gasFloor, gasCeil)
    requires Wide(limit, gasFloor, gasCeil)
    requires LimitAfter(used, limit, gasFloor, gasCeil, n) < GAS_LIMIT_BOUND_DIVISOR
    ensures exists k: nat :: k >= n && InRangeAt(used, limit, gasFloor, gasCeil, k)
    decreases LimitAfter(used, limit, gasFloor, gasCeil, n)
  {
    var now := LimitAfter(used, limit, gasFloor, gasCeil, n);
    hide FastCalcGasLimit, Roomy;
    assert WithinLimit(used, limit, gasFloor, gasCeil, n);
    SmallIsRoomy(now);
    LowStep(used(n), now, gasFloor, gasCeil);
    if gasFloor <= MIN_GAS_LIMIT || now == 0 {
      assert InRangeAt(used, limit, gasFloor, gasCeil, n + 1);
    } else {
      FallsThenLeaps(used, limit, gasFloor, gasCeil, n + 1);
    }
  }

  lemma {:induction false} NeverMoves(used: nat -> nat, limit: nat, gasFloor: nat, gasCeil: nat, n: nat)
    requires WithinLimits(used, limit, gasFloor, gasCeil)
    requires Wide(limit, gasFloor, gasCeil) && Stuck(limit, gasFloor)
    ensures LimitAfter(used, limit, gasFloor, gasCeil, n) == limit
  {
    hide FastCalcGasLimit, Roomy;
    if n > 0 {
      NeverMoves(used, limit, gasFloor, gasCeil, n - 1);
      assert WithinLimit(used, limit, gasFloor, gasCeil, n - 1);
      LowStep(used(n - 1), limit, gasFloor, gasCeil);
    }
  }

  lemma {:induction false} StaysForever(used: nat -> nat, limit: nat, gasFloor: nat, gasCeil: nat, n: nat, m: nat)
    requires Wide(limit, gasFloor, gasCeil) && n <= m
    requires InRangeAt(used, limit, gasFloor, gasCeil, n)
    ensures InRangeAt(used, limit, gasFloor, gasCeil, m)
  {
    if n < m {
      StaysForever(used, limit, gasFloor, gasCeil, n, m - 1);
      StaysInRange(used(m - 1), LimitAfter(used, limit, gasFloor, gasCeil, m - 1), gasFloor, gasCeil);
    }
  }

  // One block under a ceiling below 199: a limit above the ceiling stays above it, any other is lifted to it.
  lemma LowCeilingStep(used: nat, limit: nat, gasFloor: nat, gasCeil: nat)
    requires gasFloor <= gasCeil < 199 && limit < WORD
    ensures var next := FastCalcGasLimit(used, limit, gasFloor, gasCeil);
      && next < WORD && (gasCeil < limit ==> gasCeil < next)
      && (limit <= gasCeil ==> next == if limit == gasCeil < GAS_LIMIT_BOUND_DIVISOR then gasCeil + 1 else gasCeil)
  {
    assert MIN_GAS_LIMIT <= Proposal(used, limit);
    DecayIs(limit);
    hide Proposal, Decay;
  }

  // Under a ceiling below 199 a limit that is above it never comes down to it.
  lemma {:induction false} LowCeilingNeverReached(used: nat -> nat, limit: nat, gasFloor: nat, gasCeil: nat, n: nat, m: nat)
    requires gasFloor <= gasCeil < 199 && n <= m
    requires gasCeil < LimitAfter(used, limit, gasFloor, gasCeil, n) < WORD
    ensures gasCeil < LimitAfter(used, limit, gasFloor, gasCeil, m) < WORD
  {
    hide FastCalcGasLimit;
    if n < m {
      LowCeilingNeverReached(used, limit, gasFloor, gasCeil, n, m - 1);
      LowCeilingStep(used(m - 1), LimitAfter(used, limit, gasFloor, gasCeil, m - 1), gasFloor, gasCeil);
    }
  }

  // Under a ceiling of 100 to 198 a limit that is not above it is at it from the next block on.
  lemma {:induction false} LowCeilingHeld(used: nat -> nat, limit: nat, gasFloor: nat, gasCeil: nat, n: nat)
    requires gasFloor <= gasCeil && GAS_LIMIT_BOUND_DIVISOR <= gasCeil < 199 && limit <= gasCeil && 0 < n
    ensures LimitAfter(used, limit, gasFloor, gasCeil, n) == gasCeil
  {
    hide FastCalcGasLimit;
    if n > 1 { LowCeilingHeld(used, limit, gasFloor, gasCeil, n - 1); }
    LowCeilingStep(used(n - 1), LimitAfter(used, limit, gasFloor, gasCeil, n - 1), gasFloor, gasCeil);
  }

  // Under a ceiling below 100 the third block at the latest is above it.
  lemma TinyCeilingPassed(used: nat -> nat, limit: nat, gasFloor: nat, gasCeil: nat)
    requires gasFloor <= gasCeil < GAS_LIMIT_BOUND_DIVISOR && limit < WORD
    ensures gasCeil < LimitAfter(used, limit, gasFloor, gasCeil, 2) < WORD
  {
    hide FastCalcGasLimit;
    assert LimitAfter(used, limit, gasFloor, gasCeil, 0) == limit;
    LowCeilingStep(used(0), limit, gasFloor, gasCeil);
    assert LimitAfter(used, limit, gasFloor, gasCeil, 1) == FastCalcGasLimit(used(0), limit, gasFloor, gasCeil);
    LowCeilingStep(used(1), LimitAfter(used, limit, gasFloor, gasCeil, 1), gasFloor, gasCeil);
  }

  lemma LowCeilingSettles(used: nat -> nat, limit: nat, gasFloor: nat, gasCeil: nat)
    requires Configured(limit, gasFloor, gasCeil) && gasCeil < 199
    ensures limit <= gasCeil && GAS_LIMIT_BOUND_DIVISOR <= gasCeil <==>
      exists n: nat :: SettledFrom(used, limit, gasFloor, gasCeil, n)
  {
    hide FastCalcGasLimit;
    assert LimitAfter(used, limit, gasFloor, gasCeil, 0) == limit;
    if limit <= gasCeil && GAS_LIMIT_BOUND_DIVISOR <= gasCeil {
      forall m: nat | 1 <= m ensures InRangeAt(used, limit, gasFloor, gasCeil, m) {
        LowCeilingHeld(used, limit, gasFloor, gasCeil, m);
      }
      assert SettledFrom(used, limit, gasFloor, gasCeil, 1);
    } else {
      if limit <= gasCeil { TinyCeilingPassed(used, limit, gasFloor, gasCeil); }
      forall n: nat ensures !SettledFrom(used, limit, gasFloor, gasCeil, n) {
        LowCeilingNeverReached(used, limit, gasFloor, gasCeil, if limit <= gasCeil then 2 else 0, n + 2);
        assert !InRangeAt(used, limit, gasFloor, gasCeil, n + 2);
      }
    }
  }

  lemma WideSettles(used: nat -> nat, limit: nat, gasFloor: nat, gasCeil: nat)
    requires Wide(limit, gasFloor, gasCeil) && WithinLimits(used, limit, gasFloor, gasCeil)
    ensures !Stuck(limit, gasFloor) <==>
      exists n: nat :: SettledFrom(used, limit, gasFloor, gasCeil, n)
  {
    hide LimitAfter, Wide;
    if Stuck(limit, gasFloor) {
      forall n: nat ensures !SettledFrom(used, limit, gasFloor, gasCeil, n) {
        NeverMoves(used, limit, gasFloor, gasCeil, n);
        assert !InRangeAt(used, limit, gasFloor, gasCeil, n);
      }
    } else {
      var n := Reaches(used, limit, gasFloor, gasCeil);
      forall m: nat | n <= m ensures InRangeAt(used, limit, gasFloor, gasCeil, m) {
        StaysForever(used, limit, gasFloor, gasCeil, n, m);
      }
      assert SettledFrom(used, limit, gasFloor, gasCeil, n);
    }
  }

  // The starting points from which the range is reached and kept.
  predicate Settles(limit: nat, gasFloor: nat, gasCeil: nat) {
    if 199 <= gasCeil then !Stuck(limit, gasFloor) else limit <= gasCeil && GAS_LIMIT_BOUND_DIVISOR <= gasCeil
  }

  /**
   Whatever valid blocks come, the limit reaches the range and then never leaves it, with these
   exceptions: a start at 100 to 199 with a floor above 5000 never moves, and a ceiling below 199 is
   kept only from below, and only if it is at least 100.
   */
  lemma SettlesUnlessStuck(used: nat -> nat, limit: nat, gasFloor: nat, gasCeil: nat)
    requires Configured(limit, gasFloor, gasCeil) && WithinLimits(used, limit, gasFloor, gasCeil)
    ensures Settles(limit, gasFloor, gasCeil) <==> exists n: nat :: SettledFrom(used, limit, gasFloor, gasCeil, n)
  {
    hide LimitAfter, SettledFrom;
    if 199 <= gasCeil {
      WideSettles(used, limit, gasFloor, gasCeil);
    } else {
      LowCeilingSettles(used, limit, gasFloor, gasCeil);
    }
  }

  lemma Reaches(used: nat -> nat, limit: nat, gasFloor: nat, gasCeil: nat) returns (n: nat)
    requires Wide(limit, gasFloor, gasCeil) && WithinLimits(used, limit, gasFloor, gasCeil)
    requires !Stuck(limit, gasFloor)
    ensures InRangeAt(used, limit, gasFloor, gasCeil, n)
  {
    assert LimitAfter(used, limit, gasFloor, gasCeil, 0) == limit;
    if limit >= 2 * GAS_LIMIT_BOUND_DIVISOR {
      KeepsDistance(used, limit, gasFloor, gasCeil, 0, Distance(limit, gasFloor, gasCeil));
      n :| InRangeAt(used, limit, gasFloor, gasCeil, n);
    } else if limit >= GAS_LIMIT_BOUND_DIVISOR {
      assert WithinLimit(used, limit, gasFloor, gasCeil, 0);
      LowStep(used(0), limit, gasFloor, gasCeil);
      n := 1;
      assert LimitAfter(used, limit, gasFloor, gasCeil, 1) == FastCalcGasLimit(used(0), limit, gasFloor, gasCeil);
    } else {
      FallsThenLeaps(used, limit, gasFloor, gasCeil, 0);
      n :| InRangeAt(used, limit, gasFloor, gasCeil, n);
    }
  }
}
