/** How often an error alert repeats itself: each time the count of its spans passes a rung of a
    ladder. Counts are 64-bit unsigned integers. */
module NotificationLadder {

  const WRAP: nat := 0x1_0000_0000_0000_0000

  /** The last rung that 64 bits can hold: 15625 * 2^50. */
  const LAST_RUNG: nat := 17_592_186_044_416_000_000

  /** The rungs: 100, 1000 and so on up to a million, then two million doubled again and again. */
  function Rung(i: nat): nat {
    if i == 0 then 100 else if i < 5 then 10 * Rung(i - 1) else 2 * Rung(i - 1)
  }

  lemma FirstRungs()
    ensures Rung(0) == 100 && Rung(1) == 1_000 && Rung(2) == 10_000 && Rung(3) == 100_000 && Rung(4) == 1_000_000
  {
    assert Rung(2) == 10 * Rung(1);
    assert Rung(4) == 10 * Rung(3);
  }

  lemma {:induction false} RungsGrow(i: nat, j: nat)
    requires i < j
    ensures 100 <= Rung(i) < Rung(j)
    decreases j
  {
    RungIsPositive(i);
    if i < j - 1 { RungsGrow(i, j - 1); } else { RungIsPositive(j - 1); }
  }

  lemma {:induction false} RungIsPositive(i: nat)
    ensures Rung(i) >= 100
  {
    if i > 0 { RungIsPositive(i - 1); }
  }

  /** The next rung, found by climbing: `next` is the rung above `n` if there is one in reach. */
  ghost predicate NextRung(n: nat, next: nat) {
    exists i: nat :: Rung(i) == next && n < next && (i > 0 ==> Rung(i - 1) <= n)
  }

  /** The next rung is the least one above `n`. */
  lemma {:induction false} NextRungIsLeast(n: nat, next: nat, j: nat)
    requires NextRung(n, next)
    ensures n < Rung(j) <==> next <= Rung(j)
  {
    var i: nat :| Rung(i) == next && n < next && (i > 0 ==> Rung(i - 1) <= n);
    if i < j {
      RungsGrow(i, j);
    } else if j < i - 1 {
      RungsGrow(j, i - 1);
      RungsGrow(j, i);
    } else if j < i {
      RungsGrow(j, i);
    }
  }

  /** The climb ends for every count below the last rung, with the least rung above it. */
  method NextSpanCountThreshold(n: nat) returns (next: nat)
    requires n < LAST_RUNG
    ensures NextRung(n, next) && next <= LAST_RUNG < WRAP
  {
    ghost var i := 0;
    if n < 1_000_000 {
      next := 100;
      while next <= n
        invariant i < 5 && next == Rung(i) && (i > 0 ==> Rung(i - 1) <= n)
        decreases 5 - i
      {
        next := next * 10 % WRAP;
        i := i + 1;
      }
      return;
    }
    next := 2_000_000;
    i := 5;
    while next <= n
      invariant i >= 5 && next == Rung(i) && Rung(i - 1) <= n && next <= LAST_RUNG
      decreases LAST_RUNG - next
    {
      BelowLastRung(i);
      RungIsPositive(i);
      next := next * 2 % WRAP;
      i := i + 1;
    }
  }

  /** A rung below the last one is at most half of it. */
  lemma BelowLastRung(i: nat)
    requires i >= 5 && Rung(i) < LAST_RUNG
    ensures Rung(i + 1) <= LAST_RUNG
  {
    RungByShift(i);
    var k := i - 5;
    if k >= 43 {
      Power(43, k);
      assert Rung(i) >= 2_000_000 * Pow2(43);
      LastRungIsPower();
    } else {
      Power(k + 1, 43);
      LastRungIsPower();
    }
  }

  function Pow2(k: nat): (p: nat)
    ensures p > 0
  {
    if k == 0 then 1 else 2 * Pow2(k - 1)
  }

  lemma {:induction false} Power(j: nat, k: nat)
    requires j <= k
    ensures Pow2(j) <= Pow2(k)
    decreases k
  {
    if j < k { Power(j, k - 1); }
  }

  lemma LastRungIsPower()
    ensures LAST_RUNG == 2_000_000 * Pow2(43) && Pow2(43) == 8_796_093_022_208
  {
    assert Pow2(10) == 1024;
    PowerSum(10, 10);
    PowerSum(20, 20);
    PowerSum(40, 3);
    assert Pow2(3) == 8;
  }

  lemma {:induction false} PowerSum(j: nat, k: nat)
    ensures Pow2(j + k) == Pow2(j) * Pow2(k)
    decreases k
  {
    if k > 0 {
      PowerSum(j, k - 1);
      assert Pow2(j + k) == 2 * Pow2(j + (k - 1));
    }
  }

  lemma {:induction false} RungByShift(i: nat)
    requires i >= 5
    ensures Rung(i) == 2_000_000 * Pow2(i - 5)
  {
    if i > 5 { RungByShift(i - 1); }
  }

  // ---------------------------------------------------------------------------
  // Where the climb does not end
  // ---------------------------------------------------------------------------

  /** What the second loop compares after `k` shifts. */
  function Climb(k: nat): nat {
    if k == 0 then 2_000_000 else Climb(k - 1) * 2 % WRAP
  }

  lemma {:induction false} ClimbBeforeWrap(k: nat)
    requires k <= 43
    ensures Climb(k) == 2_000_000 * Pow2(k) <= LAST_RUNG
  {
    Power(k, 43);
    LastRungIsPower();
    if k > 0 {
      ClimbBeforeWrap(k - 1);
      var next := Climb(k - 1) * 2;
      assert next == 2_000_000 * Pow2(k) < WRAP;
      NoWrap(next);
    }
  }

  lemma NoWrap(n: nat)
    requires n < WRAP
    ensures n % WRAP == n
  {
  }

  lemma ClimbStep(k: nat, value: nat, next: nat)
    requires Climb(k) == value && next == value * 2 % WRAP
    ensures Climb(k + 1) == next
  {
  }

  /** After the last rung the shifts wrap, stay below it, and end in zero. */
  lemma ClimbAfterWrap(k: nat)
    requires Climb(k) == LAST_RUNG
    ensures forall j :: k < j < k + 14 ==> Climb(j) < LAST_RUNG
    ensures Climb(k + 14) == 0
  {
    ClimbStep(k, LAST_RUNG, 16_737_628_015_122_448_384);
    ClimbStep(k + 1, 16_737_628_015_122_448_384, 15_028_511_956_535_345_152);
    ClimbStep(k + 2, 15_028_511_956_535_345_152, 11_610_279_839_361_138_688);
    ClimbStep(k + 3, 11_610_279_839_361_138_688, 4_773_815_605_012_725_760);
    ClimbStep(k + 4, 4_773_815_605_012_725_760, 9_547_631_210_025_451_520);
    ClimbStep(k + 5, 9_547_631_210_025_451_520, 648_518_346_341_351_424);
    ClimbStep(k + 6, 648_518_346_341_351_424, 1_297_036_692_682_702_848);
    ClimbStep(k + 7, 1_297_036_692_682_702_848, 2_594_073_385_365_405_696);
    ClimbStep(k + 8, 2_594_073_385_365_405_696, 5_188_146_770_730_811_392);
    ClimbStep(k + 9, 5_188_146_770_730_811_392, 10_376_293_541_461_622_784);
    ClimbStep(k + 10, 10_376_293_541_461_622_784, 2_305_843_009_213_693_952);
    ClimbStep(k + 11, 2_305_843_009_213_693_952, 4_611_686_018_427_387_904);
    ClimbStep(k + 12, 4_611_686_018_427_387_904, 9_223_372_036_854_775_808);
    ClimbStep(k + 13, 9_223_372_036_854_775_808, 0);
  }

  lemma {:induction false} ClimbEndsInZeros(k: nat)
    requires k >= 57
    ensures Climb(k) == 0
  {
    if k == 57 {
      ClimbBeforeWrap(43);
      LastRungIsPower();
      ClimbAfterWrap(43);
    } else {
      ClimbEndsInZeros(k - 1);
    }
  }

  predicate Exceeds(k: nat, n: nat) {
    Climb(k) > n
  }

  /** For a count from the last rung on, the loop would go on forever; below it, it ends. */
  lemma ClimbEndsIff(n: nat)
    requires n < WRAP
    ensures (exists k: nat :: Exceeds(k, n)) <==> n < LAST_RUNG
  {
    if n < LAST_RUNG {
      ClimbBeforeWrap(43);
      LastRungIsPower();
      assert Exceeds(43, n);
    } else {
      forall k: nat ensures !Exceeds(k, n) {
        if k <= 43 {
          ClimbBeforeWrap(k);
        } else if k < 57 {
          ClimbBeforeWrap(43);
          LastRungIsPower();
          ClimbAfterWrap(43);
        } else {
          ClimbEndsInZeros(k);
        }
      }
    }
  }

  // ---------------------------------------------------------------------------
  // How often the alert repeats itself
  // ---------------------------------------------------------------------------

  /** A rung lies above `old` and not above `count`. */
  predicate PassesRung(seen: nat, count: nat, i: nat) {
    seen < Rung(i) <= count
  }

  /** At the last rung it does not end: no shift exceeds it. */
  lemma {:induction false} NoShiftExceedsLastRung(k: nat)
    ensures Climb(k) <= LAST_RUNG < WRAP
  {
    ClimbEndsIff(LAST_RUNG);
    assert !Exceeds(k, LAST_RUNG);
  }

  /** The count triggers the alert exactly when it passes a rung. */
  lemma TriggersIffPassesRung(seen: nat, next: nat, count: nat)
    requires NextRung(seen, next)
    ensures count >= next <==> exists i: nat :: PassesRung(seen, count, i)
  {
    if count >= next {
      var i: nat :| Rung(i) == next && seen < next && (i > 0 ==> Rung(i - 1) <= seen);
      assert PassesRung(seen, count, i);
    }
    if i: nat :| PassesRung(seen, count, i) {
      NextRungIsLeast(seen, next, i);
    }
  }

  /** The number of rungs up to the count. */
  function RungsUpTo(count: nat, limit: nat): (n: nat)
    ensures n <= limit
  {
    if limit == 0 then 0 else RungsUpTo(count, limit - 1) + if Rung(limit - 1) <= count then 1 else 0
  }

  ghost predicate Triggers(seen: nat, count: nat) {
    exists next: nat :: NextRung(seen, next) && count >= next
  }

  lemma TriggersAtThreshold(seen: nat, next: nat, count: nat)
    requires NextRung(seen, next)
    ensures Triggers(seen, count) <==> count >= next
  {
    if other: nat :| NextRung(seen, other) && count >= other {
      var i: nat :| Rung(i) == other && seen < other && (i > 0 ==> Rung(i - 1) <= seen);
      NextRungIsLeast(seen, next, i);
    }
  }

  /** How often the alert is triggered as its count goes through the list. */
  ghost function CountTriggers(counts: seq<nat>): nat {
    if |counts| < 2 then 0
    else
      var last := |counts| - 1;
      CountTriggers(counts[..last]) + if Triggers(counts[last - 1], counts[last]) then 1 else 0
  }

  predicate NonDecreasing(counts: seq<nat>) {
    forall i, j :: 0 <= i < j < |counts| ==> counts[i] <= counts[j]
  }

  lemma {:induction false} MoreRungs(a: nat, b: nat, limit: nat)
    requires a <= b
    ensures RungsUpTo(a, limit) <= RungsUpTo(b, limit)
    ensures (exists i: nat :: i < limit && PassesRung(a, b, i)) ==> RungsUpTo(a, limit) < RungsUpTo(b, limit)
  {
    if limit > 0 {
      MoreRungs(a, b, limit - 1);
      if i: nat :| i < limit && PassesRung(a, b, i) && i < limit - 1 {}
    }
  }

  /** As long as the count does not go down, the alert is triggered at most once for each rung
      between its first and its last count. */
  lemma {:induction false} TriggersAtMostRungs(counts: seq<nat>, limit: nat)
    requires counts != [] && NonDecreasing(counts) && counts[|counts| - 1] < Rung(limit)
    ensures CountTriggers(counts) <= RungsUpTo(counts[|counts| - 1], limit) - RungsUpTo(counts[0], limit)
  {
    if |counts| >= 2 {
      var last := |counts| - 1;
      var before, seen, count := counts[..last], counts[last - 1], counts[last];
      assert before[|before| - 1] == seen && before[0] == counts[0];
      TriggersAtMostRungs(before, limit);
      MoreRungs(seen, count, limit);
      if Triggers(seen, count) {
        var next: nat :| NextRung(seen, next) && count >= next;
        TriggersIffPassesRung(seen, next, count);
        var i: nat :| PassesRung(seen, count, i);
        if i > limit { RungsGrow(limit, i); }
        assert i < limit;
      }
    }
  }

  /** The number of rungs grows with the logarithm of the count: more than `5 + k` triggers
      need a count of two million times `2^k`. */
  lemma {:induction false} TriggersAreLogarithmic(counts: seq<nat>, k: nat)
    requires counts != [] && NonDecreasing(counts) && CountTriggers(counts) > 5 + k
    ensures counts[|counts| - 1] >= 2_000_000 * Pow2(k)
  {
    if counts[|counts| - 1] < 2_000_000 * Pow2(k) {
      RungByShift(5 + k);
      TriggersAtMostRungs(counts, 5 + k);
    }
  }
}
