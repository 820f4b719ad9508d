/**
 Properties of the unlock schedule that relate several calls of the
 calculator: the vested amount only grows, it is a step function that moves
 only at period boundaries, it never runs ahead of continuous linear vesting
 and lags it by less than one period, and the amount offered for withdrawal
 is safe to pay out.
 */
module CalculatorProperties {
  import opened Numeric
  import opened Lockup
  import opened Calculator

  /** Vesting never goes backwards: a later timestamp has at least as much
      vested. */
  lemma TotalVestedMonotone(v: Vesting, t1: I64, t2: I64)
    requires t1 <= t2
    ensures TotalVested(v, t1) <= TotalVested(v, t2)
  {
    if v.startTs <= t1 && t2 < v.endTs && v.periodCount >= 1 {
      MulMonotone(t1 - v.startTs, t2 - v.startTs, v.periodCount);
      FloorDivMonotone(ScaledElapsed(v, t1), ScaledElapsed(v, t2), Span(v));
      var k1, k2 := CurrentPeriod(v, t1), CurrentPeriod(v, t2);
      MulMonotone(k1, k2, v.startBalance);
      FloorDivMonotone(k1 * v.startBalance, k2 * v.startBalance, v.periodCount);
    }
  }

  /** Inside the window the vested amount is a step function of the number
      of whole periods elapsed: whenever `t` lies in period `k` (its scaled
      elapsed time is between the `k`-th and `k+1`-th multiple of the window
      length), exactly `UnlockedAfter(k)` is vested, and `k` is a period of
      the schedule. */
  lemma StepCharacterization(v: Vesting, t: I64, k: nat)
    requires v.periodCount >= 1
    requires v.startTs <= t < v.endTs
    requires k * Span(v) <= ScaledElapsed(v, t) < (k + 1) * Span(v)
    ensures k < v.periodCount
    ensures TotalVested(v, t) == UnlockedAfter(v, k)
  {
    var e, span, pc := ScaledElapsed(v, t), Span(v), v.periodCount;
    MulStrictMonotone(t - v.startTs, span, pc);
    assert k * span < pc * span;
    MulCancelLess(k, pc, span);
    FloorDivUnique(e, span, k);
    assert CurrentPeriod(v, t) == k;
  }

  /** No continuous accrual: two timestamps in the same period have the same
      amount vested, however far apart they are. */
  lemma ConstantWithinPeriod(v: Vesting, t1: I64, t2: I64, k: nat)
    requires v.periodCount >= 1
    requires v.startTs <= t1 <= t2 < v.endTs
    requires k * Span(v) <= ScaledElapsed(v, t1)
    requires ScaledElapsed(v, t2) < (k + 1) * Span(v)
    ensures TotalVested(v, t1) == TotalVested(v, t2)
  {
    MulMonotone(t1 - v.startTs, t2 - v.startTs, v.periodCount);
    StepCharacterization(v, t1, k);
    StepCharacterization(v, t2, k);
  }

  /** Conversely, when the vested amount rises between two timestamps inside
      the window, a period boundary lies between them: the later timestamp's
      period starts after the earlier timestamp. */
  lemma RisesOnlyAtBoundaries(v: Vesting, t1: I64, t2: I64)
    requires v.periodCount >= 1
    requires v.startTs <= t1 <= t2 < v.endTs
    requires TotalVested(v, t1) < TotalVested(v, t2)
    ensures CurrentPeriod(v, t1) < CurrentPeriod(v, t2)
    ensures ScaledElapsed(v, t1) < CurrentPeriod(v, t2) * Span(v) <= ScaledElapsed(v, t2)
  {
    MulMonotone(t1 - v.startTs, t2 - v.startTs, v.periodCount);
    FloorDivMonotone(ScaledElapsed(v, t1), ScaledElapsed(v, t2), Span(v));
    var k1, k2 := CurrentPeriod(v, t1), CurrentPeriod(v, t2);
    assert k1 != k2;
    MulMonotone(k1 + 1, k2, Span(v));
  }

  /** Rounding is always in the grantor's favour: inside the window the
      vested amount never exceeds the continuous linear share
      `startBalance * (t - startTs) / Span`. */
  lemma NeverAheadOfLinear(v: Vesting, t: I64)
    requires v.startTs <= t < v.endTs
    ensures TotalVested(v, t) * Span(v) <= (t - v.startTs) * v.startBalance
  {
    if v.periodCount >= 1 {
      RoundedShareBelowExact(TotalVested(v, t), CurrentPeriod(v, t), t - v.startTs,
                             v.periodCount, v.startBalance, Span(v));
    } else {
      MulMonotone(0, t - v.startTs, v.startBalance);
    }
  }

  /** The other rounding order, a single floor of the exact linear share:
      `floor(startBalance * (t - startTs) / Span)`. */
  function SingleRounding(v: Vesting, t: I64): int
    requires v.startTs <= t < v.endTs
  {
    (t - v.startTs) * v.startBalance / Span(v)
  }

  /** Rounding the period index first never pays more than rounding the
      linear share once. */
  lemma NeverAboveSingleRounding(v: Vesting, t: I64)
    requires v.startTs <= t < v.endTs
    ensures TotalVested(v, t) <= SingleRounding(v, t)
  {
    var r, span := TotalVested(v, t), Span(v);
    NeverAheadOfLinear(v, t);
    FloorDivUnique(r * span, span, r);
    FloorDivMonotone(r * span, (t - v.startTs) * v.startBalance, span);
  }

  /** ... and it lags the continuous linear share by less than one period's
      reward plus one token: with `r` vested,
      `r + 1 > startBalance * (t - startTs) / Span - startBalance / periodCount`. */
  lemma LagBelowOnePeriod(v: Vesting, t: I64)
    requires v.periodCount >= 1
    requires v.startTs <= t < v.endTs
    ensures (TotalVested(v, t) + 1) * v.periodCount * Span(v)
            > (ScaledElapsed(v, t) - Span(v)) * v.startBalance
  {
    RoundedShareLag(TotalVested(v, t), CurrentPeriod(v, t), ScaledElapsed(v, t),
                    v.periodCount, v.startBalance, Span(v));
  }

  /** Once a withdrawal amount is defined it stays defined, and it never
      shrinks while the record is left unchanged. */
  lemma AvailableMonotone(v: Vesting, t1: I64, t2: I64)
    requires t1 <= t2
    requires AvailableForWithdrawal(v, t1).Some?
    ensures AvailableForWithdrawal(v, t2).Some?
    ensures AvailableForWithdrawal(v, t1).value <= AvailableForWithdrawal(v, t2).value
  {
    TotalVestedMonotone(v, t1, t2);
  }

  /** Before the window opens nothing is available, and a record that shows
      any withdrawal at that time is rejected as inconsistent. */
  lemma NothingAvailableBeforeStart(v: Vesting, t: I64)
    requires t < v.startTs
    ensures AvailableForWithdrawal(v, t).Some? <==> v.outstanding == v.startBalance && Consistent(v)
    ensures AvailableForWithdrawal(v, t).Some? ==> AvailableForWithdrawal(v, t).value == 0
  {
  }

  /** Once the window has closed a consistent record may withdraw everything
      in the vault. */
  lemma FullyVestedReleasesVault(v: Vesting, t: I64)
    requires Consistent(v)
    requires v.startTs <= t && v.endTs <= t
    ensures AvailableForWithdrawal(v, t) == Some(v.outstanding - v.whitelistOwned)
  {
  }

  /** The offered amount is safe to pay: withdrawing any part `a` of it leaves
      a consistent record, within the schedule, whose offer has dropped by
      exactly `a`. */
  lemma WithdrawWithinSchedule(v: Vesting, t: I64, a: U64)
    requires AvailableForWithdrawal(v, t).Some?
    requires a <= AvailableForWithdrawal(v, t).value
    ensures Consistent(v.(outstanding := v.outstanding - a))
    ensures WithdrawnAmount(v.(outstanding := v.outstanding - a)).value <= TotalVested(v, t)
    ensures AvailableForWithdrawal(v.(outstanding := v.outstanding - a), t)
            == Some(AvailableForWithdrawal(v, t).value - a)
  {
  }
}
