/**
 The unlock-schedule calculator of a lockup vesting account.

 Every `.unwrap()` on a checked subtraction in the program becomes a `None`
 here: the calculator refuses to answer rather than wrap around. The
 program's floating-point step is replaced by exact floor division, taken in
 the same order: first the index of the current period, then the share of
 the grant that this many periods unlock.
 */
module Calculator {
  import opened Numeric
  import opened Lockup

  /** Length of the vesting window in seconds. */
  function Span(v: Vesting): int {
    v.endTs - v.startTs
  }

  /** Seconds of the window elapsed at `t`, scaled by the period count: the
      quantity whose position between multiples of `Span` fixes the period. */
  function ScaledElapsed(v: Vesting, t: I64): int {
    (t - v.startTs) * v.periodCount
  }

  /** The amount `k` whole periods unlock: `k / periodCount` of the grant,
      rounded down. */
  function UnlockedAfter(v: Vesting, k: nat): int
    requires v.periodCount >= 1
  {
    k * v.startBalance / v.periodCount
  }

  /** Number of whole periods elapsed at `t`: the largest `k` whose boundary,
      `startTs + k * Span / periodCount`, is not after `t`. */
  function CurrentPeriod(v: Vesting, t: I64): (k: U64)
    requires v.startTs <= t < v.endTs
    requires v.periodCount >= 1
    ensures k < v.periodCount
    ensures k * Span(v) <= ScaledElapsed(v, t) < (k + 1) * Span(v)
  {
    var elapsed, span := ScaledElapsed(v, t), Span(v);
    MulMonotone(0, t - v.startTs, v.periodCount);
    MulStrictMonotone(t - v.startTs, span, v.periodCount);
    FloorDivBelow(elapsed, span, v.periodCount);
    FloorDivBracket(elapsed, span);
    elapsed / span
  }

  /** Amount unlocked strictly inside the window. Only whole periods count,
      and the share of the grant they unlock is rounded down. With no periods
      at all the program's float arithmetic yields NaN, which it converts to
      0; so does this function. */
  function LinearUnlock(v: Vesting, t: I64): (r: U64)
    requires v.startTs <= t < v.endTs
    ensures r <= v.startBalance
    ensures v.startBalance > 0 ==> r < v.startBalance
    ensures v.periodCount == 0 ==> r == 0
    ensures v.periodCount >= 1 ==>
      r * v.periodCount <= CurrentPeriod(v, t) * v.startBalance < (r + 1) * v.periodCount
  {
    if v.periodCount == 0 then
      0
    else
      var k := CurrentPeriod(v, t);
      ShareBelowWhole(k, v.periodCount, v.startBalance);
      UnlockedAfter(v, k)
  }

  /** Total amount vested at `t`, as if nothing had been withdrawn or lent:
      nothing before the start, the whole grant from the end on, and a
      rounded-down linear share of the completed periods in between. */
  function TotalVested(v: Vesting, t: I64): (r: U64)
    ensures r <= v.startBalance
    ensures t < v.startTs ==> r == 0
    ensures v.startTs <= t && v.endTs <= t ==> r == v.startBalance
    ensures v.startTs <= t < v.endTs && v.startBalance > 0 ==> r < v.startBalance
  {
    if t < v.startTs then
      0
    else if t >= v.endTs then
      v.startBalance
    else
      LinearUnlock(v, t)
  }

  /** Amount already withdrawn (or sent out through whitelisted programs). */
  function WithdrawnAmount(v: Vesting): (r: Option<U64>)
    ensures r.Some? <==> v.outstanding <= v.startBalance
    ensures r.Some? ==> r.value + v.outstanding == v.startBalance
  {
    CheckedSub(v.startBalance, v.outstanding)
  }

  /** Amount physically in the vault: held and not lent out. */
  function Balance(v: Vesting): (r: Option<U64>)
    ensures r.Some? <==> v.whitelistOwned <= v.outstanding
    ensures r.Some? ==> r.value + v.whitelistOwned == v.outstanding
  {
    CheckedSub(v.outstanding, v.whitelistOwned)
  }

  /** Amount vested at `t` and not yet withdrawn. It may be partly lent out. */
  function OutstandingVested(v: Vesting, t: I64): (r: Option<U64>)
    ensures r.Some? <==> v.outstanding <= v.startBalance
                         && v.startBalance - v.outstanding <= TotalVested(v, t)
    ensures r.Some? ==> r.value + (v.startBalance - v.outstanding) == TotalVested(v, t)
  {
    match WithdrawnAmount(v)
    case None => None
    case Some(withdrawn) => CheckedSub(TotalVested(v, t), withdrawn)
  }

  /** What the beneficiary may withdraw at `t`: vested and not yet withdrawn,
      but no more than the vault holds. Defined exactly when the record's
      bookkeeping is consistent with the schedule at `t`; then it never lets
      the beneficiary go past the schedule nor past the vault. */
  function AvailableForWithdrawal(v: Vesting, t: I64): (r: Option<U64>)
    ensures r.Some? <==> Consistent(v) && v.startBalance - v.outstanding <= TotalVested(v, t)
    ensures r.Some? ==> r.value <= v.outstanding - v.whitelistOwned
    ensures r.Some? ==> r.value <= TotalVested(v, t) - (v.startBalance - v.outstanding)
    ensures r.Some? ==> r.value == v.outstanding - v.whitelistOwned
                        || r.value == TotalVested(v, t) - (v.startBalance - v.outstanding)
    ensures r.Some? ==> (v.startBalance - v.outstanding) + r.value <= TotalVested(v, t) <= v.startBalance
  {
    match OutstandingVested(v, t)
    case None => None
    case Some(vested) =>
      match Balance(v)
      case None => None
      case Some(held) => Some(Min(vested, held))
  }
}
