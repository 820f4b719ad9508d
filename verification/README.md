# Lockup unlock-schedule calculator, modelled in Dafny

This project models the unlock-schedule calculator of the lockup program, in
`programs/lockup/src/calculator.rs`. A vesting account grants
`start_balance` tokens to a beneficiary. They unlock in `period_count` equal
steps between `start_ts` and `end_ts`. For such an account and a timestamp,
the calculator derives four amounts:

- the total vested so far, as if nothing had been withdrawn;
- the amount already withdrawn, `start_balance - outstanding`;
- the vested amount not yet withdrawn;
- the vault balance, `outstanding - whitelist_owned`.

The amount offered for withdrawal is the smaller of the last two.

Files:

- `numeric.dfy` (module `Numeric`): the `u64`/`i64` ranges as subset types.
  It also holds `Option`, the checked subtraction, `min`, and the
  floor-division facts the proofs use.
- `lockup.dfy` (module `Lockup`): the six fields of the vesting record that
  the calculator reads, and the record's bookkeeping invariant.
- `calculator.dfy` (module `Calculator`): the six functions of the
  calculator.
- `calculator_properties.dfy` (module `CalculatorProperties`): the lemmas
  that relate several calls. They cover monotonicity, the step shape of the
  schedule, rounding bounds and safety of the offered amount.
- `calculator_tests.dfy` (module `CalculatorTests`): the program's three
  worked schedules as tables, proved against the model.

Modelling choices:

- Each `.unwrap()` of a checked subtraction is a `None` result. The
  program panics at that point, so `None` means "the calculator refuses to
  answer".
- The floating-point step of `linear_unlock` is exact floor division, taken
  in the source's order. First `k = floor((t - start_ts) * period_count / (end_ts - start_ts))`,
  then `floor(k * start_balance / period_count)`. All three worked schedules
  agree with this reading.
- Intermediate products are unbounded integers. The results always fit in
  `u64`, and the contracts prove it.
- `period_count == 0` is not excluded by a precondition, because the
  program does not exclude it. Inside the window, `start_balance / 0.0` is
  `inf`, or NaN for a zero grant, and the period index is 0. `0.0` times
  either one is NaN, and Rust's `as u64` turns NaN into 0. The model returns
  0 there.
- `start_ts > end_ts` needs no precondition. The linear branch is then
  unreachable, and the model follows the two outer branches exactly as the
  program does.
- Line 53 states the invariant `period_count <= end_ts - start_ts` (at least
  one second per period), but the program never checks it. The model assumes
  neither that invariant nor `period_count >= 1`, and the calculator's contracts
  hold without them. A zero-length window never reaches the linear branch:
  `start_ts <= t < end_ts` forces `end_ts - start_ts >= 1`, and line 38 sends
  every other timestamp at or after the start to the full grant.

## Model

| member | source | states |
|---|---|---|
| Numeric.CheckedSub | programs/lockup/src/calculator.rs:11-14 | `checked_sub` is defined exactly when the subtrahend is at most the minuend. Then adding the subtrahend back gives the minuend. |
| Numeric.Min | programs/lockup/src/calculator.rs:6 | `min` is at most both arguments and equals one of them. |
| Calculator.CurrentPeriod | programs/lockup/src/calculator.rs:52-58 | The period index is below `period_count`. Scaled elapsed time lies between its `k`-th and `(k+1)`-th multiple of the window length, so `k` is the number of whole periods elapsed. |
| Calculator.LinearUnlock | programs/lockup/src/calculator.rs:45-66 | Inside the window the unlocked amount is `k / period_count` of the grant rounded down. It is strictly below a non-zero grant, and 0 when there are no periods. |
| Calculator.TotalVested | programs/lockup/src/calculator.rs:33-43 | Vested is 0 before the start, and the whole grant from the end on (for a window whose start is not after its end). It never exceeds the grant, and stays strictly below a non-zero grant inside the window. |
| Calculator.WithdrawnAmount | programs/lockup/src/calculator.rs:25-31 | Defined exactly when `outstanding <= start_balance`. Then withdrawn plus outstanding is the grant. |
| Calculator.Balance | programs/lockup/src/calculator.rs:9-15 | Defined exactly when `whitelist_owned <= outstanding`. Then the balance plus the lent part is `outstanding`. |
| Calculator.OutstandingVested | programs/lockup/src/calculator.rs:17-23 | Defined exactly when withdrawn is defined and at most the vested amount. Then withdrawn plus the result is the vested amount. |
| Calculator.AvailableForWithdrawal | programs/lockup/src/calculator.rs:5-7 | Defined exactly when the record is consistent and withdrawn is at most vested. The result is at most `outstanding - whitelist_owned` and at most vested minus withdrawn, and it equals one of them. Withdrawn plus the result never passes the vested amount, which never passes the grant. |
| CalculatorProperties.TotalVestedMonotone | programs/lockup/src/calculator.rs:35-66 | Vested is non-decreasing in the timestamp, for every record. |
| CalculatorProperties.StepCharacterization | programs/lockup/src/calculator.rs:52-65 | Inside the window, a timestamp in period `k` has exactly `floor(k * start_balance / period_count)` vested. Here `k` is fixed by inequalities, not by division, and `k < period_count`. |
| CalculatorProperties.ConstantWithinPeriod | programs/lockup/src/calculator.rs:56-58 | Two timestamps in the same period have the same vested amount, so nothing accrues continuously. |
| CalculatorProperties.RisesOnlyAtBoundaries | programs/lockup/src/calculator.rs:56-65 | If vested rises between two timestamps in the window, the later one is in a later period. That period's boundary lies after the earlier timestamp and no later than the later one. |
| CalculatorProperties.NeverAheadOfLinear | programs/lockup/src/calculator.rs:60-65 | Inside the window, vested never exceeds the exact continuous linear share `start_balance * (t - start_ts) / (end_ts - start_ts)`. |
| CalculatorProperties.NeverAboveSingleRounding | programs/lockup/src/calculator.rs:56-65 | Inside the window, rounding the period index first never gives more than one floor of the exact linear share, `floor(start_balance * (t - start_ts) / (end_ts - start_ts))`. |
| CalculatorProperties.LagBelowOnePeriod | programs/lockup/src/calculator.rs:56-65 | Vested trails that continuous share by less than one period's reward plus one token. |
| CalculatorProperties.AvailableMonotone | programs/lockup/src/calculator.rs:5-7 | For an unchanged record, once the withdrawable amount is defined it stays defined later and never decreases. |
| CalculatorProperties.NothingAvailableBeforeStart | programs/lockup/src/calculator.rs:19-37 | Before the start, the withdrawable amount is defined exactly for a consistent record with nothing withdrawn, and it is then 0. |
| CalculatorProperties.FullyVestedReleasesVault | programs/lockup/src/calculator.rs:5-39 | From the end of the window on, a consistent record may withdraw its whole vault balance. |
| CalculatorProperties.WithdrawWithinSchedule | programs/lockup/src/calculator.rs:5-31 | Withdrawing any part `a` of the offered amount leaves a consistent record whose withdrawn total is within the schedule. The new offer is smaller by exactly `a`. |
| CalculatorTests.RunTest | programs/lockup/src/calculator.rs:148-156 | The driver reports no failure exactly when every case matches the function under test. Otherwise it reports the first mismatching case, and every earlier case matched. The program passes `total_vested(&v, ·)`, which `RunProgramTests` passes as `VestedAt(v)`. |
| CalculatorTests.EvenWindow | programs/lockup/src/calculator.rs:73-97 | Grant 5 over [10, 20) in 2 periods: 0 up to t=14, 2 from t=15, 5 from t=20, at every tabulated timestamp. |
| CalculatorTests.UnevenWindow | programs/lockup/src/calculator.rs:99-122 | Grant 5 over [10, 21) in 2 periods: 0 up to t=15, 2 from t=16, 5 from t=21. |
| CalculatorTests.CumulativeRemainder | programs/lockup/src/calculator.rs:124-146 | Grant 100 over [30, 41) in 6 periods: 16, 33, 50, 66, 83 at t=32, 34, 36, 38, 40, and 100 at t=41. |
| CalculatorTests.RoundingOrderMatters | programs/lockup/src/calculator.rs:130-134 | At t=32 of the last schedule, the vested amount (16) is strictly below the single rounding of the exact linear share (18). The program's order of roundings is therefore observable. |
| CalculatorTests.RunProgramTests | programs/lockup/src/calculator.rs:77-146 | Each of the three tests, run through the driver on `TotalVested` of its record, reports no failing case. |

## Left out

- The floating-point arithmetic of `linear_unlock` (lines 48-65) is replaced by exact integer floor division in the same two-step order. The `f64` original can diverge from it in three ways. Timestamps, balances or their products beyond 2^53 are rounded. Quotients that land just below an integer can be floored one step off. Two distinct timestamps that round to the same `f64` give a zero-length window. None of these cases is modelled.
- `i64` subtraction and the `u64` saturation of `as u64` are not modelled as such. The program performs the subtraction in `f64`, and every exact result of the model already fits in `u64`.
- Calculator.LinearUnlock: requires `start_ts <= t < end_ts`. These are the assumptions the source states for `linear_unlock` (lines 45 and 57), and `total_vested` is its only caller and guarantees them.
- The fields of the vesting account that the calculator never reads are not modelled: `beneficiary`, `mint`, `vault`, `grantor`, `created_ts`, `nonce` and `realizor` (lines 164-178), along with `Pubkey`. The account type's own definition is not part of this model.
- The test harness's printing and account construction (lines 152 and 158-179) are left out. `TestVesting` builds the same six fields, and the expected-value tables are kept.
- Panics are not modelled as process aborts. A failed `.unwrap()` is a `None` result.
- The program never mutates the record, so withdrawals and whitelist transfers are outside the calculator. `WithdrawWithinSchedule` only states what the offered amount guarantees to a caller that performs one.
