/**
 The program's three worked schedules, each a table of
 `(timestamp, expected total vested)` pairs checked against `TotalVested`.
 The records are built as the program's tests build them: `outstanding` and
 `whitelistOwned` are zero, as the test helper sets them; `TotalVested` never
 reads either field.
 */
module CalculatorTests {
  import opened Numeric
  import opened Lockup
  import opened Calculator
  import opened CalculatorProperties

  datatype Case = Case(t: I64, vested: U64)

  /** A test record for `startBalance` tokens over `[startTs, endTs)` in
      `periodCount` steps. */
  function TestVesting(startBalance: U64, startTs: I64, endTs: I64, periodCount: U64): Vesting {
    Vesting(startBalance, 0, 0, startTs, endTs, periodCount)
  }

  /** The schedule of `v` as a function of time: what the program's tests
      evaluate. */
  function VestedAt(v: Vesting): I64 -> U64 {
    t => TotalVested(v, t)
  }

  /** Every case of the table matches `vested`. */
  predicate Passes(vested: I64 -> U64, cases: seq<Case>) {
    forall i :: 0 <= i < |cases| ==> vested(cases[i].t) == cases[i].vested
  }

  /** The program's test driver: evaluates the cases in order and stops at
      the first mismatch, reporting its index; `None` when every case
      passes. The function under test is a parameter: the program always
      evaluates `total_vested` of its record, which `RunProgramTests` passes
      as `VestedAt(v)`. */
  method RunTest(vested: I64 -> U64, cases: seq<Case>) returns (failure: Option<nat>)
    ensures failure.None? <==> Passes(vested, cases)
    ensures failure.Some? ==> failure.value < |cases|
                              && vested(cases[failure.value].t) != cases[failure.value].vested
                              && Passes(vested, cases[..failure.value])
  {
    var i := 0;
    while i < |cases|
      invariant 0 <= i <= |cases|
      invariant Passes(vested, cases[..i])
    {
      if vested(cases[i].t) != cases[i].vested {
        return Some(i);
      }
      i := i + 1;
    }
    assert cases[..i] == cases;
    return None;
  }

  /** Window of 10 seconds in 2 periods: 2.5 tokens every 5 seconds. */
  const EvenWindowCases: seq<Case> := [
    Case(0, 0), Case(9, 0), Case(10, 0), Case(11, 0), Case(12, 0), Case(13, 0),
    Case(14, 0), Case(15, 2), Case(16, 2), Case(17, 2), Case(18, 2), Case(19, 2),
    Case(20, 5), Case(21, 5)
  ]

  /** Window of 11 seconds in 2 periods: 2.5 tokens every 5.5 seconds. */
  const UnevenWindowCases: seq<Case> := [
    Case(10, 0), Case(11, 0), Case(12, 0), Case(13, 0), Case(14, 0), Case(15, 0),
    Case(16, 2), Case(17, 2), Case(18, 2), Case(19, 2), Case(20, 2),
    Case(21, 5), Case(22, 5)
  ]

  /** Window of 11 seconds in 6 periods: about 16.67 tokens every 1.83
      seconds. The cumulative share is rounded down, so the remainder carries
      over: 16, 33, 50, 66, 83. */
  const CumulativeRemainderCases: seq<Case> := [
    Case(30, 0), Case(31, 0), Case(32, 16), Case(33, 16), Case(34, 33), Case(35, 33),
    Case(36, 50), Case(37, 50), Case(38, 66), Case(39, 66), Case(40, 83), Case(41, 100)
  ]

  lemma EvenWindow()
    ensures Passes(VestedAt(TestVesting(5, 10, 20, 2)), EvenWindowCases)
  {
    var v := TestVesting(5, 10, 20, 2);
    assert TotalVested(v, 0) == 0;
    assert TotalVested(v, 9) == 0;
    assert TotalVested(v, 10) == 0;
    assert TotalVested(v, 11) == 0;
    assert TotalVested(v, 12) == 0;
    assert TotalVested(v, 13) == 0;
    assert TotalVested(v, 14) == 0;
    assert TotalVested(v, 15) == 2;
    assert TotalVested(v, 16) == 2;
    assert TotalVested(v, 17) == 2;
    assert TotalVested(v, 18) == 2;
    assert TotalVested(v, 19) == 2;
    assert TotalVested(v, 20) == 5;
    assert TotalVested(v, 21) == 5;
  }

  lemma UnevenWindow()
    ensures Passes(VestedAt(TestVesting(5, 10, 21, 2)), UnevenWindowCases)
  {
    var v := TestVesting(5, 10, 21, 2);
    assert TotalVested(v, 10) == 0;
    assert TotalVested(v, 11) == 0;
    assert TotalVested(v, 12) == 0;
    assert TotalVested(v, 13) == 0;
    assert TotalVested(v, 14) == 0;
    assert TotalVested(v, 15) == 0;
    assert TotalVested(v, 16) == 2;
    assert TotalVested(v, 17) == 2;
    assert TotalVested(v, 18) == 2;
    assert TotalVested(v, 19) == 2;
    assert TotalVested(v, 20) == 2;
    assert TotalVested(v, 21) == 5;
    assert TotalVested(v, 22) == 5;
  }

  lemma CumulativeRemainder()
    ensures Passes(VestedAt(TestVesting(100, 30, 41, 6)), CumulativeRemainderCases)
  {
    var v := TestVesting(100, 30, 41, 6);
    assert TotalVested(v, 30) == 0;
    assert TotalVested(v, 31) == 0;
    assert TotalVested(v, 32) == 16;
    assert TotalVested(v, 33) == 16;
    assert TotalVested(v, 34) == 33;
    assert TotalVested(v, 35) == 33;
    assert TotalVested(v, 36) == 50;
    assert TotalVested(v, 37) == 50;
    assert TotalVested(v, 38) == 66;
    assert TotalVested(v, 39) == 66;
    assert TotalVested(v, 40) == 83;
    assert TotalVested(v, 41) == 100;
  }

  /** The order of the two roundings matters: flooring the period index
      first, as the program does, gives 16 at `t = 32` in the last schedule,
      strictly less than a single rounding of the exact linear share (18). */
  lemma RoundingOrderMatters()
    ensures TotalVested(TestVesting(100, 30, 41, 6), 32) < SingleRounding(TestVesting(100, 30, 41, 6), 32)
  {
    assert TotalVested(TestVesting(100, 30, 41, 6), 32) == 16;
    assert SingleRounding(TestVesting(100, 30, 41, 6), 32) == 18;
  }

  /** The program's three tests, each run through the driver on the schedule
      of its record: none reports a failing case. */
  method RunProgramTests() returns (even: Option<nat>, uneven: Option<nat>, remainder: Option<nat>)
    ensures even == None && uneven == None && remainder == None
  {
    even := RunTest(VestedAt(TestVesting(5, 10, 20, 2)), EvenWindowCases);
    EvenWindow();
    uneven := RunTest(VestedAt(TestVesting(5, 10, 21, 2)), UnevenWindowCases);
    UnevenWindow();
    remainder := RunTest(VestedAt(TestVesting(100, 30, 41, 6)), CumulativeRemainderCases);
    CumulativeRemainder();
  }
}
