/**
 The part of a lockup vesting account that the unlock-schedule calculator
 reads. The fields `beneficiary`, `mint`, `vault`, `grantor`, `created_ts`,
 `nonce` and `realizor` are never read by the calculator and are not part of
 this record.
 */
module Lockup {
  import opened Numeric

  datatype Vesting = Vesting(
    startBalance: U64,    // tokens granted when the account was created
    outstanding: U64,     // tokens still held for the beneficiary
    whitelistOwned: U64,  // part of `outstanding` lent to whitelisted programs
    startTs: I64,         // vesting begins (Unix seconds)
    endTs: I64,           // everything is vested from here on
    periodCount: U64      // number of equal unlock steps between the two
  )

  /** The bookkeeping the surrounding program keeps: nothing is withdrawn
      beyond the grant, and nothing is lent beyond what is held. */
  predicate Consistent(v: Vesting) {
    v.outstanding <= v.startBalance && v.whitelistOwned <= v.outstanding
  }
}
