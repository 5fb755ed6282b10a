/** The program's fee arithmetic. */
module ProgramFees {
  import opened Field
  import opened ProgramErrors

  const MAX_RELAYER_FEE_DIVISOR: nat := 50
  const TREASURY_FEE_DIVISOR: nat := 500

  datatype Split = Split(treasuryFee: nat, relayerFee: nat, userAmount: nat)

  /** The split is accepted exactly when the taken fee is within a ceiling of at most 2% of a non-zero
    denomination; the subtractions then cannot underflow and the three shares make up the denomination. */
  function ComputeFeeSplit(denomination: U64, taken: U64, max: U64): (r: Result<Split>)
    ensures r.Ok? <==> taken <= max <= denomination / MAX_RELAYER_FEE_DIVISOR && denomination > 0
    ensures r.Ok? ==> r.value.treasuryFee + taken + r.value.userAmount == denomination && r.value.relayerFee == taken
    ensures r.Ok? ==> r.value.userAmount > 0
    ensures r.Ok? ==>
      r.value.treasuryFee * TREASURY_FEE_DIVISOR <= denomination < (r.value.treasuryFee + 1) * TREASURY_FEE_DIVISOR
    ensures r.Err? && taken > max ==> r.error == RelayerFeeExceedsMax
    ensures r.Err? && taken <= max && max > denomination / MAX_RELAYER_FEE_DIVISOR ==> r.error == RelayerFeeMaxTooHigh
    ensures r.Err? && taken <= max <= denomination / MAX_RELAYER_FEE_DIVISOR ==> r.error == UserAmountZero
  {
    if taken > max then Err(RelayerFeeExceedsMax)
    else if max > denomination / MAX_RELAYER_FEE_DIVISOR then Err(RelayerFeeMaxTooHigh)
    else
      var treasuryFee := denomination / TREASURY_FEE_DIVISOR;
      if denomination < treasuryFee || denomination - treasuryFee < taken then Err(ArithmeticOverflow)
      else
        var userAmount := denomination - treasuryFee - taken;
        if userAmount == 0 then Err(UserAmountZero) else Ok(Split(treasuryFee, taken, userAmount))
  }

  /** Both fees at their maximum; the subtractions never underflow. */
  function WorstCaseUserAmount(denomination: U64): (r: Option<int>)
    ensures r.Some? && 0 <= r.value <= denomination
    ensures 1000 * r.value >= 978 * denomination
  {
    var treasuryFee := denomination / TREASURY_FEE_DIVISOR;
    if denomination < treasuryFee then None
    else if denomination - treasuryFee < denomination / MAX_RELAYER_FEE_DIVISOR then None
    else Some(denomination - treasuryFee - denomination / MAX_RELAYER_FEE_DIVISOR)
  }

  /** The treasury's share after routing, and the recipient's. `minimum` is the rent-exempt minimum of
    the treasury account. Routing preserves the total; a treasury that is not also a payee is either
    left untouched or ends rent-exempt, whatever it held. */
  function RouteTreasuryFee(treasuryFee: U64, userAmount: U64, treasuryBalance: nat, minimum: nat,
                            treasuryIsPayee: bool)
    : (r: Result<(nat, nat)>)
    ensures r.Ok? ==> r.value.0 + r.value.1 == treasuryFee + userAmount
    ensures r.Ok? ==> r.value.1 >= userAmount && r.value.0 <= treasuryFee
    ensures r.Ok? && !treasuryIsPayee ==> r.value.0 == 0 || treasuryBalance + r.value.0 >= minimum
    ensures r.Ok? && (treasuryIsPayee || treasuryBalance + treasuryFee >= minimum) ==> r.value.0 == treasuryFee
    ensures r.Err? <==>
      || treasuryBalance + treasuryFee > U64_MAX
      || (!treasuryIsPayee && treasuryFee > 0
          && treasuryBalance + treasuryFee < minimum && userAmount + treasuryFee > U64_MAX)
  {
    var after := treasuryBalance + treasuryFee;
    if after > U64_MAX then Err(ArithmeticOverflow)
    else
      var staysValid := treasuryFee == 0 || after >= minimum;
      if treasuryIsPayee || staysValid then Ok((treasuryFee, userAmount))
      else if userAmount + treasuryFee > U64_MAX then Err(ArithmeticOverflow)
      else Ok((0, userAmount + treasuryFee))
  }

  /** The denominations `initialize_pool` accepts, given the rent minimum of an account with no data. */
  predicate DenominationAccepted(denomination: U64, freshMinimum: nat) {
    denomination >= 500 && WorstCaseUserAmount(denomination).value >= freshMinimum
  }

  /** Exactly which denominations are accepted. */
  lemma DenominationsAccepted(denomination: U64, freshMinimum: nat)
    ensures DenominationAccepted(denomination, freshMinimum) <==>
      denomination >= 500 && denomination - denomination / 500 - denomination / 50 >= freshMinimum
  {}

  /** Accepted denominations stay payable: whatever fee the split accepts and however the treasury's
    share is routed, a fresh recipient is paid at least its rent minimum. */
  lemma AcceptedDenominationsStayPayable(denomination: U64, freshMinimum: nat, taken: U64, max: U64,
                                         treasuryBalance: nat, minimum: nat, treasuryIsPayee: bool)
    requires DenominationAccepted(denomination, freshMinimum)
    requires ComputeFeeSplit(denomination, taken, max).Ok?
    ensures var s := ComputeFeeSplit(denomination, taken, max).value;
      var routed := RouteTreasuryFee(s.treasuryFee, s.userAmount, treasuryBalance, minimum, treasuryIsPayee);
      routed.Ok? ==>
        && routed.value.1 >= s.userAmount >= freshMinimum
        && routed.value.0 + taken + routed.value.1 == denomination
  {
    assert taken <= denomination / MAX_RELAYER_FEE_DIVISOR;
  }
}
