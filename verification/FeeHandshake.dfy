/** The fee agreed between four separately written parties: the relayer's quote, the client's check, the
  relayer's submission check, and the program's split and routing. */
module FeeHandshake {
  import opened Field
  import RelayerFees
  import ClientFees
  import opened ProgramFees
  import opened ProgramErrors

  /** Apart from expiry, the client accepts every quote the relayer issues for a pool the program
    created. */
  lemma IssuedQuotesValidate(denomination: U64, freshMinimum: nat, priorityPerCU: nat, rent: nat, issued: int, now: int)
    requires DenominationAccepted(denomination, freshMinimum)
    requires RelayerFees.FeeQuote(denomination, priorityPerCU, rent, issued).Some?
    ensures var q := RelayerFees.FeeQuote(denomination, priorityPerCU, rent, issued).value;
      var claimed := Some(q.estimatedUserReceives);
      var check := ClientFees.ValidateFeeQuote(denomination, q.relayerFeeMax, q.validUntil, claimed, None, now);
      && (check.Valid? <==> now < issued + 30_000)
      && (check.Valid? ==> check.breakdown.userReceivesMin >= freshMinimum)
      && (!check.Valid? ==> check.Expired?)
      && RelayerFees.RelayerCost(priorityPerCU, rent) <= q.relayerFeeMax <= denomination / 50
  {}

  /** A client that accepts a ceiling without a cap of its own proves against one the program accepts. */
  lemma ValidatedCeilingIsAccepted(denomination: U64, feeMax: int, validUntil: int, claimed: Option<int>, now: int,
                                   taken: U64)
    requires ClientFees.ValidateFeeQuote(denomination, feeMax, validUntil, claimed, None, now).Valid?
    requires taken <= feeMax
    ensures 0 <= feeMax <= U64_MAX && ComputeFeeSplit(denomination, taken, feeMax).Ok?
    ensures ComputeFeeSplit(denomination, taken, feeMax).value.userAmount
         >= ClientFees.ValidateFeeQuote(denomination, feeMax, validUntil, claimed, None, now).breakdown.userReceivesMin
  {}

  /** End to end: if rent has not risen since the quote, the quoted ceiling passes the submit route
    whatever the network asks for by then, the planned fee is accepted on-chain without a subsidy, and
    after routing the user receives at least the floor that was shown. */
  lemma QuotedWithdrawalHonoursFloor(denomination: U64, freshMinimum: nat, quotedPrice: nat, quotedRent: nat,
                                     issued: int,
                                     rent: nat, price: nat, treasuryBalance: nat, minimum: nat, treasuryIsPayee: bool)
    requires DenominationAccepted(denomination, freshMinimum)
    requires RelayerFees.FeeQuote(denomination, quotedPrice, quotedRent, issued).Some?
    requires rent <= quotedRent
    ensures var q := RelayerFees.FeeQuote(denomination, quotedPrice, quotedRent, issued).value;
      && 0 <= q.relayerFeeMax <= U64_MAX
      && var submitted := RelayerFees.CheckSubmission(denomination, q.relayerFeeMax, rent, price);
      && submitted.Accepted?
      && submitted.plan.actualFee == RelayerFees.Spent(submitted.plan, rent)
      && submitted.plan.actualFee == RelayerFees.Min(q.relayerFeeMax, RelayerFees.RelayerCost(price, rent))
      && var split := ComputeFeeSplit(denomination, submitted.plan.actualFee, q.relayerFeeMax);
      && split.Ok?
      && var shares := split.value;
      var routed := RouteTreasuryFee(shares.treasuryFee, shares.userAmount, treasuryBalance, minimum, treasuryIsPayee);
      && (treasuryBalance + split.value.treasuryFee <= U64_MAX ==> routed.Ok?)
      && (routed.Ok? ==> routed.value.1 >= q.estimatedUserReceives >= freshMinimum)
      && (routed.Ok? ==> routed.value.1 >= denomination - denomination / 500 - RelayerFees.RelayerCost(price, rent))
  {
    var q := RelayerFees.FeeQuote(denomination, quotedPrice, quotedRent, issued).value;
    IssuedQuotesValidate(denomination, freshMinimum, quotedPrice, quotedRent, issued, issued);
    RelayerFees.PlanChargesWhatItSpends(q.relayerFeeMax, rent, price);
    var taken := RelayerFees.PlanFee(q.relayerFeeMax, rent, price).actualFee;
    AcceptedDenominationsStayPayable(denomination, freshMinimum, taken, q.relayerFeeMax, treasuryBalance, minimum,
                                     treasuryIsPayee);
  }
}
