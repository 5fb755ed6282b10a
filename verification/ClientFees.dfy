/** The client library's check of a relayer's quote. */
module ClientFees {
  import opened Field
  import opened RelayerFees

  const MAX_RELAYER_FEE_DIVISOR: nat := 50

  datatype Breakdown = Breakdown(treasuryFee: int, relayerFeeMax: int, userReceivesMin: int)

  datatype QuoteCheck =
    | Valid(breakdown: Breakdown)
    | Expired | Negative | DenominationTooLow | AboveCap | NothingLeft | Inconsistent

  /** Every figure is computed from the denomination; the relayer's own estimate is only cross-checked.
    `claimed` is absent when the relayer sent no estimate. */
  function ValidateFeeQuote(denomination: nat, relayerFeeMax: int, validUntil: int, claimed: Option<int>,
                            cap: Option<int>, now: int): QuoteCheck
  {
    if validUntil <= now then Expired
    else if relayerFeeMax < 0 then Negative
    else if denomination < 500 then DenominationTooLow
    else
      var treasuryFee := denomination / 500;
      var limit := if cap.Some? then cap.value else denomination / MAX_RELAYER_FEE_DIVISOR;
      if relayerFeeMax > limit then AboveCap
      else
        var userReceivesMin := denomination - treasuryFee - relayerFeeMax;
        if userReceivesMin <= 0 then NothingLeft
        else if claimed.Some? && claimed.value != userReceivesMin then Inconsistent
        else Valid(Breakdown(treasuryFee, relayerFeeMax, userReceivesMin))
  }

  /** A quote is accepted exactly when the denomination is one the protocol has, the quote is unexpired, its
    ceiling is non-negative, within the cap and leaves the user something, and the relayer's own estimate,
    if it sent one, agrees. The figures shown make up the denomination, whatever the relayer claimed, and
    without a cap of the caller's own something is always left. */
  lemma AcceptedQuotes(denomination: nat, relayerFeeMax: int, validUntil: int, claimed: Option<int>, cap: Option<int>,
                       now: int)
    ensures var check := ValidateFeeQuote(denomination, relayerFeeMax, validUntil, claimed, cap, now);
      var limit := if cap.Some? then cap.value else denomination / MAX_RELAYER_FEE_DIVISOR;
      var left := denomination - denomination / 500 - relayerFeeMax;
      && (check.Valid? <==>
            && denomination >= 500 && now < validUntil && 0 <= relayerFeeMax <= limit && left > 0
            && (claimed.None? || claimed.value == left))
      && (check.DenominationTooLow? <==> denomination < 500 && now < validUntil && 0 <= relayerFeeMax)
      && (check.Valid? ==>
            && var shown := check.breakdown;
            shown.treasuryFee + shown.relayerFeeMax + shown.userReceivesMin == denomination
            && check.breakdown.relayerFeeMax == relayerFeeMax
            && 500 * check.breakdown.treasuryFee <= denomination < 500 * (check.breakdown.treasuryFee + 1))
      && (check.Expired? <==> validUntil <= now)
      && (check.Negative? ==> relayerFeeMax < 0)
      && (check.AboveCap? ==> relayerFeeMax > limit)
      && (check.NothingLeft? ==> cap.Some? && left <= 0)
      && (check.Inconsistent? ==> claimed.Some? && claimed.value != left)
  {}
}
