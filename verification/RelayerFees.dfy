/** The relayer's fee planning and the fee checks of its two routes. Amounts are exact integers:
  lamports, and micro-lamports per compute unit. */
module RelayerFees {
  import opened Field

  const BASE_FEE: nat := 5_000
  const COMPUTE_UNITS: nat := 200_000
  const MICRO_LAMPORTS_PER_LAMPORT: nat := 1_000_000

  function CeilDiv(a: nat, b: nat): nat
    requires b > 0
  {
    (a + b - 1) / b
  }

  function PriorityFeeLamports(perCU: nat): nat {
    CeilDiv(perCU * COMPUTE_UNITS, MICRO_LAMPORTS_PER_LAMPORT)
  }

  function PriorityPerCUFromLamports(lamports: int): nat {
    if lamports <= 0 then 0 else lamports * MICRO_LAMPORTS_PER_LAMPORT / COMPUTE_UNITS
  }

  /** The two conversions are adjoint: a price costs at most a budget exactly when it is at most the
    price that budget buys. */
  lemma PriceFitsBudget(perCU: nat, lamports: nat)
    ensures PriorityFeeLamports(perCU) <= lamports <==> perCU <= PriorityPerCUFromLamports(lamports)
  {
    assert PriorityPerCUFromLamports(lamports) == 5 * lamports;
  }

  /** A price costs its lamports rounded up, five units of price to the lamport, and lamports buy five units each. */
  lemma PriceUnits(perCU: nat, lamports: nat)
    ensures 5 * PriorityFeeLamports(perCU) - 5 < perCU <= 5 * PriorityFeeLamports(perCU)
    ensures PriorityPerCUFromLamports(lamports) == 5 * lamports
    ensures PriorityFeeLamports(5 * lamports) == lamports
  {}

  datatype Plan = Plan(appliedPriorityPerCU: nat, actualFee: nat, degraded: bool, shortfall: nat, subsidy: nat)

  function Max(a: int, b: int): int { if a < b then b else a }
  function Min(a: int, b: int): int { if a < b then a else b }

  function PlanFee(feeMax: nat, rent: nat, estimatedPriorityPerCU: nat): Plan {
    var deterministic := BASE_FEE + rent;
    var wanted := PriorityFeeLamports(estimatedPriorityPerCU);
    var affordable := Max(0, feeMax - deterministic);
    var applied := PriorityPerCUFromLamports(Min(wanted, affordable));
    var spent := deterministic + PriorityFeeLamports(applied);
    var charged := if spent < feeMax then spent else feeMax;
    Plan(applied, charged, wanted > affordable, Max(0, wanted - affordable), Max(0, spent - charged))
  }

  /** What the relayer pays to land the planned transaction. */
  function Spent(plan: Plan, rent: nat): nat {
    BASE_FEE + rent + PriorityFeeLamports(plan.appliedPriorityPerCU)
  }

  /** The plan charges exactly what it spends, within the ceiling, if and only if the ceiling covers the
    signature fee and the rent; and then it charges what the estimate needs or the ceiling, whichever is
    less. It never pays for more priority than estimated. An undegraded plan pays at least the estimated
    price, a degraded one the most the ceiling can buy; the shortfall is what the estimate needs beyond. */
  lemma PlanChargesWhatItSpends(feeMax: nat, rent: nat, estimated: nat)
    ensures var plan, fixed := PlanFee(feeMax, rent, estimated), 5_000 + rent;
      && plan.actualFee + plan.subsidy == Spent(plan, rent)
      && plan.actualFee <= feeMax
      && (plan.subsidy == 0 <==> feeMax >= fixed)
      && (feeMax >= fixed ==> plan.actualFee == Min(feeMax, RelayerCost(estimated, rent)))
      && PriorityFeeLamports(plan.appliedPriorityPerCU) <= PriorityFeeLamports(estimated)
      && (plan.degraded <==> RelayerCost(estimated, rent) > Max(feeMax, fixed))
      && plan.shortfall == Max(0, RelayerCost(estimated, rent) - Max(feeMax, fixed))
      && (!plan.degraded ==> estimated <= plan.appliedPriorityPerCU < estimated + 5)
      && (plan.degraded && feeMax >= fixed ==>
            forall p: nat :: fixed + PriorityFeeLamports(p) <= feeMax ==> p <= plan.appliedPriorityPerCU)
  {
    var plan := PlanFee(feeMax, rent, estimated);
    var wanted, affordable := PriorityFeeLamports(estimated), Max(0, feeMax - (BASE_FEE + rent));
    var applied := Min(wanted, affordable);
    PriceUnits(estimated, applied);
    if plan.degraded && feeMax >= BASE_FEE + rent {
      forall p: nat | BASE_FEE + rent + PriorityFeeLamports(p) <= feeMax
        ensures p <= plan.appliedPriorityPerCU
      {
        PriceFitsBudget(p, affordable);
      }
    }
  }

  /** The relayer's cost: the signature fee, the rent, and the least lamports that cover the price. */
  lemma CostCoversPrice(priorityPerCU: nat, rent: nat)
    ensures var priority := RelayerCost(priorityPerCU, rent) - 5_000 - rent;
      5 * priority - 5 < priorityPerCU <= 5 * priority
  {
    PriceUnits(priorityPerCU, 0);
  }

  // ---------------------------------------------------------------- GET /fee_quote

  datatype Quote = Quote(relayerFeeMax: int, validUntil: int, estimatedUserReceives: int)

  function RelayerCost(priorityPerCU: nat, rent: nat): nat {
    BASE_FEE + PriorityFeeLamports(priorityPerCU) + rent
  }

  /** Cost plus a 50% margin, rounded up. */
  function FeeMaxFromCost(cost: nat): nat { CeilDiv(cost * 3, 2) }

  function ComputeMinUserReceives(denomination: nat, relayerFeeMax: nat): int {
    denomination - denomination / 500 - relayerFeeMax
  }

  /** The quote route: refuses when the bare cost is above the on-chain cap, otherwise quotes the cost
    with its margin, clipped to the cap, for thirty seconds. */
  function FeeQuote(denomination: U64, priorityPerCU: nat, rent: nat, now: int): Option<Quote> {
    var cost := RelayerCost(priorityPerCU, rent);
    var onChainCap := denomination / 50;
    if cost > onChainCap then None
    else
      var withMargin := FeeMaxFromCost(cost);
      var relayerFeeMax := if withMargin <= onChainCap then withMargin else onChainCap;
      Some(Quote(relayerFeeMax, now + 30_000, ComputeMinUserReceives(denomination, relayerFeeMax)))
  }

  // ---------------------------------------------------------------- POST /submit_proof

  datatype Submission =
    | RelayerFeeMaxTooHigh(cap: nat)
    | RelayerFeeBelowCost(minimum: nat)
    | Accepted(plan: Plan)

  /** The submit route's fee checks: cap, floor, plan, and a last refusal of any subsidy. */
  function CheckSubmission(denomination: U64, feeMax: U64, rent: nat, estimatedPriorityPerCU: nat): Submission {
    var onChainCap := denomination / 50;
    if feeMax > onChainCap then RelayerFeeMaxTooHigh(onChainCap)
    else
      var minimum := BASE_FEE + rent;
      if feeMax < minimum then RelayerFeeBelowCost(minimum)
      else
        var plan := PlanFee(feeMax, rent, estimatedPriorityPerCU);
        if plan.subsidy > 0 then RelayerFeeBelowCost(minimum) else Accepted(plan)
  }

  /** A submission is accepted exactly when its ceiling lies between the relayer's fixed cost and the on-chain
    cap, so the refusal of a subsidy after planning never happens; and an accepted one is charged what it
    costs. */
  lemma SubmissionsAccepted(denomination: U64, feeMax: U64, rent: nat, estimatedPriorityPerCU: nat)
    ensures var submitted := CheckSubmission(denomination, feeMax, rent, estimatedPriorityPerCU);
      && (submitted.Accepted? <==> BASE_FEE + rent <= feeMax <= denomination / 50)
      && (submitted.RelayerFeeBelowCost? <==> feeMax <= denomination / 50 && feeMax < BASE_FEE + rent)
      && (submitted.RelayerFeeMaxTooHigh? <==> feeMax > denomination / 50)
      && (submitted.RelayerFeeMaxTooHigh? ==> submitted.cap == denomination / 50)
      && (submitted.RelayerFeeBelowCost? ==> submitted.minimum == 5_000 + rent)
      && (submitted.Accepted? ==>
            && submitted.plan.subsidy == 0 && submitted.plan.actualFee == Spent(submitted.plan, rent)
            && submitted.plan.actualFee == Min(feeMax, RelayerCost(estimatedPriorityPerCU, rent)))
  {
    PlanChargesWhatItSpends(feeMax, rent, estimatedPriorityPerCU);
  }

  /** What a quote promises: it is issued exactly when the cost fits the on-chain cap; its ceiling covers the
    cost, is within the cap, leaves half the cost again as margin unless the cap clips it, and is not a
    lamport more than that; and the estimate completes the denomination. */
  lemma QuoteCoversCost(denomination: U64, priorityPerCU: nat, rent: nat, now: int)
    ensures var quote := FeeQuote(denomination, priorityPerCU, rent, now);
      var cost, cap := RelayerCost(priorityPerCU, rent), denomination / 50;
      && (quote.Some? <==> cost <= cap)
      && (quote.Some? ==>
            var ceiling := quote.value.relayerFeeMax;
            && cost <= ceiling <= cap
            && (ceiling == cap || 2 * ceiling >= 3 * cost) && 2 * (ceiling - 1) < 3 * cost
            && ceiling + quote.value.estimatedUserReceives + denomination / 500 == denomination)
  {}
}
