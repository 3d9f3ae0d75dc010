/** The persisted spending policy of one subkey, and what one enforcement does to it. */
module ApiKeyPolicy {
  import opened Basics
  import opened Text
  import opened Decimal
  import opened Amounts

  /** `ApiKeyPolicyV1`. */
  datatype Policy = Policy(
    version: string,
    templateId: string,
    assetType: string,
    assetId: Option<string>,
    maxPerTxNative: Option<string>,
    maxPerPeriodNative: Option<string>,
    periodSeconds: Option<nat>,
    maxTxCountPerPeriod: Option<nat>,
    allowDestinations: seq<string>,
    periodStartUnixSeconds: Option<nat>,
    spentThisPeriodNative: Option<string>,
    txCountThisPeriod: Option<nat>)

  /** What a parsed payload moves. `ftContract` matters to NEP-141 transfers only. */
  datatype Transfer = Transfer(ftContract: string, destination: string, amount: nat)

  function Window(now: nat, period: nat): nat
    requires period > 0
  {
    now - now % period
  }

  /** The checks that look at the policy's fixed terms only. */
  predicate TermsAllow(meter: Meter, policy: Policy, transfer: Transfer) {
    (meter.TokenUnits? ==>
       EqIgnoreAsciiCase(Trim(policy.assetType), "token") && policy.assetId.Some? &&
       EqIgnoreAsciiCase(Trim(policy.assetId.value), transfer.ftContract)) &&
    (policy.allowDestinations == [] || transfer.destination in policy.allowDestinations) &&
    (var cap := OptionalAmount(meter, policy.maxPerTxNative); cap.Some? ==> transfer.amount <= cap.value)
  }

  function PeriodCap(meter: Meter, policy: Policy): Option<nat> {
    OptionalAmount(meter, policy.maxPerPeriodNative)
  }

  /** Without a readable period cap and without a count cap the counters are left alone. */
  predicate Metered(meter: Meter, policy: Policy) {
    PeriodCap(meter, policy).Some? || policy.maxTxCountPerPeriod.Some?
  }

  function StartPeriod(policy: Policy, window: nat): Policy {
    if policy.periodStartUnixSeconds == Some(window) then policy
    else policy.(periodStartUnixSeconds := Some(window), spentThisPeriodNative := Some("0"), txCountThisPeriod := Some(0))
  }

  predicate WithinCap(n: nat, cap: Option<nat>) {
    cap.Some? ==> n <= cap.value
  }

  /** Counts one more transfer in the given window, unless a counter would overflow or pass its cap. */
  function Charge(meter: Meter, policy: Policy, amount: nat, window: nat): Option<Policy> {
    var p := StartPeriod(policy, window);
    var spent :- Checked(OptionalAmount(meter, p.spentThisPeriodNative).UnwrapOr(0) + amount, Limit(meter));
    var count :- Checked(p.txCountThisPeriod.UnwrapOr(0) + 1, U64_LIMIT);
    if WithinCap(spent, PeriodCap(meter, policy)) && WithinCap(count, policy.maxTxCountPerPeriod)
    then Some(p.(spentThisPeriodNative := Some(Print(meter, spent)), txCountThisPeriod := Some(count)))
    else None
  }

  /**
   `enforce_persisted_api_key_policy`, `..._near` and `..._near_ft`, which differ in the meter and,
   for NEP-141, in two extra checks. None is a panic; otherwise the policy as stored afterwards.
   */
  function Enforce(meter: Meter, policy: Policy, transfer: Transfer, now: nat): Option<Policy> {
    if !TermsAllow(meter, policy, transfer) then None
    else if !Metered(meter, policy) then Some(policy)
    else if policy.periodSeconds.UnwrapOr(0) == 0 then None
    else Charge(meter, policy, transfer.amount, Window(now, policy.periodSeconds.value))
  }
}
