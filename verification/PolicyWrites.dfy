/** What a policy looks like once it has been stored, and which of its caps can then be enforced. */
module PolicyWrites {
  import opened Basics
  import opened Text
  import opened Decimal
  import opened Library
  import opened Amounts
  import opened ApiKeyPolicy
  import opened ContractState
  import opened RawSigning
  import opened TemplateSigning
  import opened Transitions
  import opened ContractRuns
  import opened Emissions
  import opened SpendingRuns
  import PeriodRuns
  import Base58

  /** A policy that limits a period names one. */
  predicate HasPeriod(policy: Policy) {
    policy.maxPerPeriodNative.Some? || policy.maxTxCountPerPeriod.Some? ==> policy.periodSeconds.UnwrapOr(0) > 0
  }

  /** Normalising leaves trimmed, non-blank fields, amounts that parse, and a period for period limits. */
  lemma NormalizedForm(p: Platform, policy: Policy)
    requires Normalize(p, policy).Some?
    ensures var q := Normalize(p, policy).value;
            Trimmed(q.version) && q.version != "" && Trimmed(q.templateId) && q.templateId != "" && q.assetType != "" &&
            q.maxPerTxNative.Some? && HasPeriod(q) &&
            ValidAmountText(q.maxPerTxNative) && ValidAmountText(q.maxPerPeriodNative) && ValidAmountText(q.spentThisPeriodNative) &&
            forall d :: d in q.allowDestinations ==> Trimmed(d) && d != ""
    ensures Kept(p, policy, Normalize(p, policy).value)
  {
    hide ParseAmount, Trim, Trimmed;
    TrimIsTrimmed(policy.version);
    TrimIsTrimmed(policy.templateId);
    AmountTextKept(policy.maxPerTxNative);
    AmountTextKept(policy.maxPerPeriodNative);
    AmountTextKept(policy.spentThisPeriodNative);
    BlankDoesNotParse(policy.maxPerTxNative);
    TrimAllSpec(policy.allowDestinations);
  }

  /** A text field keeps what is left of it when trimmed, if anything. */
  ghost predicate TextKept(before: Option<string>, after: Option<string>) {
    forall t :: after == Some(t) <==> t != "" && exists u :: before == Some(u) && Trim(u) == t
  }

  /** Every field is the given one: texts and destinations trimmed, blanks and zero limits dropped, counters as they are. */
  ghost predicate Kept(p: Platform, given: Policy, stored: Policy) {
    stored.version == Trim(given.version) && stored.templateId == Trim(given.templateId) &&
    stored.assetType == p.lowercase(Trim(given.assetType)) &&
    TextKept(given.assetId, stored.assetId) && TextKept(given.maxPerTxNative, stored.maxPerTxNative) &&
    TextKept(given.maxPerPeriodNative, stored.maxPerPeriodNative) && TextKept(given.spentThisPeriodNative, stored.spentThisPeriodNative) &&
    (forall n: nat :: stored.periodSeconds == Some(n) <==> given.periodSeconds == Some(n) && n > 0) &&
    (forall n: nat :: stored.maxTxCountPerPeriod == Some(n) <==> given.maxTxCountPerPeriod == Some(n) && n > 0) &&
    (forall d :: d in stored.allowDestinations <==> d != "" && exists e :: e in given.allowDestinations && Trim(e) == d) &&
    stored.periodStartUnixSeconds == given.periodStartUnixSeconds && stored.txCountThisPeriod == given.txCountThisPeriod
  }

  /** The text writes an amount in 18 places that fits 128 bits. */
  ghost predicate Readable(text: Option<string>) {
    text.Some? ==>
      exists n: Numeral :: n.Valid() && Trim(text.value) == n.Text() && n.Places() <= 18 && n.Units(18) < U128_LIMIT
  }

  lemma ReadableIff(text: Option<string>)
    ensures ValidAmountText(text) <==> Readable(text)
  {
    hide ParseAmount, Trim, Numeral.Text, Numeral.Units, Numeral.Places, AllDigits;
    if text.Some? {
      TrimIsTrimmed(text.value);
      TenToThe18();
      if ParseAmount(Trim(text.value), 18).Some? {
        ParseAmountExact(Trim(text.value), 18, ParseAmount(Trim(text.value), 18).value);
      }
      if Readable(text) {
        var n: Numeral :| n.Valid() && Trim(text.value) == n.Text() && n.Places() <= 18 && n.Units(18) < U128_LIMIT;
        ParseAmountExact(Trim(text.value), 18, n.Units(18));
      }
    }
  }

  /** What a policy must have to be stored at all. */
  lemma NormalizesIff(p: Platform, policy: Policy)
    ensures Normalize(p, policy).Some? <==>
            Trim(policy.version) != "" && Trim(policy.templateId) != "" && p.lowercase(Trim(policy.assetType)) != "" &&
            policy.maxPerTxNative.Some? && HasPeriod(policy) &&
            Readable(policy.maxPerTxNative) && Readable(policy.maxPerPeriodNative) && Readable(policy.spentThisPeriodNative)
  {
    hide ParseAmount, Trim, ValidAmountText, Readable;
    ReadableIff(policy.maxPerTxNative);
    ReadableIff(policy.maxPerPeriodNative);
    ReadableIff(policy.spentThisPeriodNative);
  }

  lemma AmountTextKept(text: Option<string>)
    requires ValidAmountText(text)
    ensures ValidAmountText(NonBlank(text))
  {
    hide ParseAmount, Trim;
    if text.Some? {
      TrimIsTrimmed(text.value);
    }
  }

  lemma BlankDoesNotParse(text: Option<string>)
    requires ValidAmountText(text)
    ensures text.Some? ==> NonBlank(text).Some?
  {
    if text.Some? {
      TrimIsTrimmed(text.value);
    }
  }

  lemma {:induction false} TrimAllSpec(items: seq<string>)
    ensures forall d :: d in TrimAll(items) ==> Trimmed(d) && d != ""
    ensures forall d :: d in TrimAll(items) <==> d != "" && exists e :: e in items && Trim(e) == d
    ensures (forall d :: d in items ==> Trimmed(d) && d != "") ==> TrimAll(items) == items
  {
    hide Trim, Trimmed;
    if items != [] {
      TrimAllSpec(items[1..]);
      TrimIsTrimmed(items[0]);
      assert items == [items[0]] + items[1..];
    }
  }

  /** Storing a stored policy again changes nothing, if lower-casing is stable on its own results. */
  lemma NormalizeIdempotent(p: Platform, policy: Policy)
    requires Normalize(p, policy).Some?
    requires forall s: string :: p.lowercase(Trim(p.lowercase(s))) == p.lowercase(s)
    ensures Normalize(p, Normalize(p, policy).value) == Normalize(p, policy)
  {
    hide ParseAmount, Trim, Trimmed;
    var q := Normalize(p, policy).value;
    NormalizedForm(p, policy);
    TrimIsTrimmed(q.version);
    TrimIsTrimmed(q.templateId);
    TrimAllSpec(q.allowDestinations);
    NonBlankTwice(policy.assetId);
    NonBlankTwice(policy.maxPerTxNative);
    NonBlankTwice(policy.maxPerPeriodNative);
    NonBlankTwice(policy.spentThisPeriodNative);
  }

  lemma NonBlankTwice(text: Option<string>)
    ensures NonBlank(NonBlank(text)) == NonBlank(text)
  {
    if text.Some? {
      TrimIsTrimmed(text.value);
    }
  }

  /** How a unit can be written: at most its own number of places, and within its width. */
  predicate FitsMeter(meter: Meter, n: Numeral)
    requires n.Valid()
  {
    match meter
    case Lamports => n.Places() <= 9 && n.Units(9) < U64_LIMIT
    case Yocto => n.Places() <= 24 && n.Units(24) < U128_LIMIT
    case TokenUnits => n.Whole? && Canonical(n.whole) && Value(n.whole) < U128_LIMIT
  }

  /**
   A cap is validated at 18 places but enforced at the chain's own precision. It is enforced exactly
   when its numeral can be written in that unit; otherwise the enforcer treats it as absent.
   */
  lemma CapEnforcedIff(meter: Meter, text: string, n: Numeral)
    requires n.Valid() && Trim(text) == n.Text()
    ensures OptionalAmount(meter, Some(text)).Some? <==> FitsMeter(meter, n)
    ensures FitsMeter(meter, n) ==>
              OptionalAmount(meter, Some(text)) ==
              Some(match meter case Lamports => n.Units(9) case Yocto => n.Units(24) case TokenUnits => Value(n.whole))
  {
    hide ParseAmount, Trim, ParseTokenUnits, Numeral.Units;
    Scales();
    NumeralSplit(n);
    TrimIsTrimmed(text);
    match meter
    case Lamports => ParseNumeral(n.Text(), n, 9);
    case Yocto => ParseNumeral(n.Text(), n, 24);
    case TokenUnits => TokenNumeral(n);
  }

  lemma TokenNumeral(n: Numeral)
    requires n.Valid()
    ensures ParseTokenUnits(n.Text()).Some? <==> FitsMeter(TokenUnits, n)
    ensures FitsMeter(TokenUnits, n) ==> ParseTokenUnits(n.Text()) == Some(Value(n.whole))
  {
    NumeralSplit(n);
    TrimIsTrimmed(n.Text());
    if n.Whole? {
      DigitsParse(n.whole);
    } else {
      assert n.Text()[|n.whole|] == '.';
    }
  }

  /** A cap that cannot be written in its unit decides nothing: what passes would pass without it. */
  lemma UnfitCapDecidesNothing(meter: Meter, policy: Policy, n: Numeral, transfer: Transfer, now: nat)
    requires policy.maxPerTxNative.Some? && n.Valid() && Trim(policy.maxPerTxNative.value) == n.Text() && !FitsMeter(meter, n)
    ensures Enforce(meter, policy, transfer, now).Some? <==> Enforce(meter, policy.(maxPerTxNative := None), transfer, now).Some?
  {
    hide OptionalAmount, Print, Trim, FitsMeter, Numeral.Text, EqIgnoreAsciiCase;
    CapEnforcedIff(meter, policy.maxPerTxNative.value, n);
    NoAmount(meter);
  }

  /** Nor does such a period cap: the transfers that pass are those that pass without it. */
  lemma UnfitPeriodCapDecidesNothing(meter: Meter, policy: Policy, n: Numeral, transfer: Transfer, now: nat)
    requires policy.maxPerPeriodNative.Some? && n.Valid() && Trim(policy.maxPerPeriodNative.value) == n.Text() && !FitsMeter(meter, n)
    ensures Enforce(meter, policy, transfer, now).Some? <==> Enforce(meter, policy.(maxPerPeriodNative := None), transfer, now).Some?
  {
    hide OptionalAmount, Print, Trim, FitsMeter, Numeral.Text, EqIgnoreAsciiCase, Window;
    CapEnforcedIff(meter, policy.maxPerPeriodNative.value, n);
    NoAmount(meter);
  }

  /**
   A period cap that only NEAR can read is enforced there, exactly, and ignored on Solana. Without a
   count cap Solana then counts nothing either: every transfer within the other terms leaves the policy
   as it was.
   */
  lemma PeriodCapOnlyNearReads(policy: Policy, n: Numeral, transfer: Transfer, now: nat)
    requires policy.maxPerPeriodNative.Some? && n.Valid() && Trim(policy.maxPerPeriodNative.value) == n.Text()
    requires FitsMeter(Yocto, n) && !FitsMeter(Lamports, n)
    ensures PeriodCap(Yocto, policy) == Some(n.Units(24))
    ensures Enforce(Lamports, policy, transfer, now).Some? <==>
            Enforce(Lamports, policy.(maxPerPeriodNative := None), transfer, now).Some?
    ensures policy.maxTxCountPerPeriod.None? && TermsAllow(Lamports, policy, transfer) ==>
              Enforce(Lamports, policy, transfer, now) == Some(policy)
  {
    hide OptionalAmount, Print, Trim, FitsMeter, Numeral.Text, EqIgnoreAsciiCase, Window, TermsAllow, Numeral.Units;
    CapEnforcedIff(Yocto, policy.maxPerPeriodNative.value, n);
    CapEnforcedIff(Lamports, policy.maxPerPeriodNative.value, n);
    UnfitPeriodCapDecidesNothing(Lamports, policy, n, transfer, now);
  }

  lemma NoAmount(meter: Meter)
    ensures OptionalAmount(meter, None).None?
  {
  }

  /** Two caps that a write accepts: half a token, and half a lamport. */
  const HALF_A_TOKEN: Policy :=
    Policy("1", NEAR_FT, "token", Some("usdc.near"), Some("0.5"), None, None, None, [], None, None, None)

  const HALF_A_LAMPORT: Policy :=
    Policy("1", SOL_NATIVE, "native", None, Some("0.0000000005"), None, None, None, [], None, None, None)

  /** Both are stored as they are, and then admit transfers of any amount. */
  lemma SubunitCapsAdmitEverything(p: Platform, destination: string, amount: nat, now: nat)
    requires p.lowercase("token") == "token" && p.lowercase("native") == "native"
    ensures Normalize(p, HALF_A_TOKEN) == Some(HALF_A_TOKEN) && Normalize(p, HALF_A_LAMPORT) == Some(HALF_A_LAMPORT)
    ensures Enforce(TokenUnits, HALF_A_TOKEN, Transfer("usdc.near", destination, amount), now) == Some(HALF_A_TOKEN)
    ensures Enforce(Lamports, HALF_A_LAMPORT, Transfer("", destination, amount), now) == Some(HALF_A_LAMPORT)
  {
    hide OptionalAmount, Print, Trim, FitsMeter, ParseAmount, ValidAmountText;
    SubunitNumerals();
    TrimmedWords();
    NoAmount(TokenUnits);
    NoAmount(Lamports);
    CapEnforcedIff(TokenUnits, "0.5", Pointed("0", "5"));
    CapEnforcedIff(Lamports, "0.0000000005", Pointed("0", "0000000005"));
  }

  lemma TrimmedWords()
    ensures forall s :: s in {"1", NEAR_FT, SOL_NATIVE, "token", "native", "usdc.near", "0.5", "0.0000000005"} ==> Trim(s) == s
  {
    hide Trim;
    forall s | s in {"1", NEAR_FT, SOL_NATIVE, "token", "native", "usdc.near", "0.5", "0.0000000005"} ensures Trim(s) == s {
      TrimIsTrimmed(s);
    }
  }

  lemma SubunitNumerals()
    ensures var n := Pointed("0", "5"); n.Valid() && n.Text() == "0.5" && !FitsMeter(TokenUnits, n)
    ensures var n := Pointed("0", "0000000005"); n.Valid() && n.Text() == "0.0000000005" && !FitsMeter(Lamports, n)
    ensures ValidAmountText(Some("0.5")) && ValidAmountText(Some("0.0000000005")) && ValidAmountText(None)
  {
    hide Trim, ParseAmount;
    TrimmedWords();
    FractionParses("0.5", Pointed("0", "5"));
    FractionParses("0.0000000005", Pointed("0", "0000000005"));
  }

  lemma FractionParses(text: string, n: Numeral)
    requires n.Valid() && n.Pointed? && n.whole == "0" && |n.frac| <= 18 && Trim(text) == n.Text()
    ensures ParseAmount(text, 18).Some?
  {
    hide Trim, ParseAmount, Pow, Numeral.Text;
    assert Value("0") == 0 by {
      assert "0"[..0] == "";
    }
    ParseNumeral(text, n, 18);
    ValueBound(n.frac);
    PowAdd(10, |n.frac|, 18 - |n.frac|);
    PowPositive(10, 18 - |n.frac|);
    MulDistrib(Pow(10, |n.frac|), -(Value(n.frac) as int), Pow(10, 18 - |n.frac|));
    MulPositive(Pow(10, |n.frac|) - Value(n.frac), Pow(10, 18 - |n.frac|));
    TenToThe18();
  }

  // Reachable policies.

  ghost predicate AllHavePeriod(s: State) {
    forall key :: key in s.apiKeyPolicies ==> HasPeriod(s.apiKeyPolicies[key])
  }

  lemma NormalizedHasPeriod(p: Platform, policy: Policy)
    ensures Normalize(p, policy).Some? ==> HasPeriod(Normalize(p, policy).value)
  {
    hide ParseAmount, Trim;
  }

  lemma EnforcedHasPeriod(meter: Meter, policy: Policy, transfer: Transfer, now: nat)
    requires HasPeriod(policy) && Enforce(meter, policy, transfer, now).Some?
    ensures HasPeriod(Enforce(meter, policy, transfer, now).value)
  {
    hide OptionalAmount, TermsAllow, Print;
  }

  lemma WrittenHasPeriod(p: Platform, s: State, step: Step, key: string)
    requires WritesPolicy(step, key) && Apply(p, s, step.ctx, step.call).Some?
    ensures var policies := Apply(p, s, step.ctx, step.call).value.state.apiKeyPolicies;
            key in policies ==> HasPeriod(policies[key])
  {
    hide CanManagePolicy, Normalize, ComposeKey, Base58.Encode, HasPeriod, DoAddSubkey, DoSetSubkeyPaths, DoRemoveSubkey,
         DoRequestSign, CheckTemplate, EvmDigest, DoGrant, DoRevoke, DoCleanup, DoSetTemplate, DoRemoveTemplate,
         DoSetTokenCap, DoRemoveTokenCap;
    if step.call.SetSignerPolicy? || step.call.OwnerSetSignerPolicy? {
      NormalizedHasPeriod(p, step.call.policy);
    }
  }

  lemma NewPoliciesAreWritten(p: Platform, s: State, ctx: Context, call: Call, key: string)
    requires Apply(p, s, ctx, call).Some? && key !in s.apiKeyPolicies && key in Apply(p, s, ctx, call).value.state.apiKeyPolicies
    ensures WritesPolicy(External(ctx, call), key)
  {
    hide CheckMemo, Judge, Enforce, CheckTemplate, EvmDigest, Cleaned, Normalize, IsAllowed, CanManagePolicy, ValidPaths,
         Pushed, Without, Index, ComposeKey, TemplateKey, CapKey, MpcPath, Base58.Encode;
  }

  lemma NextKeepsPeriods(p: Platform, w: World, step: Step)
    requires AllHavePeriod(w.state)
    ensures AllHavePeriod(Next(p, w, step).state)
  {
    hide Apply, WritesPolicy, MeteredBy, HasPeriod, Enforce;
    var policies := Next(p, w, step).state.apiKeyPolicies;
    forall key | key in policies ensures HasPeriod(policies[key]) {
      if WritesPolicy(step, key) && Succeeds(p, w, step) {
        PolicyStepIsExternal(step, key);
        WrittenHasPeriod(p, w.state, step, key);
      } else if key in w.state.apiKeyPolicies && !WritesPolicy(step, key) {
        StepEnforces(p, w, step, key);
        var a := MeteredBy(p, w.state, step, key);
        if a.Some? {
          EnforcedHasPeriod(a.value.meter, w.state.apiKeyPolicies[key], a.value.transfer, a.value.now);
        }
      } else if key !in w.state.apiKeyPolicies {
        NewPoliciesAreWritten(p, w.state, step.ctx, step.call, key);
      }
    }
  }

  lemma PolicyStepIsExternal(step: Step, key: string)
    requires WritesPolicy(step, key)
    ensures step.External?
  {
  }

  /** In every reachable state, a policy that limits a period has one: the caps always have a window. */
  lemma {:induction false} ReachablePoliciesHavePeriod(p: Platform, owner: AccountId, mpc: AccountId, steps: seq<Step>)
    ensures AllHavePeriod(Run(p, Fresh(owner, mpc), steps).state)
  {
    hide Next, HasPeriod;
    if steps != [] {
      ReachablePoliciesHavePeriod(p, owner, mpc, steps[..|steps| - 1]);
      NextKeepsPeriods(p, Run(p, Fresh(owner, mpc), steps[..|steps| - 1]), steps[|steps| - 1]);
    }
  }

  /**
   The spending theorem from any reachable state: no matter how the policy got there and what is
   called next, its caps bound every window until the policy is written again. Only a policy for
   `sol_native_transfer_v1` leaves it open whether Solana or NEAR is metered; see SharedCounter.
   */
  lemma ReachableSpendingWithinCaps(p: Platform, owner: AccountId, mpc: AccountId, before: seq<Step>, steps: seq<Step>,
                                    key: string, meter: Meter, window: nat)
    requires var w := Run(p, Fresh(owner, mpc), before);
             key in w.state.apiKeyPolicies && Metered(meter, w.state.apiKeyPolicies[key]) &&
             if w.state.apiKeyPolicies[key].templateId == SOL_NATIVE then PeriodRuns.AllMeter(Transfers(p, w, steps, key), meter)
             else meter == OneMeter(w.state.apiKeyPolicies[key])
    requires InOrder(steps) && forall i :: 0 <= i < |steps| ==> !WritesPolicy(steps[i], key)
    ensures var w := Run(p, Fresh(owner, mpc), before);
            var policy, done := w.state.apiKeyPolicies[key], Transfers(p, w, steps, key);
            policy.periodSeconds.UnwrapOr(0) > 0 &&
            WithinCap(PeriodRuns.SumIn(done, policy.periodSeconds.value, window), PeriodCap(meter, policy)) &&
            WithinCap(PeriodRuns.CountIn(done, policy.periodSeconds.value, window), policy.maxTxCountPerPeriod)
  {
    hide Run, Transfers, WritesPolicy, ParseAmount;
    ReachablePoliciesHavePeriod(p, owner, mpc, before);
    TermsFixMeter(p, Run(p, Fresh(owner, mpc), before), steps, key);
    SpendingWithinCaps(p, Run(p, Fresh(owner, mpc), before), steps, key, meter, window);
  }

  /** The count cap from any reachable state, with nothing asked of the units: it bounds every window. */
  lemma ReachableCountWithinCap(p: Platform, owner: AccountId, mpc: AccountId, before: seq<Step>, steps: seq<Step>,
                                key: string, window: nat)
    requires var w := Run(p, Fresh(owner, mpc), before);
             key in w.state.apiKeyPolicies && w.state.apiKeyPolicies[key].maxTxCountPerPeriod.Some?
    requires InOrder(steps) && forall i :: 0 <= i < |steps| ==> !WritesPolicy(steps[i], key)
    ensures var w := Run(p, Fresh(owner, mpc), before);
            var policy := w.state.apiKeyPolicies[key];
            policy.periodSeconds.UnwrapOr(0) > 0 &&
            PeriodRuns.CountIn(Transfers(p, w, steps, key), policy.periodSeconds.value, window) <= policy.maxTxCountPerPeriod.value
  {
    hide Run, Transfers, WritesPolicy, ParseAmount;
    ReachablePoliciesHavePeriod(p, owner, mpc, before);
    SpendingCountWithinCap(p, Run(p, Fresh(owner, mpc), before), steps, key, window);
  }
}
