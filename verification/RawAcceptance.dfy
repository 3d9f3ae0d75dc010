/** Exactly which raw payloads pass a stored policy, in terms of their wire format and the counters. */
module RawAcceptance {
  import opened Basics
  import opened Text
  import opened Library
  import opened Amounts
  import opened ApiKeyPolicy
  import opened ContractState
  import opened RawSigning
  import opened Transitions
  import PeriodRuns
  import SolanaPayload
  import NearPayload
  import Base58

  /** The policy's fixed terms: its token, its destinations, and the amount that its per-transfer cap writes. */
  ghost predicate MeetsTerms(meter: Meter, policy: Policy, transfer: Transfer) {
    (meter.TokenUnits? ==>
       EqIgnoreAsciiCase(Trim(policy.assetType), "token") && policy.assetId.Some? &&
       EqIgnoreAsciiCase(Trim(policy.assetId.value), transfer.ftContract)) &&
    (policy.allowDestinations == [] || transfer.destination in policy.allowDestinations) &&
    (policy.maxPerTxNative.Some? ==> forall cap: nat | Writes(meter, policy.maxPerTxNative.value, cap) :: transfer.amount <= cap)
  }

  lemma TermsIff(meter: Meter, policy: Policy, transfer: Transfer)
    ensures TermsAllow(meter, policy, transfer) <==> MeetsTerms(meter, policy, transfer)
  {
    hide OptionalAmount, Writes, Trim, EqIgnoreAsciiCase;
    forall cap: nat ensures OptionalAmount(meter, policy.maxPerTxNative) == Some(cap) <==>
                       policy.maxPerTxNative.Some? && Writes(meter, policy.maxPerTxNative.value, cap)
    {
      OptionalAmountReads(meter, policy.maxPerTxNative, cap);
    }
    var cap := OptionalAmount(meter, policy.maxPerTxNative);
    assert cap.Some? ==> Writes(meter, policy.maxPerTxNative.value, cap.value);
  }

  /** The transfer meets the policy's fixed terms, and the counters have room for it in the current window. */
  ghost predicate Admits(meter: Meter, policy: Policy, transfer: Transfer, now: nat) {
    MeetsTerms(meter, policy, transfer) &&
    (Metered(meter, policy) ==>
       policy.periodSeconds.UnwrapOr(0) > 0 &&
       forall window: nat | PeriodRuns.During(now, policy.periodSeconds.value, window) ::
         PeriodRuns.CounterAllows(meter, policy, PeriodRuns.Add(PeriodRuns.Abstract(meter, policy), window, transfer.amount)))
  }

  /** An enforcer accepts exactly the transfers its policy admits. */
  lemma EnforcedIff(meter: Meter, policy: Policy, transfer: Transfer, now: nat)
    ensures Enforce(meter, policy, transfer, now).Some? <==> Admits(meter, policy, transfer, now)
  {
    hide OptionalAmount, Print, TermsAllow, MeetsTerms, ApiKeyPolicy.Charge, Window, PeriodRuns.During;
    TermsIff(meter, policy, transfer);
    if Metered(meter, policy) && policy.periodSeconds.UnwrapOr(0) > 0 {
      PeriodRuns.EnforceRefinesCounter(meter, policy, transfer, now);
      forall window: nat ensures PeriodRuns.During(now, policy.periodSeconds.value, window) <==> window == Window(now, policy.periodSeconds.value) {
        PeriodRuns.WindowIs(now, policy.periodSeconds.value, window);
      }
    }
  }

  /** The policies for token transfers on NEAR. */
  predicate ForTokens(p: Platform, policy: Policy) {
    p.lowercase(Trim(policy.assetType)) == "token" || policy.templateId == NEAR_FT
  }

  /** The policies that look at a payload at all; any other stored policy passes whatever is sent. */
  predicate ChecksPayload(p: Platform, chain: Chain, policy: Policy) {
    var native := p.lowercase(Trim(policy.assetType)) == "native";
    match chain
    case Solana => native && policy.templateId == SOL_NATIVE
    case Near => ForTokens(p, policy) || (native && (policy.templateId == NEAR_NATIVE || policy.templateId == SOL_NATIVE))
    case _ => false
  }

  /** To the last byte a system transfer that the policy admits. */
  ghost predicate SolanaAdmits(policy: Policy, payload: bytes, now: nat) {
    exists m: SolanaPayload.Message :: m.Valid() && m.Bytes() == payload && Admits(Lamports, policy, Transfer("", m.Transfer().destination, m.lamports), now)
  }

  /** To the last byte a native NEAR transfer that the policy admits. */
  ghost predicate NativeAdmits(p: Platform, policy: Policy, payload: bytes, now: nat) {
    exists tx: NearPayload.Transaction, t: NearPayload.NativeTransfer ::
      NearPayload.IsNative(p, tx, t) && tx.Bytes() == payload && Admits(Yocto, policy, Transfer("", t.destination, t.yocto), now)
  }

  /** To the last byte a transfer of the policy's token that the policy admits. */
  ghost predicate FtAdmits(p: Platform, policy: Policy, payload: bytes, now: nat) {
    exists tx: NearPayload.Transaction, t: NearPayload.FtTransfer ::
      NearPayload.IsFt(p, tx, t) && tx.Bytes() == payload && Admits(TokenUnits, policy, Transfer(t.ftContract, t.destination, t.amount), now)
  }

  /** A native policy without a destination list also passes token transfers, of any token and amount. */
  ghost predicate OpenFt(p: Platform, policy: Policy, payload: bytes) {
    policy.allowDestinations == [] &&
    exists tx: NearPayload.Transaction, t: NearPayload.FtTransfer :: NearPayload.IsFt(p, tx, t) && tx.Bytes() == payload
  }

  ghost predicate PayloadAdmitted(p: Platform, chain: Chain, policy: Policy, payload: bytes, now: nat) {
    if !ChecksPayload(p, chain, policy) then true
    else if chain == Solana then SolanaAdmits(policy, payload, now)
    else if ForTokens(p, policy) then
      p.lowercase(Trim(policy.assetType)) == "token" && policy.templateId == NEAR_FT && FtAdmits(p, policy, payload, now)
    else NativeAdmits(p, policy, payload, now) || OpenFt(p, policy, payload)
  }

  /** A verdict that lets the request through. */
  ghost predicate Lets(v: Verdict, policy: Policy, now: nat) {
    v != Refuse && (v.Charge? ==> Admits(v.meter, policy, v.transfer, now))
  }

  lemma SolanaLetsIff(p: Platform, policy: Policy, payload: bytes, now: nat)
    ensures Lets(SolanaVerdict(p, policy, payload, NOTHING_PARSED), policy, now) <==> PayloadAdmitted(p, Solana, policy, payload, now)
  {
    hide SolanaPayload.Parse, SolanaPayload.Message.Valid, SolanaPayload.Message.Bytes, Base58.Encode, Admits;
    if ChecksPayload(p, Solana, policy) {
      forall m: SolanaPayload.Message | m.Valid() && m.Bytes() == payload
        ensures SolanaPayload.Parse(payload) == Ok(m.Transfer())
      {
        SolanaPayload.ValidMessageAccepted(m);
      }
      if SolanaPayload.Parse(payload).Ok? {
        var m := SolanaPayload.AcceptedIsMessage(payload);
      }
    }
  }

  lemma FtAdmitsIff(p: Platform, policy: Policy, payload: bytes, now: nat)
    ensures var parsed := NearPayload.ParseFt(p, payload);
            FtAdmits(p, policy, payload, now) <==> parsed.Ok? && Admits(TokenUnits, policy, FtMove(parsed.value), now)
    ensures OpenFt(p, policy, payload) <==> policy.allowDestinations == [] && NearPayload.ParseFt(p, payload).Ok?
  {
    hide NearPayload.ParseFt, NearPayload.IsFt, NearPayload.Transaction.Bytes, Admits;
    forall tx: NearPayload.Transaction, t: NearPayload.FtTransfer | NearPayload.IsFt(p, tx, t) && tx.Bytes() == payload
      ensures NearPayload.ParseFt(p, payload) == Ok(t)
    {
      NearPayload.FtBuildParse(p, tx, t);
    }
    if NearPayload.ParseFt(p, payload).Ok? {
      var tx := NearPayload.FtAccepted(p, payload);
    }
  }

  lemma NativeAdmitsIff(p: Platform, policy: Policy, payload: bytes, now: nat)
    ensures var parsed := NearPayload.ParseNative(p, payload);
            NativeAdmits(p, policy, payload, now) <==> parsed.Ok? && Admits(Yocto, policy, NearMove(parsed.value), now)
  {
    hide NearPayload.ParseNative, NearPayload.IsNative, NearPayload.Transaction.Bytes, Admits;
    forall tx: NearPayload.Transaction, t: NearPayload.NativeTransfer | NearPayload.IsNative(p, tx, t) && tx.Bytes() == payload
      ensures NearPayload.ParseNative(p, payload) == Ok(t)
    {
      NearPayload.NativeBuildParse(p, tx, t);
    }
    if NearPayload.ParseNative(p, payload).Ok? {
      var tx := NearPayload.NativeAccepted(p, payload);
    }
  }

  lemma NearLetsIff(p: Platform, policy: Policy, payload: bytes, now: nat)
    ensures Lets(NearVerdict(p, policy, payload, NOTHING_PARSED), policy, now) <==> PayloadAdmitted(p, Near, policy, payload, now)
  {
    hide NearPayload.ParseFt, NearPayload.ParseNative, Admits, FtAdmits, NativeAdmits, OpenFt;
    FtAdmitsIff(p, policy, payload, now);
    NativeAdmitsIff(p, policy, payload, now);
    NearPayload.ParsersDisjoint(p, payload);
  }

  /** The check of a raw request: its memo passes, and the stored policy admits its payload. */
  lemma RawCheckedIff(p: Platform, chain: Chain, payload: bytes, memo: Option<string>, policies: map<string, Policy>,
                      key: string, now: nat)
    ensures CheckRaw(p, chain, payload, memo, policies, key, now).Some? <==>
            chain != Evm && CheckMemo(p, chain, payload, memo).Some? &&
            (chain == Bitcoin || (key in policies && PayloadAdmitted(p, chain, policies[key], payload, now)))
  {
    hide CheckMemo, SolanaVerdict, NearVerdict, Enforce, PayloadAdmitted, Admits;
    MemoOnlyRestricts(p, chain, payload, memo, policies, key, now);
    NoMemo(p, chain, payload);
    if key in policies && (chain == Solana || chain == Near) {
      SolanaLetsIff(p, policies[key], payload, now);
      NearLetsIff(p, policies[key], payload, now);
      var v := Judge(p, chain, policies[key], payload, NOTHING_PARSED);
      if v.Charge? {
        EnforcedIff(v.meter, policies[key], v.transfer, now);
      }
    }
  }

  /**
   A raw request is accepted if and only if it is a direct call with a payload of 1 to 16384 bytes,
   signed with a registered key that allows the path, on a chain other than EVM, with a memo that
   passes, and on Solana and NEAR with a stored policy that admits the payload.
   */
  lemma RawAcceptedIff(p: Platform, s: State, ctx: Context, r: SignRequest)
    ensures var key := ctx.SignerStorageKey();
            Apply(p, s, ctx, RequestSign(r)).Some? <==>
            ctx.Direct() && 0 < |r.payload| <= 16384 && r.derivationPath != "" && ':' !in r.derivationPath && key in s.subkeys &&
            (exists e :: e in s.subkeys[key] && r.derivationPath in e.paths &&
                         (e.chain == r.chain || (r.chain == Near && e.chain == Solana))) &&
            r.chain != Evm && CheckMemo(p, r.chain, r.payload, r.memo).Some? &&
            (r.chain == Bitcoin ||
             (key in s.apiKeyPolicies && PayloadAdmitted(p, r.chain, s.apiKeyPolicies[key], r.payload, ctx.Seconds())))
  {
    hide CheckRaw, CheckMemo, IsAllowed, PayloadAdmitted, ComposeKey, Base58.Encode;
    if ctx.SignerStorageKey() in s.subkeys {
      AllowedIff(s.subkeys[ctx.SignerStorageKey()], r.chain, r.derivationPath);
    }
    RawCheckedIff(p, r.chain, r.payload, r.memo, s.apiKeyPolicies, ctx.SignerStorageKey(), ctx.Seconds());
  }

  /** On Solana and NEAR a stored policy passes every payload that can be asked for, and stays as it is, exactly when it checks none. */
  lemma UncheckedIff(p: Platform, chain: Chain, policies: map<string, Policy>, key: string, now: nat)
    requires (chain == Solana || chain == Near) && key in policies
    ensures (forall payload: bytes | 0 < |payload| <= 16384 :: CheckRaw(p, chain, payload, None, policies, key, now) == Some(policies)) <==>
            !ChecksPayload(p, chain, policies[key])
  {
    hide CheckMemo, SolanaPayload.Parse, NearPayload.ParseFt, NearPayload.ParseNative, Enforce;
    forall payload: bytes ensures CheckMemo(p, chain, payload, None) == Some(NOTHING_PARSED) {
      NoMemo(p, chain, payload);
    }
    OneByteIsNothing(p);
    assert ChecksPayload(p, chain, policies[key]) ==> CheckRaw(p, chain, [0], None, policies, key, now).None?;
  }

  lemma OneByteIsNothing(p: Platform)
    ensures SolanaPayload.Parse([0]).Err? && NearPayload.ParseFt(p, [0]).Err? && NearPayload.ParseNative(p, [0]).Err?
  {
  }
}
