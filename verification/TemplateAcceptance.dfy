/** Exactly which template requests are accepted, and what they ask for. */
module TemplateAcceptance {
  import opened Basics
  import opened Text
  import opened Decimal
  import opened Library
  import opened ApiKeyPolicy
  import opened ContractState
  import opened RawSigning
  import opened TemplateSigning
  import opened Transitions
  import opened Emissions
  import Base58

  /** The decimal places in which a chain's template limits are written. */
  function LimitPlaces(chain: Chain): nat {
    match chain
    case Solana => 9
    case Evm => 18
    case Bitcoin => 8
    case Near => 24
  }

  /**
   What the stored policy says about a template request: its template and asset, its destinations
   without regard to case, and on a native transfer the per-transfer limit, exactly as its numeral reads.
   */
  ghost predicate TemplateTermsAllow(policy: Policy, r: TemplateSignRequest) {
    policy.templateId == r.templateId &&
    (policy.allowDestinations == [] || exists d :: d in policy.allowDestinations && EqIgnoreAsciiCase(d, r.to)) &&
    match r.tokenContract
    case None =>
      EqIgnoreAsciiCase(Trim(policy.assetType), "native") && (policy.maxPerTxNative.Some? ==> WithinLimit(policy.maxPerTxNative.value, r))
    case Some(token) =>
      EqIgnoreAsciiCase(Trim(policy.assetType), "token") &&
      (policy.assetId.Some? ==> EqIgnoreAsciiCase(Trim(policy.assetId.value), token))
  }

  /** The limit reads as a numeral in the chain's places, and the amount does not pass it. */
  ghost predicate WithinLimit(limit: string, r: TemplateSignRequest) {
    exists n: Numeral :: n.Valid() && Trim(limit) == n.Text() && n.Places() <= LimitPlaces(r.chain) &&
      r.amount <= n.Units(LimitPlaces(r.chain)) < U128_LIMIT
  }

  lemma LimitIff(limit: string, r: TemplateSignRequest)
    ensures WithinLimit(limit, r) <==>
            (var units := LimitUnits(r.chain, limit); units.Some? && r.amount <= units.value)
  {
    hide ParseAmount, Trim, Numeral.Text;
    SmallScales();
    var places := LimitPlaces(r.chain);
    if LimitUnits(r.chain, limit).Some? {
      var n := ParsedIsNumeral(limit, places);
      ParseNumeral(limit, n, places);
    }
    forall n: Numeral | n.Valid() && Trim(limit) == n.Text()
      ensures ParseAmount(limit, places) == if n.Places() <= places then Checked(n.Units(places), U128_LIMIT) else None
    {
      ParseNumeral(limit, n, places);
    }
  }

  lemma SmallScales()
    ensures Pow(10, 8) < U128_LIMIT && Pow(10, 9) < U128_LIMIT && Pow(10, 18) < U128_LIMIT && Pow(10, 24) < U128_LIMIT
  {
    TenToThe18();
    assert Pow(10, 8) == 100_000_000;
    PowAdd(10, 18, 6);
    assert Pow(10, 6) == 1_000_000;
  }

  /** The stored policy passes a request whose token fits its template exactly when its terms do. */
  lemma TemplateTermsIff(template: TxTemplate, r: TemplateSignRequest, policies: map<string, Policy>, key: string)
    requires r.chain != Bitcoin && (NativeKind(template.kind) <==> r.tokenContract.None?)
    ensures PolicyAllowsTemplate(r.chain, template, r, policies, key) <==> key in policies && TemplateTermsAllow(policies[key], r)
  {
    hide LimitUnits, WithinLimit, EqIgnoreAsciiCase, Trim;
    if key in policies && policies[key].maxPerTxNative.Some? {
      LimitIff(policies[key].maxPerTxNative.value, r);
    }
  }

  /** The owner's template is for this chain, and for a native transfer or for this token. */
  predicate Fits(template: TxTemplate, r: TemplateSignRequest) {
    template.chain == r.chain &&
    match r.tokenContract
    case None => template.kind in {SolanaNative, EvmNative, BitcoinSend} && template.allowedTokens.None?
    case Some(token) =>
      template.kind in {SolanaSpl, SolanaToken2022, EvmErc20} &&
      (template.allowedTokens.Some? ==> token in template.allowedTokens.value)
  }

  /**
   A template request passes if and only if it is a direct call with a template, a path and a recipient,
   signed with a registered key that lists the path for the chain (NEAR also for Solana); the owner's
   template fits it; except on Bitcoin a policy stored for the key allows it; and it is within the cap.
   */
  lemma TemplateCheckedIff(s: State, ctx: Context, r: TemplateSignRequest)
    ensures var key, template := ctx.SignerStorageKey(), TemplateKey(r.chain, r.templateId);
            CheckTemplate(s, ctx, r).Some? <==>
            ctx.Direct() && r.templateId != "" && r.derivationPath != "" && ':' !in r.derivationPath && r.to != "" &&
            key in s.subkeys &&
            (exists e :: e in s.subkeys[key] && r.derivationPath in e.paths &&
                         (e.chain == r.chain || (r.chain == Near && e.chain == Solana))) &&
            template in s.templates && Fits(s.templates[template], r) &&
            (r.chain != Bitcoin ==> key in s.apiKeyPolicies && TemplateTermsAllow(s.apiKeyPolicies[key], r)) &&
            (var cap := CapKey(r.chain, r.tokenContract.UnwrapOr("native")); cap in s.tokenCaps ==> r.amount <= s.tokenCaps[cap])
  {
    hide IsAllowed, PolicyAllowsTemplate, TemplateTermsAllow, ComposeKey, CapKey, TemplateKey, Base58.Encode;
    var key, template := ctx.SignerStorageKey(), TemplateKey(r.chain, r.templateId);
    if key in s.subkeys {
      AllowedIff(s.subkeys[key], r.chain, r.derivationPath);
    }
    if template in s.templates && r.chain != Bitcoin && (NativeKind(s.templates[template].kind) <==> r.tokenContract.None?) {
      TemplateTermsIff(s.templates[template], r, s.apiKeyPolicies, key);
    }
    BitcoinNeedsNoPolicy(s, r);
  }

  lemma BitcoinNeedsNoPolicy(s: State, r: TemplateSignRequest)
    ensures r.chain == Bitcoin ==>
              forall template, key :: PolicyAllowsTemplate(r.chain, template, r, s.apiKeyPolicies, key)
  {
  }

  /**
   What an accepted template request does, on every chain: the state stays as it was, and it goes out
   under the caller's own path, as the described transaction or, on EVM with an id, as a digest.
   */
  lemma TemplateRequestsSound(p: Platform, s: State, ctx: Context, call: Call)
    requires TemplateRequest(call).Some? && Apply(p, s, ctx, call).Some?
    ensures CheckTemplate(s, ctx, TemplateRequest(call).value).Some?
    ensures var r, outcome := TemplateRequest(call).value, Apply(p, s, ctx, call).value;
            var template := TemplateKey(r.chain, r.templateId);
            template in s.templates && outcome.state == s && outcome.promise.Some? &&
            outcome.promise.value.path == MpcPath(ctx.predecessor, r.derivationPath) &&
            (outcome.promise.value.SignTemplate? ==>
               outcome.promise.value == SignTemplate(MpcPath(ctx.predecessor, r.derivationPath), ctx.predecessor,
                                                     s.templates[template].kind, r)) &&
            (outcome.promise.value.Sign? <==> r.chain == Evm && call.RequestTemplateSignV2?)
  {
    hide TemplateAllows, IsAllowed, PolicyAllowsTemplate, EvmDigest, ComposeKey, CapKey, TemplateKey, Base58.Encode;
  }

  /** A template request without an id is accepted exactly when it passes those checks. */
  lemma TemplateAcceptedIff(p: Platform, s: State, ctx: Context, r: TemplateSignRequest)
    ensures Apply(p, s, ctx, RequestTemplateSign(r)).Some? <==> CheckTemplate(s, ctx, r).Some?
  {
    hide CheckTemplate, MpcPath;
  }
}
