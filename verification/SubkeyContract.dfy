/**
 The contract object: its collections are fields its methods update step by step. Each method is
 proved against its transition; a method that returns None has panicked and left the state alone.
 */
module SubkeyContract {
  import opened Basics
  import opened Text
  import opened Decimal
  import opened Amounts
  import opened Library
  import opened ApiKeyPolicy
  import opened ContractState
  import opened RawSigning
  import opened TemplateSigning
  import opened Transitions
  import SolanaPayload
  import NearPayload
  import Base58

  /** What a successful call returns: the promise it made, and the count of a clean-up. */
  datatype Reply = Reply(promise: Option<MpcRequest>, count: nat)

  // Checks that only read their arguments.

  method ValidatePaths(paths: seq<ChainPaths>) returns (ok: bool)
    ensures ok == ValidPaths(paths)
  {
    if paths == [] {
      return false;
    }
    for i := 0 to |paths|
      invariant forall k :: 0 <= k < i ==> paths[k].paths != [] && forall q :: q in paths[k].paths ==> ValidPath(q)
    {
      if paths[i].paths == [] {
        return false;
      }
      for j := 0 to |paths[i].paths|
        invariant forall q :: q in paths[i].paths[..j] ==> ValidPath(q)
      {
        if !ValidPath(paths[i].paths[j]) {
          return false;
        }
      }
      assert paths[i].paths[..|paths[i].paths|] == paths[i].paths;
    }
    var seen: set<Chain> := {};
    for i := 0 to |paths|
      invariant forall c :: c in seen <==> exists k :: 0 <= k < i && paths[k].chain == c
      invariant forall j, k :: 0 <= j < k < i ==> paths[j].chain != paths[k].chain
    {
      if paths[i].chain in seen {
        return false;
      }
      seen := seen + {paths[i].chain};
    }
    return true;
  }

  /** `enforce_solana_native_policy`. */
  method EnforceSolanaMemo(p: Platform, payload: bytes, memo: PolicyMemo) returns (r: Option<SolanaPayload.SolanaTransfer>)
    ensures r == MemoSolana(p, payload, memo)
  {
    hide SolanaPayload.Parse, ParseAmount;
    var parsed := SolanaPayload.ParseSolanaNativeTransfer(payload);
    if parsed.Err? {
      return None;
    }
    var t := parsed.value;
    var from :- StringField(memo.templateParams, "fromPublicKey");
    var destination :- StringField(memo.templateParams, "destination");
    var amount :- StringField(memo.templateParams, "amount");
    var lamports :- ParseLamports(amount);
    if t.fromPublicKey != from || t.destination != destination || t.lamports != lamports {
      return None;
    }
    if !SnapshotAllows(memo, t.destination) || !NativeRuleAllows(p, Lamports, memo, t.lamports) {
      return None;
    }
    return Some(t);
  }

  /** `enforce_near_native_policy`. */
  method EnforceNearMemo(p: Platform, payload: bytes, memo: PolicyMemo) returns (r: Option<NearPayload.NativeTransfer>)
    ensures r == MemoNear(p, payload, memo)
  {
    hide NearPayload.ParseNative, ParseAmount;
    var parsed := NearPayload.ParseNearNativeTransfer(p, payload);
    if parsed.Err? {
      return None;
    }
    var t := parsed.value;
    var from :- FirstField(memo.templateParams, "fromPublicKey", "fromAddress");
    var destination :- StringField(memo.templateParams, "destination");
    var amount :- StringField(memo.templateParams, "amount");
    var yocto :- ParseYocto(amount);
    if t.fromImplicit != p.lowercase(from) || t.destination != destination || t.yocto != yocto {
      return None;
    }
    if !SnapshotAllows(memo, t.destination) || !NativeRuleAllows(p, Yocto, memo, t.yocto) {
      return None;
    }
    return Some(t);
  }

  /** `enforce_near_ft_policy`. */
  method EnforceFtMemo(p: Platform, payload: bytes, memo: PolicyMemo) returns (r: Option<NearPayload.FtTransfer>)
    ensures r == MemoFt(p, payload, memo)
  {
    hide NearPayload.ParseFt, ParseTokenUnits;
    var parsed := NearPayload.ParseNearFtTransfer(p, payload);
    if parsed.Err? {
      return None;
    }
    var t := parsed.value;
    var from :- FirstField(memo.templateParams, "fromPublicKey", "fromAddress");
    var destination :- StringField(memo.templateParams, "destination");
    var token :- FirstField(memo.templateParams, "tokenContract", "tokenAddress");
    var amount :- StringField(memo.templateParams, "amount");
    var units :- ParseTokenUnits(amount);
    if t.fromImplicit != p.lowercase(from) || t.destination != destination ||
       !EqIgnoreAsciiCase(t.ftContract, Trim(token)) || t.amount != units
    {
      return None;
    }
    if !SnapshotAllows(memo, t.destination) || !TokenRuleAllows(p, memo, t.ftContract, t.amount) {
      return None;
    }
    return Some(t);
  }

  class Contract {
    const platform: Platform
    var owner: AccountId
    var mpc: AccountId
    var subkeys: map<string, seq<ChainPaths>>
    var subkeyIndex: map<AccountId, seq<string>>
    var templates: map<string, TxTemplate>
    var tokenCaps: map<string, nat>
    var signResults: map<string, SignResult>
    var policyManagers: map<string, Grant>
    var apiKeyPolicies: map<string, Policy>

    constructor (platform: Platform, owner: AccountId, mpc: AccountId)
      ensures this.platform == platform && View() == NewContract(owner, mpc)
    {
      this.platform, this.owner, this.mpc := platform, owner, mpc;
      subkeys, subkeyIndex, templates, tokenCaps := map[], map[], map[], map[];
      signResults, policyManagers, apiKeyPolicies := map[], map[], map[];
    }

    /** The stored state as one value. */
    ghost function View(): State
      reads this
    {
      State(owner, mpc, subkeys, subkeyIndex, templates, tokenCaps, signResults, policyManagers, apiKeyPolicies)
    }

    /** The call did what its transition says, a panic included. */
    ghost predicate Did(before: State, spec: Option<Outcome>, r: Option<Reply>)
      reads this
    {
      match spec
      case None => r == None && View() == before
      case Some(outcome) => r == Some(Reply(outcome.promise, outcome.count)) && View() == outcome.state
    }

    // Subkeys.

    method PushIndex(account: AccountId, pk: string)
      modifies this`subkeyIndex
      ensures subkeyIndex == if pk in Index(old(View()), account) then old(subkeyIndex)
                             else old(subkeyIndex)[account := Pushed(Index(old(View()), account), pk)]
    {
      var current := if account in subkeyIndex then subkeyIndex[account] else [];
      if pk !in current {
        current := current + [pk];
        subkeyIndex := subkeyIndex[account := current];
      }
    }

    method DropFromIndex(account: AccountId, pk: string)
      modifies this`subkeyIndex
      ensures subkeyIndex == if account !in old(subkeyIndex) then old(subkeyIndex)
                             else old(subkeyIndex)[account := Without(old(subkeyIndex)[account], pk)]
    {
      if account in subkeyIndex {
        var current := subkeyIndex[account];
        var kept: seq<string> := [];
        for i := 0 to |current|
          invariant kept == Without(current[..i], pk)
        {
          assert current[..i + 1][..i] == current[..i];
          if current[i] != pk {
            kept := kept + [current[i]];
          }
        }
        assert current[..|current|] == current;
        subkeyIndex := subkeyIndex[account := kept];
      }
    }

    method AddSubkey(ctx: Context, publicKey: bytes, paths: seq<ChainPaths>) returns (r: Option<Reply>)
      modifies this
      ensures Did(old(View()), DoAddSubkey(old(View()), ctx, publicKey, paths), r)
    {
      hide ValidPaths, Base58.Encode, Pushed;
      if !ctx.Direct() {
        return None;
      }
      var valid := ValidatePaths(paths);
      if !valid {
        return None;
      }
      var pk := Base58.Encode(publicKey);
      subkeys := subkeys[ComposeKey(ctx.predecessor, pk) := paths];
      PushIndex(ctx.predecessor, pk);
      return Some(Reply(None, 0));
    }

    method SetSubkeyPaths(ctx: Context, publicKey: bytes, paths: seq<ChainPaths>) returns (r: Option<Reply>)
      modifies this
      ensures Did(old(View()), DoSetSubkeyPaths(old(View()), ctx, publicKey, paths), r)
    {
      hide ValidPaths, Base58.Encode;
      if !ctx.Direct() {
        return None;
      }
      var valid := ValidatePaths(paths);
      var key := ComposeKey(ctx.predecessor, Base58.Encode(publicKey));
      if !valid || key !in subkeys {
        return None;
      }
      subkeys := subkeys[key := paths];
      return Some(Reply(None, 0));
    }

    method RemoveSubkey(ctx: Context, publicKey: bytes) returns (r: Option<Reply>)
      modifies this
      ensures Did(old(View()), DoRemoveSubkey(old(View()), ctx, publicKey), r)
    {
      hide Base58.Encode, Without;
      var pk := Base58.Encode(publicKey);
      var key := ComposeKey(ctx.predecessor, pk);
      if !ctx.Direct() || key !in subkeys {
        return None;
      }
      subkeys := subkeys - {key};
      DropFromIndex(ctx.predecessor, pk);
      return Some(Reply(None, 0));
    }

    // The three period enforcers.

    /** `enforce_persisted_api_key_policy`: true unless it panics. */
    method EnforceLamports(key: string, transfer: Transfer, timestamp: nat) returns (ok: bool)
      requires key in apiKeyPolicies
      modifies this`apiKeyPolicies
      ensures ok == Enforce(Lamports, old(apiKeyPolicies)[key], transfer, timestamp / 1_000_000_000).Some?
      ensures apiKeyPolicies ==
              if ok then old(apiKeyPolicies)[key := Enforce(Lamports, old(apiKeyPolicies)[key], transfer, timestamp / 1_000_000_000).value]
              else old(apiKeyPolicies)
    {
      hide OptionalAmount, Print;
      var policy := apiKeyPolicies[key];
      if policy.allowDestinations != [] && transfer.destination !in policy.allowDestinations {
        return false;
      }
      var maxPerTx := OptionalAmount(Lamports, policy.maxPerTxNative);
      if maxPerTx.Some? && transfer.amount > maxPerTx.value {
        return false;
      }
      var maxPerPeriod := OptionalAmount(Lamports, policy.maxPerPeriodNative);
      var maxTxCount := policy.maxTxCountPerPeriod;
      if maxPerPeriod.None? && maxTxCount.None? {
        assert apiKeyPolicies == apiKeyPolicies[key := policy];
        return true;
      }
      ok := ChargePeriod(Lamports, key, transfer.amount, timestamp, maxPerPeriod);
    }

    /** `enforce_persisted_api_key_policy_near`. */
    method EnforceYocto(key: string, transfer: Transfer, timestamp: nat) returns (ok: bool)
      requires key in apiKeyPolicies
      modifies this`apiKeyPolicies
      ensures ok == Enforce(Yocto, old(apiKeyPolicies)[key], transfer, timestamp / 1_000_000_000).Some?
      ensures apiKeyPolicies ==
              if ok then old(apiKeyPolicies)[key := Enforce(Yocto, old(apiKeyPolicies)[key], transfer, timestamp / 1_000_000_000).value]
              else old(apiKeyPolicies)
    {
      hide OptionalAmount, Print;
      var policy := apiKeyPolicies[key];
      if policy.allowDestinations != [] && transfer.destination !in policy.allowDestinations {
        return false;
      }
      var maxPerTx := OptionalAmount(Yocto, policy.maxPerTxNative);
      if maxPerTx.Some? && transfer.amount > maxPerTx.value {
        return false;
      }
      var maxPerPeriod := OptionalAmount(Yocto, policy.maxPerPeriodNative);
      if maxPerPeriod.None? && policy.maxTxCountPerPeriod.None? {
        assert apiKeyPolicies == apiKeyPolicies[key := policy];
        return true;
      }
      ok := ChargePeriod(Yocto, key, transfer.amount, timestamp, maxPerPeriod);
    }

    /** `enforce_persisted_api_key_policy_near_ft`. */
    method EnforceTokenUnits(key: string, transfer: Transfer, timestamp: nat) returns (ok: bool)
      requires key in apiKeyPolicies
      modifies this`apiKeyPolicies
      ensures ok == Enforce(TokenUnits, old(apiKeyPolicies)[key], transfer, timestamp / 1_000_000_000).Some?
      ensures apiKeyPolicies ==
              if ok then old(apiKeyPolicies)[key := Enforce(TokenUnits, old(apiKeyPolicies)[key], transfer, timestamp / 1_000_000_000).value]
              else old(apiKeyPolicies)
    {
      hide OptionalAmount, Print, EqIgnoreAsciiCase, Trim;
      var policy := apiKeyPolicies[key];
      if !EqIgnoreAsciiCase(Trim(policy.assetType), "token") || policy.assetId.None? {
        return false;
      }
      if !EqIgnoreAsciiCase(Trim(policy.assetId.value), transfer.ftContract) {
        return false;
      }
      if policy.allowDestinations != [] && transfer.destination !in policy.allowDestinations {
        return false;
      }
      var maxPerTx := OptionalAmount(TokenUnits, policy.maxPerTxNative);
      if maxPerTx.Some? && transfer.amount > maxPerTx.value {
        return false;
      }
      var maxPerPeriod := OptionalAmount(TokenUnits, policy.maxPerPeriodNative);
      if maxPerPeriod.None? && policy.maxTxCountPerPeriod.None? {
        assert apiKeyPolicies == apiKeyPolicies[key := policy];
        return true;
      }
      ok := ChargePeriod(TokenUnits, key, transfer.amount, timestamp, maxPerPeriod);
    }

    /** The part the enforcers share: open the window, add, check, and write the counters back. */
    method ChargePeriod(meter: Meter, key: string, amount: nat, timestamp: nat, maxPerPeriod: Option<nat>) returns (ok: bool)
      requires key in apiKeyPolicies && maxPerPeriod == PeriodCap(meter, apiKeyPolicies[key])
      modifies this`apiKeyPolicies
      ensures var policy := old(apiKeyPolicies)[key];
              var charged := if policy.periodSeconds.UnwrapOr(0) == 0 then None
                             else ApiKeyPolicy.Charge(meter, policy, amount, Window(timestamp / 1_000_000_000, policy.periodSeconds.value));
              ok == charged.Some? && apiKeyPolicies == if ok then old(apiKeyPolicies)[key := charged.value] else old(apiKeyPolicies)
    {
      hide OptionalAmount, Print;
      var policy := apiKeyPolicies[key];
      var periodSeconds := policy.periodSeconds.UnwrapOr(0);
      if periodSeconds == 0 {
        return false;
      }
      var now := timestamp / 1_000_000_000;
      var windowStart := now - now % periodSeconds;
      if policy.periodStartUnixSeconds != Some(windowStart) {
        policy := policy.(periodStartUnixSeconds := Some(windowStart));
        policy := policy.(spentThisPeriodNative := Some("0"));
        policy := policy.(txCountThisPeriod := Some(0));
      }
      var currentSpent := OptionalAmount(meter, policy.spentThisPeriodNative).UnwrapOr(0);
      var nextSpent := currentSpent + amount;
      if nextSpent >= Limit(meter) {
        return false;
      }
      if maxPerPeriod.Some? && nextSpent > maxPerPeriod.value {
        return false;
      }
      var nextCount := policy.txCountThisPeriod.UnwrapOr(0) + 1;
      if nextCount >= U64_LIMIT {
        return false;
      }
      if policy.maxTxCountPerPeriod.Some? && nextCount > policy.maxTxCountPerPeriod.value {
        return false;
      }
      policy := policy.(spentThisPeriodNative := Some(Print(meter, nextSpent)), txCountThisPeriod := Some(nextCount));
      apiKeyPolicies := apiKeyPolicies[key := policy];
      return true;
    }

    // Raw requests.

    /** The memo half of `enforce_contract_policy_for_raw_request`; None is a panic. */
    method EnforceMemo(chain: Chain, payload: bytes, memo: Option<string>) returns (parsed: Option<Parsed>)
      ensures parsed == CheckMemo(platform, chain, payload, memo)
    {
      hide MemoSolana, MemoNear, MemoFt, PolicyMemoPayload;
      if memo.None? {
        return Some(NOTHING_PARSED);
      }
      var encoded := PolicyMemoPayload(memo.value);
      if encoded.None? {
        return Some(NOTHING_PARSED);
      }
      var policy :- platform.policyMemo(encoded.value);
      if chain == Solana && policy.templateId == SOL_NATIVE {
        var t :- EnforceSolanaMemo(platform, payload, policy);
        return Some(Parsed(Some(t), None, None));
      }
      if chain == Near && (policy.templateId == NEAR_NATIVE || policy.templateId == SOL_NATIVE) {
        var t :- EnforceNearMemo(platform, payload, policy);
        return Some(Parsed(None, Some(t), None));
      }
      if chain == Near && policy.templateId == NEAR_FT {
        var t :- EnforceFtMemo(platform, payload, policy);
        return Some(Parsed(None, None, Some(t)));
      }
      return Some(NOTHING_PARSED);
    }

    method EnforceContractPolicy(chain: Chain, payload: bytes, memo: Option<string>, key: string, timestamp: nat) returns (ok: bool)
      modifies this`apiKeyPolicies
      ensures var checked := CheckRaw(platform, chain, payload, memo, old(apiKeyPolicies), key, timestamp / 1_000_000_000);
              ok == checked.Some? && apiKeyPolicies == if ok then checked.value else old(apiKeyPolicies)
    {
      hide CheckMemo, SolanaVerdict, NearVerdict, Enforce;
      if chain == Evm {
        return false;
      }
      var parsed := EnforceMemo(chain, payload, memo);
      if parsed.None? {
        return false;
      }
      if chain == Bitcoin {
        return true;
      }
      if key !in apiKeyPolicies {
        return false;
      }
      var verdict := if chain == Solana then SolanaVerdict(platform, apiKeyPolicies[key], payload, parsed.value)
                     else NearVerdict(platform, apiKeyPolicies[key], payload, parsed.value);
      match verdict
      case Refuse => return false;
      case Pass => return true;
      case Charge(meter, transfer) =>
        match meter
        case Lamports => ok := EnforceLamports(key, transfer, timestamp);
        case Yocto => ok := EnforceYocto(key, transfer, timestamp);
        case TokenUnits => ok := EnforceTokenUnits(key, transfer, timestamp);
    }

    method RequestSign(ctx: Context, request: SignRequest) returns (r: Option<Reply>)
      modifies this
      ensures Did(old(View()), DoRequestSign(platform, old(View()), ctx, request), r)
    {
      hide CheckRaw, IsAllowed, ComposeKey, Base58.Encode, MpcPayload;
      if !ctx.Direct() || request.payload == [] || |request.payload| > MAX_PAYLOAD_BYTES || !ValidPath(request.derivationPath) {
        return None;
      }
      var key := ctx.SignerStorageKey();
      if key !in subkeys {
        return None;
      }
      if !IsAllowed(subkeys[key], request.chain, request.derivationPath) {
        return None;
      }
      var ok := EnforceContractPolicy(request.chain, request.payload, request.memo, key, ctx.timestamp);
      if !ok {
        return None;
      }
      var promise := Sign(MpcPath(ctx.predecessor, request.derivationPath), MpcPayload(platform, request.chain, request.payload),
                          KeyType(request.chain), DomainId(request.chain));
      return Some(Reply(Some(promise), 0));
    }

    method RequestSignV2(ctx: Context, requestId: string, request: SignRequest) returns (r: Option<Reply>)
      modifies this
      ensures Did(old(View()), Apply(platform, old(View()), ctx, Call.RequestSignV2(requestId, request)), r)
    {
      hide DoRequestSign;
      if requestId == "" || requestId in signResults {
        return None;
      }
      r := RequestSign(ctx, request);
    }

    method RequestTemplateSign(ctx: Context, request: TemplateSignRequest) returns (r: Option<Reply>)
      ensures Did(View(), DoRequestTemplateSign(View(), ctx, request), r)
    {
      hide PolicyAllowsTemplate, TemplateAllows, IsAllowed, ComposeKey, TemplateKey, CapKey, Base58.Encode;
      if !ctx.Direct() || request.templateId == "" || !ValidPath(request.derivationPath) || request.to == "" {
        return None;
      }
      var key := ctx.SignerStorageKey();
      if key !in subkeys {
        return None;
      }
      if !IsAllowed(subkeys[key], request.chain, request.derivationPath) {
        return None;
      }
      var templateKey := TemplateKey(request.chain, request.templateId);
      if templateKey !in templates {
        return None;
      }
      var template := templates[templateKey];
      if template.chain != request.chain || !TemplateAllows(template, request) ||
         !PolicyAllowsTemplate(request.chain, template, request, apiKeyPolicies, key)
      {
        return None;
      }
      var capKey := CapKey(request.chain, CapToken(request));
      if capKey in tokenCaps && request.amount > tokenCaps[capKey] {
        return None;
      }
      return Some(Reply(Some(SignTemplate(MpcPath(ctx.predecessor, request.derivationPath), ctx.predecessor, template.kind, request)), 0));
    }

    method RequestTemplateSignV2(ctx: Context, requestId: string, request: TemplateSignRequest) returns (r: Option<Reply>)
      ensures Did(View(), Apply(platform, View(), ctx, Call.RequestTemplateSignV2(requestId, request)), r)
    {
      hide CheckTemplate, EvmDigest;
      if requestId == "" || requestId in signResults {
        return None;
      }
      r := RequestTemplateSign(ctx, request);
      if r.None? || request.chain != Evm {
        return;
      }
      var digest :- EvmDigest(platform, request);
      return Some(Reply(Some(Sign(MpcPath(ctx.predecessor, request.derivationPath), digest, KeyType(Evm), DomainId(Evm))), 0));
    }

    // Policies and grants.

    method GrantPolicyManager(ctx: Context, publicKey: bytes, selfPolicy: Option<bool>) returns (r: Option<Reply>)
      modifies this`policyManagers
      ensures Did(old(View()), DoGrant(old(View()), ctx, publicKey, selfPolicy), r)
    {
      hide Base58.Encode;
      var key := ComposeKey(ctx.predecessor, Base58.Encode(publicKey));
      if !ctx.Direct() || key !in subkeys {
        return None;
      }
      policyManagers := policyManagers[key := Grant(true, selfPolicy.UnwrapOr(false))];
      return Some(Reply(None, 0));
    }

    method RevokePolicyManager(ctx: Context, publicKey: bytes) returns (r: Option<Reply>)
      modifies this`policyManagers
      ensures Did(old(View()), DoRevoke(old(View()), ctx, publicKey), r)
    {
      hide Base58.Encode;
      var key := ComposeKey(ctx.predecessor, Base58.Encode(publicKey));
      if !ctx.Direct() || key !in policyManagers {
        return None;
      }
      policyManagers := policyManagers - {key};
      return Some(Reply(None, 0));
    }

    /** `set_signer_policy`, and `owner_set_signer_policy` when not gated. */
    method SetSignerPolicy(ctx: Context, publicKey: bytes, policy: Policy, gated: bool) returns (r: Option<Reply>)
      modifies this`apiKeyPolicies
      ensures Did(old(View()), DoSetPolicy(platform, old(View()), ctx, publicKey, policy, gated), r)
    {
      hide Base58.Encode, Normalize;
      if !ctx.Direct() {
        return None;
      }
      var pk := Base58.Encode(publicKey);
      if gated {
        var allowed := AssertCanManagePolicy(ctx, pk);
        if !allowed {
          return None;
        }
      }
      var key := ComposeKey(ctx.predecessor, pk);
      if key !in subkeys {
        return None;
      }
      var normalized :- Normalize(platform, policy);
      apiKeyPolicies := apiKeyPolicies[key := normalized];
      return Some(Reply(None, 0));
    }

    method AssertCanManagePolicy(ctx: Context, targetPk: string) returns (ok: bool)
      ensures ok == CanManagePolicy(View(), ctx, targetPk)
    {
      hide Base58.Encode;
      var key := ctx.SignerStorageKey();
      if key !in subkeys {
        return true;
      }
      if key !in policyManagers {
        return false;
      }
      var grant := policyManagers[key];
      return grant.canManagePolicies || (grant.canManageSelfPolicy && Base58.Encode(ctx.signerKey) == targetPk);
    }

    /** `remove_signer_policy`, and `owner_remove_signer_policy` when not gated. */
    method RemoveSignerPolicy(ctx: Context, publicKey: bytes, gated: bool) returns (r: Option<Reply>)
      modifies this`apiKeyPolicies
      ensures Did(old(View()), DoRemovePolicy(old(View()), ctx, publicKey, gated), r)
    {
      hide Base58.Encode;
      if !ctx.Direct() {
        return None;
      }
      var pk := Base58.Encode(publicKey);
      if gated {
        var allowed := AssertCanManagePolicy(ctx, pk);
        if !allowed {
          return None;
        }
      }
      var key := ComposeKey(ctx.predecessor, pk);
      if key !in apiKeyPolicies {
        return None;
      }
      apiKeyPolicies := apiKeyPolicies - {key};
      return Some(Reply(None, 0));
    }

    // Results.

    method CleanupResults(ctx: Context, requestIds: seq<string>) returns (r: Option<Reply>)
      modifies this`signResults
      ensures Did(old(View()), DoCleanup(old(View()), ctx, requestIds), r)
    {
      if ctx.predecessor != owner {
        return None;
      }
      var removed: nat := 0;
      for i := 0 to |requestIds|
        invariant (signResults, removed) == Cleaned(old(signResults), requestIds[..i])
      {
        assert requestIds[..i + 1][..i] == requestIds[..i];
        if requestIds[i] in signResults {
          signResults := signResults - {requestIds[i]};
          removed := removed + 1;
        }
      }
      assert requestIds[..|requestIds|] == requestIds;
      return Some(Reply(None, removed));
    }

    method OnSignComplete(requestId: string, result: PromiseResult) returns (r: Option<Reply>)
      modifies this`signResults
      ensures Did(old(View()), DoComplete(old(View()), requestId, result), r)
    {
      if result.NotReady? {
        return None;
      }
      var stored := if result.Successful? then SignResult(requestId, true, if result.data == [] then None else Some(result.data), None)
                    else SignResult(requestId, false, None, Some("mpc sign failed"));
      signResults := signResults[requestId := stored];
      return Some(Reply(None, 0));
    }
  }
}
