/** The contract as a transition system: what each call does to the stored state, or that it panics. */
module Transitions {
  import opened Basics
  import opened Text
  import opened Decimal
  import opened Library
  import opened ApiKeyPolicy
  import opened ContractState
  import opened RawSigning
  import opened TemplateSigning
  import Base58

  const MAX_PAYLOAD_BYTES: nat := 16 * 1024

  /** A promise to the MPC contract. `raw` requests carry bytes to sign; template requests a description. */
  datatype MpcRequest =
    | Sign(path: string, payload: bytes, keyType: string, domainId: nat)
    | SignTemplate(path: string, caller: AccountId, kind: TxKind, request: TemplateSignRequest)

  /** What a call that did not panic leaves: the state, the promise it made, and a returned count. */
  datatype Outcome = Outcome(state: State, promise: Option<MpcRequest>, count: nat)

  datatype PromiseResult = Successful(data: bytes) | Failed | NotReady

  datatype Call =
    | AddSubkey(publicKey: bytes, paths: seq<ChainPaths>)
    | SetSubkeyPaths(publicKey: bytes, paths: seq<ChainPaths>)
    | RemoveSubkey(publicKey: bytes)
    | RequestSign(request: SignRequest)
    | RequestSignV2(requestId: string, request: SignRequest)
    | RequestTemplateSign(templateRequest: TemplateSignRequest)
    | RequestTemplateSignV2(requestId: string, templateRequest: TemplateSignRequest)
    | GrantPolicyManager(publicKey: bytes, selfPolicy: Option<bool>)
    | RevokePolicyManager(publicKey: bytes)
    | SetSignerPolicy(publicKey: bytes, policy: Policy)
    | OwnerSetSignerPolicy(publicKey: bytes, policy: Policy)
    | RemoveSignerPolicy(publicKey: bytes)
    | OwnerRemoveSignerPolicy(publicKey: bytes)
    | SetTemplate(template: TxTemplate)
    | RemoveTemplate(chain: Chain, templateId: string)
    | SetTokenCap(chain: Chain, token: Option<string>, maxAmount: nat)
    | RemoveTokenCap(chain: Chain, token: Option<string>)
    | SetMpc(mpc: AccountId)
    | CleanupResults(requestIds: seq<string>)

  function Quiet(s: State): Option<Outcome> {
    Some(Outcome(s, None, 0))
  }

  // Subkeys.

  predicate ValidPaths(paths: seq<ChainPaths>) {
    paths != [] &&
    (forall i :: 0 <= i < |paths| ==> paths[i].paths != [] && forall q :: q in paths[i].paths ==> ValidPath(q)) &&
    (forall i, j :: 0 <= i < j < |paths| ==> paths[i].chain != paths[j].chain)
  }

  function Index(s: State, account: AccountId): seq<string> {
    if account in s.subkeyIndex then s.subkeyIndex[account] else []
  }

  /** `push_index`. */
  function Pushed(current: seq<string>, pk: string): seq<string> {
    if pk in current then current else current + [pk]
  }

  /** `retain(|k| k != pk)`. */
  function Without(current: seq<string>, pk: string): seq<string> {
    if current == [] then [] else
      var front := Without(current[..|current| - 1], pk);
      if current[|current| - 1] == pk then front else front + [current[|current| - 1]]
  }

  function DoAddSubkey(s: State, ctx: Context, publicKey: bytes, paths: seq<ChainPaths>): Option<Outcome> {
    var pk := Base58.Encode(publicKey);
    if !ctx.Direct() || !ValidPaths(paths) then None else
      Quiet(s.(subkeys := s.subkeys[ComposeKey(ctx.predecessor, pk) := paths],
               subkeyIndex := if pk in Index(s, ctx.predecessor) then s.subkeyIndex
                              else s.subkeyIndex[ctx.predecessor := Pushed(Index(s, ctx.predecessor), pk)]))
  }

  function DoSetSubkeyPaths(s: State, ctx: Context, publicKey: bytes, paths: seq<ChainPaths>): Option<Outcome> {
    var key := ComposeKey(ctx.predecessor, Base58.Encode(publicKey));
    if !ctx.Direct() || !ValidPaths(paths) || key !in s.subkeys then None else
      Quiet(s.(subkeys := s.subkeys[key := paths]))
  }

  function DoRemoveSubkey(s: State, ctx: Context, publicKey: bytes): Option<Outcome> {
    var pk := Base58.Encode(publicKey);
    var key := ComposeKey(ctx.predecessor, pk);
    if !ctx.Direct() || key !in s.subkeys then None else
      Quiet(s.(subkeys := s.subkeys - {key},
               subkeyIndex := if ctx.predecessor !in s.subkeyIndex then s.subkeyIndex
                              else s.subkeyIndex[ctx.predecessor := Without(s.subkeyIndex[ctx.predecessor], pk)]))
  }

  // Signing requests.

  function KeyType(chain: Chain): string {
    if chain == Solana || chain == Near then "Eddsa" else "Ecdsa"
  }

  function DomainId(chain: Chain): nat {
    if chain == Solana || chain == Near then 1 else 0
  }

  function MpcPayload(p: Platform, chain: Chain, payload: bytes): bytes {
    if chain == Near then p.sha256(payload) else payload
  }

  function DoRequestSign(p: Platform, s: State, ctx: Context, r: SignRequest): Option<Outcome> {
    hide CheckRaw, IsAllowed, MpcPayload;
    var key := ctx.SignerStorageKey();
    if ctx.Direct() && 0 < |r.payload| <= MAX_PAYLOAD_BYTES && ValidPath(r.derivationPath) &&
       key in s.subkeys && IsAllowed(s.subkeys[key], r.chain, r.derivationPath)
    then
      var policies :- CheckRaw(p, r.chain, r.payload, r.memo, s.apiKeyPolicies, key, ctx.Seconds());
      Some(Outcome(s.(apiKeyPolicies := policies),
                   Some(Sign(MpcPath(ctx.predecessor, r.derivationPath), MpcPayload(p, r.chain, r.payload),
                             KeyType(r.chain), DomainId(r.chain))), 0))
    else None
  }

  predicate NewRequestId(s: State, requestId: string) {
    requestId != "" && requestId !in s.signResults
  }

  function DoRequestTemplateSign(s: State, ctx: Context, r: TemplateSignRequest): Option<Outcome> {
    var template :- CheckTemplate(s, ctx, r);
    Some(Outcome(s, Some(SignTemplate(MpcPath(ctx.predecessor, r.derivationPath), ctx.predecessor, template.kind, r)), 0))
  }

  function DoRequestTemplateSignV2(p: Platform, s: State, ctx: Context, r: TemplateSignRequest): Option<Outcome> {
    hide CheckTemplate, EvmDigest;
    if r.chain != Evm then DoRequestTemplateSign(s, ctx, r) else
      var template :- CheckTemplate(s, ctx, r);
      var digest :- EvmDigest(p, r);
      Some(Outcome(s, Some(Sign(MpcPath(ctx.predecessor, r.derivationPath), digest, KeyType(Evm), DomainId(Evm))), 0))
  }

  // Policies and their managers.

  /** `assert_can_manage_policy`: keys that are not subkeys may; a subkey needs a fitting grant. */
  predicate CanManagePolicy(s: State, ctx: Context, targetPk: string) {
    var key := ctx.SignerStorageKey();
    key in s.subkeys ==>
      key in s.policyManagers &&
      (s.policyManagers[key].canManagePolicies ||
       (s.policyManagers[key].canManageSelfPolicy && Base58.Encode(ctx.signerKey) == targetPk))
  }

  function NonBlank(text: Option<string>): Option<string> {
    if text.Some? && Trim(text.value) != "" then Some(Trim(text.value)) else None
  }

  function Positive(n: Option<nat>): Option<nat> {
    if n.Some? && n.value > 0 then n else None
  }

  function TrimAll(items: seq<string>): seq<string> {
    if items == [] then [] else
      var rest := TrimAll(items[1..]);
      if Trim(items[0]) == "" then rest else [Trim(items[0])] + rest
  }

  predicate ValidAmountText(text: Option<string>) {
    text.Some? ==> ParseAmount(Trim(text.value), 18).Some?
  }

  /** `normalize_api_key_policy`; None is a panic. */
  function Normalize(p: Platform, policy: Policy): Option<Policy> {
    if Trim(policy.version) == "" || Trim(policy.templateId) == "" || p.lowercase(Trim(policy.assetType)) == "" ||
       policy.maxPerTxNative.None? ||
       ((policy.maxPerPeriodNative.Some? || policy.maxTxCountPerPeriod.Some?) && policy.periodSeconds.UnwrapOr(0) == 0) ||
       !ValidAmountText(policy.maxPerTxNative) || !ValidAmountText(policy.maxPerPeriodNative) ||
       !ValidAmountText(policy.spentThisPeriodNative)
    then None
    else Some(Policy(Trim(policy.version), Trim(policy.templateId), p.lowercase(Trim(policy.assetType)),
                     NonBlank(policy.assetId), NonBlank(policy.maxPerTxNative), NonBlank(policy.maxPerPeriodNative),
                     Positive(policy.periodSeconds), Positive(policy.maxTxCountPerPeriod), TrimAll(policy.allowDestinations),
                     policy.periodStartUnixSeconds, NonBlank(policy.spentThisPeriodNative), policy.txCountThisPeriod))
  }

  function DoGrant(s: State, ctx: Context, publicKey: bytes, selfPolicy: Option<bool>): Option<Outcome> {
    var key := ComposeKey(ctx.predecessor, Base58.Encode(publicKey));
    if !ctx.Direct() || key !in s.subkeys then None else
      Quiet(s.(policyManagers := s.policyManagers[key := Grant(true, selfPolicy.UnwrapOr(false))]))
  }

  function DoRevoke(s: State, ctx: Context, publicKey: bytes): Option<Outcome> {
    var key := ComposeKey(ctx.predecessor, Base58.Encode(publicKey));
    if !ctx.Direct() || key !in s.policyManagers then None else
      Quiet(s.(policyManagers := s.policyManagers - {key}))
  }

  /** `set_signer_policy` when gated, `owner_set_signer_policy` otherwise. */
  function DoSetPolicy(p: Platform, s: State, ctx: Context, publicKey: bytes, policy: Policy, gated: bool): Option<Outcome> {
    var pk := Base58.Encode(publicKey);
    var key := ComposeKey(ctx.predecessor, pk);
    if !ctx.Direct() || (gated && !CanManagePolicy(s, ctx, pk)) || key !in s.subkeys then None else
      var normalized :- Normalize(p, policy);
      Quiet(s.(apiKeyPolicies := s.apiKeyPolicies[key := normalized]))
  }

  function DoRemovePolicy(s: State, ctx: Context, publicKey: bytes, gated: bool): Option<Outcome> {
    var pk := Base58.Encode(publicKey);
    var key := ComposeKey(ctx.predecessor, pk);
    if !ctx.Direct() || (gated && !CanManagePolicy(s, ctx, pk)) || key !in s.apiKeyPolicies then None else
      Quiet(s.(apiKeyPolicies := s.apiKeyPolicies - {key}))
  }

  // Owner calls.

  function DoSetTemplate(s: State, ctx: Context, t: TxTemplate): Option<Outcome> {
    if ctx.predecessor != s.owner || t.templateId == "" || (t.allowedTokens.Some? && "" in t.allowedTokens.value) then None
    else Quiet(s.(templates := s.templates[TemplateKey(t.chain, t.templateId) := t]))
  }

  function DoRemoveTemplate(s: State, ctx: Context, chain: Chain, templateId: string): Option<Outcome> {
    var key := TemplateKey(chain, templateId);
    if ctx.predecessor != s.owner || key !in s.templates then None else Quiet(s.(templates := s.templates - {key}))
  }

  function DoSetTokenCap(s: State, ctx: Context, chain: Chain, token: Option<string>, maxAmount: nat): Option<Outcome> {
    var name := token.UnwrapOr(NATIVE_TOKEN);
    if ctx.predecessor != s.owner || name == "" then None
    else Quiet(s.(tokenCaps := s.tokenCaps[CapKey(chain, name) := maxAmount]))
  }

  function DoRemoveTokenCap(s: State, ctx: Context, chain: Chain, token: Option<string>): Option<Outcome> {
    var key := CapKey(chain, token.UnwrapOr(NATIVE_TOKEN));
    if ctx.predecessor != s.owner || key !in s.tokenCaps then None else Quiet(s.(tokenCaps := s.tokenCaps - {key}))
  }

  /** `cleanup_results` on the remaining ids: what is left, and how many were removed. */
  function Cleaned(results: map<string, SignResult>, ids: seq<string>): (map<string, SignResult>, nat) {
    if ids == [] then (results, 0) else
      var (left, removed) := Cleaned(results, ids[..|ids| - 1]);
      var id := ids[|ids| - 1];
      if id in left then (left - {id}, removed + 1) else (left, removed)
  }

  function DoCleanup(s: State, ctx: Context, ids: seq<string>): Option<Outcome> {
    if ctx.predecessor != s.owner then None else
      var (left, removed) := Cleaned(s.signResults, ids);
      Some(Outcome(s.(signResults := left), None, removed))
  }

  /** `on_sign_complete`. */
  function ResultOf(requestId: string, result: PromiseResult): SignResult
    requires !result.NotReady?
  {
    match result
    case Successful(data) => SignResult(requestId, true, if data == [] then None else Some(data), None)
    case Failed => SignResult(requestId, false, None, Some("mpc sign failed"))
  }

  function DoComplete(s: State, requestId: string, result: PromiseResult): Option<Outcome> {
    if result.NotReady? then None else Quiet(s.(signResults := s.signResults[requestId := ResultOf(requestId, result)]))
  }

  /** One external call. None is a panic, which the runtime rolls back. */
  function Apply(p: Platform, s: State, ctx: Context, call: Call): Option<Outcome> {
    hide *;
    match call
    case AddSubkey(pk, paths) => DoAddSubkey(s, ctx, pk, paths)
    case SetSubkeyPaths(pk, paths) => DoSetSubkeyPaths(s, ctx, pk, paths)
    case RemoveSubkey(pk) => DoRemoveSubkey(s, ctx, pk)
    case RequestSign(r) => DoRequestSign(p, s, ctx, r)
    case RequestSignV2(id, r) => if NewRequestId(s, id) then DoRequestSign(p, s, ctx, r) else None
    case RequestTemplateSign(r) => DoRequestTemplateSign(s, ctx, r)
    case RequestTemplateSignV2(id, r) => if NewRequestId(s, id) then DoRequestTemplateSignV2(p, s, ctx, r) else None
    case GrantPolicyManager(pk, own) => DoGrant(s, ctx, pk, own)
    case RevokePolicyManager(pk) => DoRevoke(s, ctx, pk)
    case SetSignerPolicy(pk, policy) => DoSetPolicy(p, s, ctx, pk, policy, true)
    case OwnerSetSignerPolicy(pk, policy) => DoSetPolicy(p, s, ctx, pk, policy, false)
    case RemoveSignerPolicy(pk) => DoRemovePolicy(s, ctx, pk, true)
    case OwnerRemoveSignerPolicy(pk) => DoRemovePolicy(s, ctx, pk, false)
    case SetTemplate(t) => DoSetTemplate(s, ctx, t)
    case RemoveTemplate(chain, id) => DoRemoveTemplate(s, ctx, chain, id)
    case SetTokenCap(chain, token, amount) => DoSetTokenCap(s, ctx, chain, token, amount)
    case RemoveTokenCap(chain, token) => DoRemoveTokenCap(s, ctx, chain, token)
    case SetMpc(mpc) => if ctx.predecessor == s.owner then Quiet(s.(mpc := mpc)) else None
    case CleanupResults(ids) => DoCleanup(s, ctx, ids)
  }

  function NewContract(owner: AccountId, mpc: AccountId): State {
    State(owner, mpc, map[], map[], map[], map[], map[], map[], map[])
  }
}
