/** What the contract checks before it asks the MPC network to sign a caller-supplied payload. */
module RawSigning {
  import opened Basics
  import opened Text
  import opened Library
  import opened Amounts
  import opened ApiKeyPolicy
  import opened ContractState
  import SolanaPayload
  import NearPayload

  const POLICY_MEMO_PREFIX := "policy:"
  const SOL_NATIVE := "sol_native_transfer_v1"
  const NEAR_NATIVE := "near_native_transfer_v1"
  const NEAR_FT := "near_ft_transfer_v1"

  // The policy a caller may attach in the memo.

  /** Transfers the memo check has already parsed. */
  datatype Parsed = Parsed(
    solana: Option<SolanaPayload.SolanaTransfer>,
    near: Option<NearPayload.NativeTransfer>,
    ft: Option<NearPayload.FtTransfer>)

  const NOTHING_PARSED := Parsed(None, None, None)

  /** `extract_policy_memo_payload`. */
  function PolicyMemoPayload(memo: string): Option<string> {
    if StartsWith(memo, POLICY_MEMO_PREFIX) then Some(Split(memo[|POLICY_MEMO_PREFIX|..], '|')[0]) else None
  }

  /** `policy_native_cap_to_*` and `policy_token_cap_to_units`. */
  function MemoCap(meter: Meter, value: Option<Json>): Option<nat> {
    var raw :- value;
    if raw.String? then Parse(meter, raw.chars)
    else if raw.Number? then
      if meter.TokenUnits? && raw.asU64.Some? then raw.asU64 else Parse(meter, raw.text)
    else None
  }

  predicate SnapshotAllows(memo: PolicyMemo, destination: string) {
    memo.snapshot.Some? ==>
      (var s := memo.snapshot.value;
       (s.templateAllowlist != [] ==> memo.templateId in s.templateAllowlist) &&
       (s.destinationAllowlist != [] ==> destination in s.destinationAllowlist))
  }

  predicate NativeRuleAllows(p: Platform, meter: Meter, memo: PolicyMemo, amount: nat) {
    memo.snapshot.Some? && memo.snapshot.value.rule.Some? ==>
      (var rule := memo.snapshot.value.rule.value;
       p.lowercase(Trim(rule.assetType)) == "native" ==> WithinCap(amount, MemoCap(meter, rule.maxPerTxNative)))
  }

  predicate TokenRuleAllows(p: Platform, memo: PolicyMemo, ftContract: string, amount: nat) {
    memo.snapshot.Some? && memo.snapshot.value.rule.Some? ==>
      (var rule := memo.snapshot.value.rule.value;
       p.lowercase(Trim(rule.assetType)) == "token" && Trim(rule.assetId) != "" &&
       EqIgnoreAsciiCase(Trim(rule.assetId), ftContract) &&
       WithinCap(amount, MemoCap(TokenUnits, rule.maxPerTxNative)))
  }

  function FirstField(params: Json, key: string, otherKey: string): Option<string> {
    if StringField(params, key).Some? then StringField(params, key) else StringField(params, otherKey)
  }

  /** The memo's own amount, read in the payload's unit, must be the payload's. */
  predicate AmountMatches(meter: Meter, params: Json, amount: nat) {
    var text := StringField(params, "amount");
    text.Some? && Parse(meter, text.value) == Some(amount)
  }

  /** `enforce_solana_native_policy`. */
  function MemoSolana(p: Platform, payload: bytes, memo: PolicyMemo): Option<SolanaPayload.SolanaTransfer> {
    var parsed := SolanaPayload.Parse(payload);
    if parsed.Err? then None else
      var t := parsed.value;
      if StringField(memo.templateParams, "fromPublicKey") == Some(t.fromPublicKey) &&
         StringField(memo.templateParams, "destination") == Some(t.destination) &&
         AmountMatches(Lamports, memo.templateParams, t.lamports) &&
         SnapshotAllows(memo, t.destination) && NativeRuleAllows(p, Lamports, memo, t.lamports)
      then Some(t) else None
  }

  /** `enforce_near_native_policy`. */
  function MemoNear(p: Platform, payload: bytes, memo: PolicyMemo): Option<NearPayload.NativeTransfer> {
    var parsed := NearPayload.ParseNative(p, payload);
    if parsed.Err? then None else
      var t := parsed.value;
      var from := FirstField(memo.templateParams, "fromPublicKey", "fromAddress");
      if from.Some? && t.fromImplicit == p.lowercase(from.value) &&
         StringField(memo.templateParams, "destination") == Some(t.destination) &&
         AmountMatches(Yocto, memo.templateParams, t.yocto) &&
         SnapshotAllows(memo, t.destination) && NativeRuleAllows(p, Yocto, memo, t.yocto)
      then Some(t) else None
  }

  /** `enforce_near_ft_policy`. */
  function MemoFt(p: Platform, payload: bytes, memo: PolicyMemo): Option<NearPayload.FtTransfer> {
    var parsed := NearPayload.ParseFt(p, payload);
    if parsed.Err? then None else
      var t := parsed.value;
      var from := FirstField(memo.templateParams, "fromPublicKey", "fromAddress");
      var token := FirstField(memo.templateParams, "tokenContract", "tokenAddress");
      if from.Some? && t.fromImplicit == p.lowercase(from.value) &&
         StringField(memo.templateParams, "destination") == Some(t.destination) &&
         token.Some? && EqIgnoreAsciiCase(t.ftContract, Trim(token.value)) &&
         AmountMatches(TokenUnits, memo.templateParams, t.amount) &&
         SnapshotAllows(memo, t.destination) && TokenRuleAllows(p, memo, t.ftContract, t.amount)
      then Some(t) else None
  }

  /** The memo half of `enforce_contract_policy_for_raw_request`. None is a panic. */
  function CheckMemo(p: Platform, chain: Chain, payload: bytes, memo: Option<string>): Option<Parsed> {
    hide MemoSolana, MemoNear, MemoFt, PolicyMemoPayload;
    if memo.None? || PolicyMemoPayload(memo.value).None? then Some(NOTHING_PARSED) else
      var policy :- p.policyMemo(PolicyMemoPayload(memo.value).value);
      match chain
      case Solana =>
        if policy.templateId != SOL_NATIVE then Some(NOTHING_PARSED) else
          var t :- MemoSolana(p, payload, policy);
          Some(Parsed(Some(t), None, None))
      case Near =>
        if policy.templateId == NEAR_NATIVE || policy.templateId == SOL_NATIVE then
          var t :- MemoNear(p, payload, policy);
          Some(Parsed(None, Some(t), None))
        else if policy.templateId == NEAR_FT then
          var t :- MemoFt(p, payload, policy);
          Some(Parsed(None, None, Some(t)))
        else Some(NOTHING_PARSED)
      case _ => Some(NOTHING_PARSED)
  }

  // The policy stored for the signing key.

  function SolanaMove(t: SolanaPayload.SolanaTransfer): Transfer {
    Transfer("", t.destination, t.lamports)
  }

  function NearMove(t: NearPayload.NativeTransfer): Transfer {
    Transfer("", t.destination, t.yocto)
  }

  function FtMove(t: NearPayload.FtTransfer): Transfer {
    Transfer(t.ftContract, t.destination, t.amount)
  }

  /** What the stored policy makes of a payload: refuse it, leave it alone, or meter it. */
  datatype Verdict = Refuse | Pass | Charge(meter: Meter, transfer: Transfer)

  /** `enforce_persisted_policy_for_raw_request` on Solana, up to the enforcer. */
  function SolanaVerdict(p: Platform, policy: Policy, payload: bytes, parsed: Parsed): Verdict {
    if p.lowercase(Trim(policy.assetType)) != "native" then Pass
    else if policy.templateId != SOL_NATIVE then Pass
    else if parsed.solana.Some? then Charge(Lamports, SolanaMove(parsed.solana.value))
    else
      var t := SolanaPayload.Parse(payload);
      if t.Ok? then Charge(Lamports, SolanaMove(t.value)) else Refuse
  }

  /** The same on NEAR. A native policy open to any destination also passes token transfers. */
  function NearVerdict(p: Platform, policy: Policy, payload: bytes, parsed: Parsed): Verdict {
    var assetType := p.lowercase(Trim(policy.assetType));
    if assetType == "token" || policy.templateId == NEAR_FT then
      if policy.templateId != NEAR_FT || assetType != "token" then Refuse
      else if parsed.ft.Some? then Charge(TokenUnits, FtMove(parsed.ft.value))
      else
        var t := NearPayload.ParseFt(p, payload);
        if t.Ok? then Charge(TokenUnits, FtMove(t.value)) else Refuse
    else if assetType != "native" then Pass
    else if policy.templateId != NEAR_NATIVE && policy.templateId != SOL_NATIVE then Pass
    else if parsed.near.Some? then Charge(Yocto, NearMove(parsed.near.value))
    else
      var t := NearPayload.ParseNative(p, payload);
      if t.Ok? then Charge(Yocto, NearMove(t.value))
      else if (parsed.ft.Some? || NearPayload.ParseFt(p, payload).Ok?) && policy.allowDestinations == [] then Pass
      else Refuse
  }

  function Judge(p: Platform, chain: Chain, policy: Policy, payload: bytes, parsed: Parsed): Verdict {
    match chain
    case Solana => SolanaVerdict(p, policy, payload, parsed)
    case Near => NearVerdict(p, policy, payload, parsed)
    case _ => Pass
  }

  /** The persisted half: the policies as stored afterwards, or None for a panic. */
  function CheckPersisted(p: Platform, chain: Chain, payload: bytes, policies: map<string, Policy>, key: string,
                          now: nat, parsed: Parsed): Option<map<string, Policy>>
  {
    hide Judge, Enforce;
    if chain == Bitcoin then Some(policies)
    else if key !in policies then None
    else
      match Judge(p, chain, policies[key], payload, parsed)
      case Refuse => None
      case Pass => Some(policies)
      case Charge(meter, transfer) =>
        var after :- Enforce(meter, policies[key], transfer, now);
        Some(policies[key := after])
  }

  /** `enforce_contract_policy_for_raw_request`. */
  function CheckRaw(p: Platform, chain: Chain, payload: bytes, memo: Option<string>, policies: map<string, Policy>,
                    key: string, now: nat): Option<map<string, Policy>>
  {
    hide CheckMemo, CheckPersisted;
    if chain == Evm then None else
      var parsed :- CheckMemo(p, chain, payload, memo);
      CheckPersisted(p, chain, payload, policies, key, now, parsed)
  }

  /** `AllowedPaths::is_allowed`. */
  predicate IsAllowed(entries: seq<ChainPaths>, chain: Chain, path: string) {
    ListsPath(entries, chain, path) || (chain == Near && ListsPath(entries, Solana, path))
  }

  predicate ListsPath(entries: seq<ChainPaths>, chain: Chain, path: string) {
    exists i :: 0 <= i < |entries| && entries[i].chain == chain && path in entries[i].paths
  }

  /** A path is allowed exactly by an entry that lists it for the chain, or on NEAR for Solana. */
  lemma AllowedIff(entries: seq<ChainPaths>, chain: Chain, path: string)
    ensures IsAllowed(entries, chain, path) <==>
            exists e :: e in entries && path in e.paths && (e.chain == chain || (chain == Near && e.chain == Solana))
  {
    if e :| e in entries && path in e.paths && (e.chain == chain || (chain == Near && e.chain == Solana)) {
      var i :| 0 <= i < |entries| && entries[i] == e;
    }
  }

  // A memo can only restrict.

  /** What the memo check hands on is what the stored policy would have parsed itself. */
  predicate Faithful(p: Platform, payload: bytes, parsed: Parsed) {
    (parsed.solana.Some? ==> SolanaPayload.Parse(payload) == Ok(parsed.solana.value)) &&
    (parsed.near.Some? ==> NearPayload.ParseNative(p, payload) == Ok(parsed.near.value)) &&
    (parsed.ft.Some? ==> NearPayload.ParseFt(p, payload) == Ok(parsed.ft.value))
  }

  lemma MemoParsesFaithfully(p: Platform, chain: Chain, payload: bytes, memo: Option<string>)
    requires CheckMemo(p, chain, payload, memo).Some?
    ensures Faithful(p, payload, CheckMemo(p, chain, payload, memo).value)
  {
    hide SolanaPayload.Parse, NearPayload.ParseNative, NearPayload.ParseFt, PolicyMemoPayload, SnapshotAllows, AmountMatches,
         NativeRuleAllows, TokenRuleAllows, FirstField;
  }

  lemma NoMemo(p: Platform, chain: Chain, payload: bytes)
    ensures CheckMemo(p, chain, payload, None) == Some(NOTHING_PARSED)
  {
  }

  lemma JudgeIgnoresFaithfulParse(p: Platform, chain: Chain, policy: Policy, payload: bytes, parsed: Parsed)
    requires Faithful(p, payload, parsed)
    ensures Judge(p, chain, policy, payload, parsed) == Judge(p, chain, policy, payload, NOTHING_PARSED)
  {
    hide SolanaPayload.Parse, NearPayload.ParseNative, NearPayload.ParseFt;
  }

  /**
   A request with a memo succeeds exactly when its memo passes and the same request without it
   succeeds, and then both leave the same policies behind.
   */
  lemma MemoOnlyRestricts(p: Platform, chain: Chain, payload: bytes, memo: Option<string>, policies: map<string, Policy>,
                          key: string, now: nat)
    ensures CheckRaw(p, chain, payload, memo, policies, key, now) ==
            if chain != Evm && CheckMemo(p, chain, payload, memo).Some?
            then CheckRaw(p, chain, payload, None, policies, key, now) else None
  {
    hide Judge, Enforce, CheckMemo, Faithful;
    NoMemo(p, chain, payload);
    if CheckMemo(p, chain, payload, memo).Some? && key in policies {
      MemoParsesFaithfully(p, chain, payload, memo);
      JudgeIgnoresFaithfulParse(p, chain, policies[key], payload, CheckMemo(p, chain, payload, memo).value);
    }
  }
}
