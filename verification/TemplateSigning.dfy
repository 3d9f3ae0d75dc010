/** The template path: owner-approved request shapes, with EVM transactions built by the contract. */
module TemplateSigning {
  import opened Basics
  import opened Text
  import opened Decimal
  import opened Library
  import opened ApiKeyPolicy
  import opened ContractState
  import opened RawSigning
  import Eip1559
  import Eip3009

  const NATIVE_TOKEN := "native"

  predicate NativeKind(kind: TxKind) {
    kind.SolanaNative? || kind.EvmNative? || kind.BitcoinSend?
  }

  /** `validate_template_request`. */
  predicate TemplateAllows(template: TxTemplate, request: TemplateSignRequest) {
    (NativeKind(template.kind) <==> request.tokenContract.None?) &&
    (template.allowedTokens.Some? ==>
       request.tokenContract.Some? && request.tokenContract.value in template.allowedTokens.value)
  }

  /** `parse_policy_native_limit_units`. */
  function LimitUnits(chain: Chain, text: string): Option<nat> {
    match chain
    case Solana => ParseAmount(text, 9)
    case Evm => ParseAmount(text, 18)
    case Bitcoin => ParseAmount(text, 8)
    case Near => ParseAmount(text, 24)
  }

  /** `enforce_persisted_policy_for_template_request`; false is a panic. */
  predicate PolicyAllowsTemplate(chain: Chain, template: TxTemplate, request: TemplateSignRequest,
                                 policies: map<string, Policy>, key: string)
  {
    chain == Bitcoin ||
    (key in policies &&
     var policy := policies[key];
     policy.templateId == request.templateId &&
     (policy.allowDestinations != [] ==> exists d :: d in policy.allowDestinations && EqIgnoreAsciiCase(d, request.to)) &&
     EqIgnoreAsciiCase(Trim(policy.assetType), if NativeKind(template.kind) then "native" else "token") &&
     if !NativeKind(template.kind) then
       request.tokenContract.Some? &&
       (policy.assetId.Some? ==> EqIgnoreAsciiCase(Trim(policy.assetId.value), request.tokenContract.value))
     else
       policy.maxPerTxNative.Some? ==>
         (var limit := LimitUnits(chain, policy.maxPerTxNative.value); limit.Some? && request.amount <= limit.value))
  }

  function CapToken(request: TemplateSignRequest): string {
    request.tokenContract.UnwrapOr(NATIVE_TOKEN)
  }

  /** Everything both template methods check; the template found, or None for a panic. */
  function CheckTemplate(s: State, ctx: Context, request: TemplateSignRequest): Option<TxTemplate> {
    var key, templateKey := ctx.SignerStorageKey(), TemplateKey(request.chain, request.templateId);
    if ctx.Direct() && request.templateId != "" && ValidPath(request.derivationPath) && request.to != "" &&
       key in s.subkeys && IsAllowed(s.subkeys[key], request.chain, request.derivationPath) &&
       templateKey in s.templates && s.templates[templateKey].chain == request.chain &&
       TemplateAllows(s.templates[templateKey], request) &&
       PolicyAllowsTemplate(request.chain, s.templates[templateKey], request, s.apiKeyPolicies, key) &&
       (var capKey := CapKey(request.chain, CapToken(request)); capKey in s.tokenCaps ==> request.amount <= s.tokenCaps[capKey])
    then Some(s.templates[templateKey]) else None
  }

  // EVM payloads.

  function EvmData(params: EvmTxParams): Option<bytes> {
    if params.data.None? || params.data.value == "" then Some([]) else HexDecode(StripHexPrefix(params.data.value))
  }

  const EIP712_DIGEST := "eip712-digest:"

  predicate MemoStarts(request: TemplateSignRequest, prefix: string) {
    request.memo.Some? && StartsWith(request.memo.value, prefix)
  }

  /** `parse_eip712_digest_memo`. */
  function DigestMemo(memo: string): Option<bytes>
    requires StartsWith(memo, EIP712_DIGEST)
  {
    var hex := StripHexPrefix(memo[|EIP712_DIGEST|..]);
    if |hex| != 64 then None else HexDecode(hex)
  }

  /** The transaction an EVM request describes, when it is not one of the memo-driven digests. */
  function EvmTransaction(request: TemplateSignRequest): Option<Eip1559.Transaction> {
    var chainText :- request.evmChainId;
    var chainId :- ParseUnsigned(chainText, U64_LIMIT);
    var params :- request.evmTxParams;
    var to :- EvmAddress(request.to);
    var data :- EvmData(params);
    Some(Eip1559.Transaction(chainId, params.nonce, params.maxPriorityFeePerGas, params.maxFeePerGas, params.gasLimit,
                             to, request.amount, data))
  }

  /** What an EVM signature is made over: the hash of bytes the contract builds, or a digest it was given. */
  datatype Signed = Hashed(preimage: bytes) | Given(digest: bytes)

  /** None is a panic. */
  function EvmSigned(p: Platform, request: TemplateSignRequest): Option<Signed> {
    var chainText :- request.evmChainId;
    var chainId :- ParseUnsigned(chainText, U64_LIMIT);
    if MemoStarts(request, EIP712_DIGEST) then
      var digest :- DigestMemo(request.memo.value);
      Some(Given(digest))
    else if MemoStarts(request, Eip3009.EIP3009) then
      var authorization :- Eip3009.FromMemo(p, request.memo.value, chainId, request.to, request.amount);
      Some(Hashed(Eip3009.DigestInput(p, authorization)))
    else
      var tx :- EvmTransaction(request);
      Some(Hashed(Eip1559.Envelope(tx)))
  }

  /** The digest sent for signing on EVM. */
  function EvmDigest(p: Platform, request: TemplateSignRequest): Option<bytes> {
    hide EvmSigned;
    var what :- EvmSigned(p, request);
    match what
    case Hashed(preimage) => Some(p.keccak256(preimage))
    case Given(digest) => Some(digest)
  }

  lemma EvmTransactionValid(request: TemplateSignRequest)
    requires request.Valid() && EvmTransaction(request).Some?
    ensures EvmTransaction(request).value.Valid()
  {
  }

  /** Two transaction requests whose preimages agree ask for the same transfer on the same chain. */
  lemma SamePreimageSameRequest(a: TemplateSignRequest, b: TemplateSignRequest)
    requires a.Valid() && b.Valid() && EvmTransaction(a).Some? && EvmTransaction(b).Some?
    requires Eip1559.Envelope(EvmTransaction(a).value) == Eip1559.Envelope(EvmTransaction(b).value)
    ensures a.amount == b.amount && EvmAddress(a.to) == EvmAddress(b.to)
    ensures ParseUnsigned(a.evmChainId.value, U64_LIMIT) == ParseUnsigned(b.evmChainId.value, U64_LIMIT)
    ensures a.evmTxParams.value.nonce == b.evmTxParams.value.nonce
    ensures EvmData(a.evmTxParams.value) == EvmData(b.evmTxParams.value)
  {
    hide Eip1559.Envelope;
    EvmTransactionValid(a);
    EvmTransactionValid(b);
    Eip1559.EnvelopeInjective(EvmTransaction(a).value, EvmTransaction(b).value);
  }
}
