/**
 What the signature of an EVM template request covers, and which of its fields the checks bind. The
 checks read the template, path, recipient, amount and token; what is signed is built from the chain,
 recipient, amount, memo and transaction fields.
 */
module EvmSigning {
  import opened Basics
  import opened Text
  import opened Library
  import opened ContractState
  import opened RawSigning
  import opened TemplateSigning
  import opened Transitions
  import Eip1559
  import Eip3009
  import Base58

  /** The outcome of a request that passed every check, for what it asks to have signed. */
  function SignedOutcome(p: Platform, s: State, ctx: Context, r: TemplateSignRequest): Option<Outcome> {
    hide EvmDigest;
    var digest :- EvmDigest(p, r);
    Some(Outcome(s, Some(Sign(MpcPath(ctx.predecessor, r.derivationPath), digest, "Ecdsa", 0)), 0))
  }

  /** The bytes a call asks the MPC network to sign, if it does. */
  function Payload(outcome: Option<Outcome>): Option<bytes> {
    var o :- outcome;
    var promise :- o.promise;
    if promise.Sign? then Some(promise.payload) else None
  }

  lemma EvmApplied(p: Platform, s: State, ctx: Context, id: string, r: TemplateSignRequest)
    requires r.chain == Evm
    ensures Apply(p, s, ctx, RequestTemplateSignV2(id, r)) ==
            if NewRequestId(s, id) && CheckTemplate(s, ctx, r).Some? then SignedOutcome(p, s, ctx, r) else None
  {
    hide EvmDigest, CheckTemplate, MpcPath;
  }

  lemma SignedFieldsNotChecked(s: State, ctx: Context, r: TemplateSignRequest, chainId: Option<string>, memo: Option<string>,
                               params: Option<EvmTxParams>)
    ensures CheckTemplate(s, ctx, r.(evmChainId := chainId, memo := memo, evmTxParams := params)) == CheckTemplate(s, ctx, r)
  {
    hide IsAllowed, LimitUnits, EqIgnoreAsciiCase, ComposeKey, CapKey, TemplateKey, Base58.Encode, Trim;
    var changed := r.(evmChainId := chainId, memo := memo, evmTxParams := params);
    forall template, key
      ensures PolicyAllowsTemplate(r.chain, template, changed, s.apiKeyPolicies, key) ==
              PolicyAllowsTemplate(r.chain, template, r, s.apiKeyPolicies, key)
    {
    }
  }

  /**
   No check reads the chain id, the memo or the transaction fields. So wherever an EVM request is
   accepted, the same request with any others is accepted exactly when there is something to sign, and
   that is what is signed.
   */
  lemma AcceptedWithOtherFields(p: Platform, s: State, ctx: Context, id: string, r: TemplateSignRequest, chainId: Option<string>,
                                memo: Option<string>, params: Option<EvmTxParams>)
    requires r.chain == Evm && Apply(p, s, ctx, RequestTemplateSignV2(id, r)).Some?
    ensures var changed := r.(evmChainId := chainId, memo := memo, evmTxParams := params);
            Apply(p, s, ctx, RequestTemplateSignV2(id, changed)) == SignedOutcome(p, s, ctx, changed)
  {
    hide Apply, CheckTemplate, SignedOutcome;
    EvmApplied(p, s, ctx, id, r);
    EvmApplied(p, s, ctx, id, r.(evmChainId := chainId, memo := memo, evmTxParams := params));
    SignedFieldsNotChecked(s, ctx, r, chainId, memo, params);
  }

  /**
   Conversely, what is signed reads nothing but those fields, the recipient and the amount. Requests
   that agree on them sign the same, whatever their templates, paths and tokens are, and whatever
   templates, policies and caps admit them.
   */
  lemma SignedIgnoresToken(p: Platform, s: State, ctx: Context, id: string, a: TemplateSignRequest,
                           t: State, other: Context, otherId: string, b: TemplateSignRequest)
    requires a.chain == b.chain == Evm && a.to == b.to && a.amount == b.amount
    requires a.evmChainId == b.evmChainId && a.memo == b.memo && a.evmTxParams == b.evmTxParams
    requires Apply(p, s, ctx, RequestTemplateSignV2(id, a)).Some? && Apply(p, t, other, RequestTemplateSignV2(otherId, b)).Some?
    ensures EvmSigned(p, a) == EvmSigned(p, b)
    ensures var payload := Payload(Apply(p, s, ctx, RequestTemplateSignV2(id, a)));
            payload.Some? && payload == Payload(Apply(p, t, other, RequestTemplateSignV2(otherId, b)))
  {
    hide Apply, CheckTemplate, EvmSigned, MpcPath;
    SameFieldsSameSigned(p, a, b);
    EvmApplied(p, s, ctx, id, a);
    EvmApplied(p, t, other, otherId, b);
  }

  lemma SameFieldsSameSigned(p: Platform, a: TemplateSignRequest, b: TemplateSignRequest)
    requires a.to == b.to && a.amount == b.amount
    requires a.evmChainId == b.evmChainId && a.memo == b.memo && a.evmTxParams == b.evmTxParams
    ensures EvmSigned(p, a) == EvmSigned(p, b)
  {
    hide ParseUnsigned, EvmAddress, EvmData, Eip3009.FromMemo, Eip3009.DigestInput, Eip1559.Envelope;
  }

  // The three things that can be signed.

  /** The transaction has the chain, recipient, amount, nonce, fees and data of the request. */
  predicate Describes(tx: Eip1559.Transaction, r: TemplateSignRequest) {
    tx.value == r.amount && Some(tx.to) == EvmAddress(r.to) && r.evmChainId.Some? && r.evmTxParams.Some? &&
    Some(tx.chainId) == ParseUnsigned(r.evmChainId.value, U64_LIMIT) &&
    var params := r.evmTxParams.value;
    tx.nonce == params.nonce && tx.gasLimit == params.gasLimit && tx.maxFee == params.maxFeePerGas &&
    tx.maxPriorityFee == params.maxPriorityFeePerGas && Some(tx.data) == EvmData(params)
  }

  /** The authorization has the chain, recipient and amount of the request; the rest is the memo's. */
  predicate Authorizes(p: Platform, a: Eip3009.Authorization, r: TemplateSignRequest)
    requires MemoStarts(r, Eip3009.EIP3009)
  {
    a.value == r.amount && Some(a.to) == EvmAddress(r.to) && r.evmChainId.Some? &&
    Some(a.chainId) == ParseUnsigned(r.evmChainId.value, U64_LIMIT) &&
    Eip3009.FromMemo(p, r.memo.value, a.chainId, r.to, r.amount) == Some(a)
  }

  /**
   What an accepted EVM template request signs, in every case: with `eip712-digest:` the memo's 32
   bytes; with `x402-eip3009:` the digest of an authorization of the requested amount to the requested
   recipient, of the token and from the sender the memo names; otherwise the digest of a transaction
   with the request's own fields.
   */
  lemma EvmTemplateSound(p: Platform, s: State, ctx: Context, id: string, r: TemplateSignRequest)
    requires r.Valid() && r.chain == Evm
    requires Apply(p, s, ctx, RequestTemplateSignV2(id, r)).Some?
    ensures var promise := Apply(p, s, ctx, RequestTemplateSignV2(id, r)).value.promise;
            promise.Some? && promise.value.Sign? && promise.value.keyType == "Ecdsa" && promise.value.domainId == 0 &&
            if MemoStarts(r, EIP712_DIGEST) then
              |promise.value.payload| == 32 && HexDecode(StripHexPrefix(r.memo.value[|EIP712_DIGEST|..])) == Some(promise.value.payload)
            else if MemoStarts(r, Eip3009.EIP3009) then
              exists a: Eip3009.Authorization ::
                a.Valid() && promise.value.payload == p.keccak256(Eip3009.DigestInput(p, a)) && Authorizes(p, a, r)
            else
              exists tx: Eip1559.Transaction ::
                tx.Valid() && promise.value.payload == p.keccak256(Eip1559.Envelope(tx)) && Describes(tx, r)
  {
    hide Apply, CheckTemplate, Eip1559.Envelope, HexDecode, EvmData, EvmAddress, ParseUnsigned, StripHexPrefix, Eip3009.FromMemo,
         Eip3009.DigestInput, EvmTransaction, Authorizes, Describes;
    EvmApplied(p, s, ctx, id, r);
    if !MemoStarts(r, EIP712_DIGEST) {
      if MemoStarts(r, Eip3009.EIP3009) {
        var a := AuthorizationSigned(p, r);
      } else {
        var tx := TransactionSigned(p, r);
      }
    }
  }

  lemma AuthorizationSigned(p: Platform, r: TemplateSignRequest) returns (a: Eip3009.Authorization)
    requires r.Valid() && MemoStarts(r, Eip3009.EIP3009) && !MemoStarts(r, EIP712_DIGEST) && EvmSigned(p, r).Some?
    ensures EvmSigned(p, r) == Some(Hashed(Eip3009.DigestInput(p, a))) && a.Valid() && Authorizes(p, a, r)
  {
    hide Eip3009.DigestInput, EvmTransaction, HexDecode, StripHexPrefix, EvmAddress;
    var chainId := ParseUnsigned(r.evmChainId.value, U64_LIMIT).value;
    a := Eip3009.FromMemo(p, r.memo.value, chainId, r.to, r.amount).value;
    Eip3009.FromMemoValid(p, r.memo.value, chainId, r.to, r.amount);
  }

  lemma TransactionSigned(p: Platform, r: TemplateSignRequest) returns (tx: Eip1559.Transaction)
    requires r.Valid() && !MemoStarts(r, Eip3009.EIP3009) && !MemoStarts(r, EIP712_DIGEST) && EvmSigned(p, r).Some?
    ensures EvmTransaction(r) == Some(tx) && EvmSigned(p, r) == Some(Hashed(Eip1559.Envelope(tx))) && tx.Valid() && Describes(tx, r)
  {
    hide Eip1559.Envelope, HexDecode, StripHexPrefix, EvmAddress;
    EvmTransactionValid(r);
    tx := EvmTransaction(r).value;
  }

  // When it is the transfer that was checked.

  /** No calldata, as the contract reads it. */
  predicate NoCalldata(r: TemplateSignRequest) {
    r.evmTxParams.Some? && (r.evmTxParams.value.data.None? || r.evmTxParams.value.data.value in ["", "0x"])
  }

  /** The hashed bytes are the envelope of a transaction that moves the amount to the recipient and does nothing else. */
  ghost predicate SignsPlainTransfer(p: Platform, r: TemplateSignRequest) {
    exists tx: Eip1559.Transaction :: tx.Valid() && EvmSigned(p, r) == Some(Hashed(Eip1559.Envelope(tx))) &&
      tx.value == r.amount && Some(tx.to) == EvmAddress(r.to) && tx.data == []
  }

  /**
   An accepted request signs the plain transfer of the checked amount to the checked recipient if and
   only if its memo has neither prefix and it has no calldata.
   */
  lemma PlainTransferIff(p: Platform, s: State, ctx: Context, id: string, r: TemplateSignRequest)
    requires r.Valid() && r.chain == Evm
    requires Apply(p, s, ctx, RequestTemplateSignV2(id, r)).Some?
    ensures SignsPlainTransfer(p, r) <==>
            !MemoStarts(r, EIP712_DIGEST) && !MemoStarts(r, Eip3009.EIP3009) && NoCalldata(r)
  {
    hide Apply, CheckTemplate, Eip1559.Envelope, HexDecode, EvmData, EvmAddress, ParseUnsigned, StripHexPrefix, Eip3009.FromMemo,
         Eip3009.DigestInput, EvmTransaction, NoCalldata;
    EvmApplied(p, s, ctx, id, r);
    if !MemoStarts(r, EIP712_DIGEST) {
      if MemoStarts(r, Eip3009.EIP3009) {
        var a := AuthorizationSigned(p, r);
        forall tx: Eip1559.Transaction ensures Eip3009.DigestInput(p, a) != Eip1559.Envelope(tx) {
          EnvelopeIsNoAuthorization(p, a, tx);
        }
      } else {
        var tx := TransactionSigned(p, r);
        NoCalldataIff(r);
        forall other: Eip1559.Transaction | other.Valid() && Eip1559.Envelope(other) == Eip1559.Envelope(tx) ensures other == tx {
          Eip1559.EnvelopeInjective(other, tx);
        }
      }
    }
  }

  /** An envelope starts with another byte than an authorization's preimage. */
  lemma EnvelopeIsNoAuthorization(p: Platform, a: Eip3009.Authorization, tx: Eip1559.Transaction)
    ensures Eip3009.DigestInput(p, a) != Eip1559.Envelope(tx)
  {
    assert Eip3009.DigestInput(p, a)[0] == 0x19 && Eip1559.Envelope(tx)[0] == 0x02;
  }

  lemma NoCalldataIff(r: TemplateSignRequest)
    requires r.evmTxParams.Some?
    ensures EvmData(r.evmTxParams.value) == Some([]) <==> NoCalldata(r)
  {
    var data := r.evmTxParams.value.data;
    if data.Some? && EvmData(r.evmTxParams.value) == Some([]) && data.value != "" {
      assert StripHexPrefix(data.value) == "";
      assert data.value == "0x";
    }
  }

  // Which it need not be.

  /** With `eip712-digest:` and any 32 bytes in hexadecimal as the memo, exactly those are signed. */
  lemma MemoDigestSigned(p: Platform, s: State, ctx: Context, id: string, r: TemplateSignRequest, digest: bytes)
    requires r.chain == Evm && Apply(p, s, ctx, RequestTemplateSignV2(id, r)).Some? && |digest| == 32
    ensures Apply(p, s, ctx, RequestTemplateSignV2(id, r.(memo := Some(EIP712_DIGEST + HexText(digest))))) ==
            Some(Outcome(s, Some(Sign(MpcPath(ctx.predecessor, r.derivationPath), digest, "Ecdsa", 0)), 0))
  {
    hide Apply, HexText, CheckTemplate, EvmDigest, MpcPath;
    var memo := EIP712_DIGEST + HexText(digest);
    EvmApplied(p, s, ctx, id, r);
    AcceptedWithOtherFields(p, s, ctx, id, r, r.evmChainId, Some(memo), r.evmTxParams);
    MemoDigest(p, r, digest);
  }

  lemma MemoDigest(p: Platform, r: TemplateSignRequest, digest: bytes)
    requires EvmDigest(p, r).Some? && |digest| == 32
    ensures EvmDigest(p, r.(memo := Some(EIP712_DIGEST + HexText(digest)))) == Some(digest)
  {
    hide HexText, HexDecode, ParseUnsigned, EvmTransaction, StripHexPrefix, Eip3009.FromMemo, DigestMemo;
    PrefixCut(EIP712_DIGEST, HexText(digest));
    HexRoundTrip(digest);
    HexTextPlain(digest);
    DigestRead(HexText(digest), digest);
  }

  lemma PrefixCut(prefix: string, rest: string)
    ensures StartsWith(prefix + rest, prefix) && (prefix + rest)[|prefix|..] == rest
  {
  }

  lemma DigestRead(text: string, digest: bytes)
    requires |digest| == 32 && |text| == 64 && StripHexPrefix(text) == text && HexDecode(text) == Some(digest)
    ensures DigestMemo(EIP712_DIGEST + text) == Some(digest)
  {
    hide HexDecode, StripHexPrefix;
    PrefixCut(EIP712_DIGEST, text);
  }

  /** With `x402-eip3009:` any memo that reads as an authorization is signed; its token and sender are not checked. */
  lemma MemoAuthorizationSigned(p: Platform, s: State, ctx: Context, id: string, r: TemplateSignRequest, text: string)
    requires r.chain == Evm && Apply(p, s, ctx, RequestTemplateSignV2(id, r)).Some?
    requires r.evmChainId.Some? && ParseUnsigned(r.evmChainId.value, U64_LIMIT).Some?
    ensures var a := Eip3009.FromMemo(p, Eip3009.EIP3009 + text, ParseUnsigned(r.evmChainId.value, U64_LIMIT).value, r.to, r.amount);
            Apply(p, s, ctx, RequestTemplateSignV2(id, r.(memo := Some(Eip3009.EIP3009 + text)))) ==
            if a.None? then None
            else Some(Outcome(s, Some(Sign(MpcPath(ctx.predecessor, r.derivationPath),
                                           p.keccak256(Eip3009.DigestInput(p, a.value)), "Ecdsa", 0)), 0))
  {
    hide Apply, CheckTemplate, MpcPath, Eip3009.FromMemo, Eip3009.DigestInput, ParseUnsigned, EvmTransaction, HexDecode, StripHexPrefix;
    var memo := Eip3009.EIP3009 + text;
    AcceptedWithOtherFields(p, s, ctx, id, r, r.evmChainId, Some(memo), r.evmTxParams);
    assert memo[0] == 'x' && EIP712_DIGEST[0] == 'e';
  }

  /**
   With neither prefix, any calldata is signed: it is a field of the transaction that no check reads,
   although what a call moves, and to whom, is said by its calldata.
   */
  lemma AnyCalldataSigned(p: Platform, s: State, ctx: Context, id: string, r: TemplateSignRequest, data: bytes)
    requires r.chain == Evm && !MemoStarts(r, EIP712_DIGEST) && !MemoStarts(r, Eip3009.EIP3009)
    requires Apply(p, s, ctx, RequestTemplateSignV2(id, r)).Some?
    ensures r.evmTxParams.Some? && EvmTransaction(r).Some?
    ensures Apply(p, s, ctx, RequestTemplateSignV2(id, WithData(r, data))) ==
            Some(Outcome(s, Some(Sign(MpcPath(ctx.predecessor, r.derivationPath),
                                      p.keccak256(Eip1559.Envelope(EvmTransaction(r).value.(data := data))), "Ecdsa", 0)), 0))
  {
    hide Apply, CheckTemplate, MpcPath, Eip1559.Envelope, HexDecode, HexText, StripHexPrefix, EvmAddress, ParseUnsigned;
    EvmApplied(p, s, ctx, id, r);
    assert EvmTransaction(r).Some?;
    AcceptedWithOtherFields(p, s, ctx, id, r, r.evmChainId, r.memo, WithData(r, data).evmTxParams);
    CalldataRead(r, data);
  }

  /** The request with this calldata, in hexadecimal. */
  function WithData(r: TemplateSignRequest, data: bytes): TemplateSignRequest
    requires r.evmTxParams.Some?
  {
    r.(evmTxParams := Some(r.evmTxParams.value.(data := Some(HexText(data)))))
  }

  lemma CalldataRead(r: TemplateSignRequest, data: bytes)
    requires r.evmTxParams.Some?
    ensures EvmData(WithData(r, data).evmTxParams.value) == Some(data)
  {
    hide HexDecode, HexText, StripHexPrefix;
    HexRoundTrip(data);
    HexTextPlain(data);
  }
}
