/** The contract's stored state, its requests, and the keys it stores things under. */
module ContractState {
  import opened Basics
  import opened Text
  import opened ApiKeyPolicy
  import Base58

  /** NEAR account ids: lower-case letters, digits, '-', '_' and '.'. */
  predicate AccountChar(c: char) {
    'a' <= c <= 'z' || '0' <= c <= '9' || c == '-' || c == '_' || c == '.'
  }

  predicate IsAccountId(a: string) {
    2 <= |a| <= 64 && forall i :: 0 <= i < |a| ==> AccountChar(a[i])
  }

  type AccountId = a: string | IsAccountId(a) witness "aa"

  datatype Chain = Solana | Evm | Bitcoin | Near

  datatype ChainPaths = ChainPaths(chain: Chain, paths: seq<string>)

  datatype TxKind = SolanaNative | SolanaSpl | SolanaToken2022 | EvmNative | EvmErc20 | BitcoinSend

  datatype TxTemplate = TxTemplate(templateId: string, chain: Chain, kind: TxKind, allowedTokens: Option<seq<string>>)

  datatype SignRequest = SignRequest(chain: Chain, derivationPath: string, payload: bytes, memo: Option<string>)

  datatype EvmTxParams = EvmTxParams(nonce: nat, gasLimit: nat, maxFeePerGas: nat, maxPriorityFeePerGas: nat, data: Option<string>)
  {
    predicate Valid() {
      nonce < U64_LIMIT && gasLimit < U64_LIMIT && maxFeePerGas < U128_LIMIT && maxPriorityFeePerGas < U128_LIMIT
    }
  }

  datatype TemplateSignRequest = TemplateSignRequest(
    templateId: string,
    chain: Chain,
    derivationPath: string,
    to: string,
    amount: nat,
    tokenContract: Option<string>,
    evmChainId: Option<string>,
    memo: Option<string>,
    evmTxParams: Option<EvmTxParams>)
  {
    /** The widths the request's types have. */
    predicate Valid() {
      amount < U128_LIMIT && (evmTxParams.Some? ==> evmTxParams.value.Valid()) &&
      (evmTxParams.Some? && evmTxParams.value.data.Some? ==> |evmTxParams.value.data.value| < U32_LIMIT)
    }
  }

  datatype SignResult = SignResult(requestId: string, ok: bool, payload: Option<bytes>, error: Option<string>)

  datatype Grant = Grant(canManagePolicies: bool, canManageSelfPolicy: bool)

  datatype State = State(
    owner: AccountId,
    mpc: AccountId,
    subkeys: map<string, seq<ChainPaths>>,
    subkeyIndex: map<AccountId, seq<string>>,
    templates: map<string, TxTemplate>,
    tokenCaps: map<string, nat>,
    signResults: map<string, SignResult>,
    policyManagers: map<string, Grant>,
    apiKeyPolicies: map<string, Policy>)

  /** Who calls, who signed the transaction with which key, and when (block time in nanoseconds). */
  datatype Context = Context(predecessor: AccountId, signer: AccountId, signerKey: bytes, timestamp: nat) {
    predicate Direct() {
      predecessor == signer
    }

    function Seconds(): nat {
      timestamp / 1_000_000_000
    }

    /** The storage key of the caller's signing key. */
    function SignerStorageKey(): string {
      ComposeKey(predecessor, Base58.Encode(signerKey))
    }
  }

  function ComposeKey(account: AccountId, pk: string): string {
    account + "|" + pk
  }

  function ChainKey(chain: Chain): string {
    match chain
    case Solana => "solana"
    case Evm => "evm"
    case Bitcoin => "bitcoin"
    case Near => "near"
  }

  function TemplateKey(chain: Chain, templateId: string): string {
    ChainKey(chain) + "|" + templateId
  }

  function CapKey(chain: Chain, token: string): string {
    ChainKey(chain) + "|" + token
  }

  /** The path under which the MPC contract derives a key for a caller. */
  function MpcPath(caller: AccountId, derivationPath: string): string {
    caller + ":" + derivationPath
  }

  predicate ValidPath(path: string) {
    path != "" && ':' !in path
  }

  lemma AccountHasNoSeparators(a: AccountId)
    ensures '|' !in a && ':' !in a
  {
    assert forall c :: c in a ==> AccountChar(c);
  }

  /** A storage key belongs to one account and one public key. */
  lemma ComposeKeyInjective(a: AccountId, x: string, b: AccountId, y: string)
    requires ComposeKey(a, x) == ComposeKey(b, y)
    ensures a == b && x == y
  {
    AccountHasNoSeparators(a);
    AccountHasNoSeparators(b);
    FirstSeparatorUnique(a, x, '|', b, y);
  }

  /** Distinct accounts or keys never share a storage key. */
  lemma StorageKeysDistinct(a: AccountId, k: bytes, b: AccountId, l: bytes)
    requires ComposeKey(a, Base58.Encode(k)) == ComposeKey(b, Base58.Encode(l))
    ensures a == b && k == l
  {
    ComposeKeyInjective(a, Base58.Encode(k), b, Base58.Encode(l));
    Base58.EncodeInjective(k, l);
  }

  /** An MPC path determines the caller and the derivation path, so no caller can name another's keys. */
  lemma MpcPathInjective(a: AccountId, p: string, b: AccountId, q: string)
    requires MpcPath(a, p) == MpcPath(b, q)
    ensures a == b && p == q
  {
    AccountHasNoSeparators(a);
    AccountHasNoSeparators(b);
    FirstSeparatorUnique(a, p, ':', b, q);
  }

  /** Templates and caps of different chains, ids or tokens never share a key. */
  lemma TemplateKeyInjective(c: Chain, s: string, d: Chain, t: string)
    requires TemplateKey(c, s) == TemplateKey(d, t)
    ensures c == d && s == t
  {
    FirstSeparatorUnique(ChainKey(c), s, '|', ChainKey(d), t);
  }
}
