/**
 A run of the contract in which everything that is checked says that nothing moves: the stored policy
 limits the key to amount 0 and to one contract, and so does the owner's cap, and the request asks for
 amount 0 to that contract. What is signed still carries any calldata.
 */
module CalldataRun {
  import opened Basics
  import opened Text
  import opened Decimal
  import opened Library
  import opened ApiKeyPolicy
  import opened ByteOrder
  import opened ContractState
  import opened RawSigning
  import opened TemplateSigning
  import opened Transitions
  import opened ContractRuns
  import opened EvmSigning
  import Eip1559
  import Eip3009
  import Base58

  const NATIVE_TEMPLATE := "evm_native_transfer_v1"
  const TOKEN_DIGITS := "1111111111111111111111111111111111111111"
  const TOKEN := "0x" + TOKEN_DIGITS

  const ZERO_TO_TOKEN: Policy :=
    Policy("1", NATIVE_TEMPLATE, "native", None, Some("0"), None, None, None, [TOKEN], None, None, None)

  const TEMPLATE: TxTemplate := TxTemplate(NATIVE_TEMPLATE, Evm, EvmNative, None)

  const REQUEST: TemplateSignRequest :=
    TemplateSignRequest(NATIVE_TEMPLATE, Evm, "0", TOKEN, 0, None, Some("1"), None, Some(EvmTxParams(0, 100_000, 1, 1, None)))

  function Owner(owner: AccountId): Context {
    Context(owner, owner, [2], 0)
  }

  function StoreTemplate(owner: AccountId): Step {
    External(Owner(owner), SetTemplate(TEMPLATE))
  }

  function CapAtZero(owner: AccountId): Step {
    External(Owner(owner), SetTokenCap(Evm, None, 0))
  }

  function AddKey(): Step {
    External(CALLER, AddSubkey([1], [ChainPaths(Evm, ["0"])]))
  }

  function SetPolicy(): Step {
    External(CALLER, OwnerSetSignerPolicy([1], ZERO_TO_TOKEN))
  }

  function Setup(owner: AccountId): seq<Step> {
    [StoreTemplate(owner)] + [CapAtZero(owner)] + [AddKey()] + [SetPolicy()]
  }

  predicate OwnerDone(s: State) {
    TemplateKey(Evm, NATIVE_TEMPLATE) in s.templates && s.templates[TemplateKey(Evm, NATIVE_TEMPLATE)] == TEMPLATE &&
    CapKey(Evm, NATIVE_TOKEN) in s.tokenCaps && s.tokenCaps[CapKey(Evm, NATIVE_TOKEN)] == 0
  }

  predicate KeyDone(s: State) {
    var key := CALLER.SignerStorageKey();
    key in s.subkeys && s.subkeys[key] == [ChainPaths(Evm, ["0"])]
  }

  /** The template, the cap, the key's path and its policy are stored, and no results. */
  predicate Ready(s: State) {
    OwnerDone(s) && KeyDone(s) && s.signResults == map[] &&
    CALLER.SignerStorageKey() in s.apiKeyPolicies && s.apiKeyPolicies[CALLER.SignerStorageKey()] == ZERO_TO_TOKEN
  }

  lemma TemplateStored(p: Platform, owner: AccountId, w: World)
    requires w.state.owner == owner && w.state.signResults == map[]
    ensures var s := Next(p, w, StoreTemplate(owner)).state;
            s.owner == owner && s.signResults == map[] &&
            TemplateKey(Evm, NATIVE_TEMPLATE) in s.templates && s.templates[TemplateKey(Evm, NATIVE_TEMPLATE)] == TEMPLATE
  {
    hide TemplateKey;
  }

  lemma OwnerSets(p: Platform, owner: AccountId, w: World)
    requires w.state.owner == owner && w.state.signResults == map[]
    requires TemplateKey(Evm, NATIVE_TEMPLATE) in w.state.templates && w.state.templates[TemplateKey(Evm, NATIVE_TEMPLATE)] == TEMPLATE
    ensures var s := Next(p, w, CapAtZero(owner)).state; OwnerDone(s) && s.signResults == map[]
  {
    hide TemplateKey, CapKey;
  }

  lemma KeyAdded(p: Platform, w: World)
    requires OwnerDone(w.state) && w.state.signResults == map[]
    ensures var s := Next(p, w, AddKey()).state; OwnerDone(s) && KeyDone(s) && s.signResults == map[]
  {
    hide ComposeKey, Base58.Encode, Index, Pushed, TemplateKey, CapKey;
  }

  lemma PolicySet(p: Platform, w: World)
    requires p.lowercase("native") == "native"
    requires OwnerDone(w.state) && KeyDone(w.state) && w.state.signResults == map[]
    ensures Ready(Next(p, w, SetPolicy()).state)
  {
    hide ComposeKey, Base58.Encode, Normalize, OwnerDone;
    ZeroToTokenNormal(p);
    OwnerDoneKept(w.state, Next(p, w, SetPolicy()).state);
  }

  lemma OwnerDoneKept(s: State, t: State)
    requires OwnerDone(s) && t.templates == s.templates && t.tokenCaps == s.tokenCaps
    ensures OwnerDone(t)
  {
  }

  lemma ZeroToTokenNormal(p: Platform)
    requires p.lowercase("native") == "native"
    ensures Normalize(p, ZERO_TO_TOKEN) == Some(ZERO_TO_TOKEN)
  {
    hide Trim, ParseAmount, Pow;
    forall s | s in {"1", NATIVE_TEMPLATE, "native", "0", TOKEN} ensures Trim(s) == s {
      TrimIsTrimmed(s);
    }
    ZeroReads(18);
    assert TrimAll([]) == [] && [TOKEN][1..] == [];
    assert TrimAll([TOKEN]) == [TOKEN];
  }

  lemma ZeroReads(decimals: nat)
    requires decimals == 18
    ensures ParseAmount("0", decimals) == Some(0)
  {
    hide Trim, ParseAmount, Pow;
    TrimIsTrimmed("0");
    ParseNumeral("0", Whole("0"), decimals);
    TenToThe18();
    assert Value("0") == 0 by {
      assert "0"[..0] == "";
    }
  }

  lemma SetupReady(p: Platform, owner: AccountId, mpc: AccountId)
    requires p.lowercase("native") == "native"
    ensures Ready(Run(p, Fresh(owner, mpc), Setup(owner)).state)
  {
    hide Next, Ready, OwnerDone, KeyDone, StoreTemplate, CapAtZero, AddKey, SetPolicy;
    var w := Fresh(owner, mpc);
    assert [] + [StoreTemplate(owner)] == [StoreTemplate(owner)];
    RunSnoc(p, w, [], StoreTemplate(owner));
    RunSnoc(p, w, [StoreTemplate(owner)], CapAtZero(owner));
    RunSnoc(p, w, [StoreTemplate(owner)] + [CapAtZero(owner)], AddKey());
    RunSnoc(p, w, [StoreTemplate(owner)] + [CapAtZero(owner)] + [AddKey()], SetPolicy());
    TemplateStored(p, owner, w);
    OwnerSets(p, owner, Run(p, w, [StoreTemplate(owner)]));
    KeyAdded(p, Run(p, w, [StoreTemplate(owner)] + [CapAtZero(owner)]));
    PolicySet(p, Run(p, w, [StoreTemplate(owner)] + [CapAtZero(owner)] + [AddKey()]));
  }

  // The request.

  lemma RequestChecked(s: State)
    requires Ready(s)
    ensures CheckTemplate(s, CALLER, REQUEST).Some?
  {
    hide ComposeKey, Base58.Encode, TemplateKey, CapKey, Trim, ParseAmount, IsAllowed;
    PathAllowed();
    ZeroReads(18);
    TrimIsTrimmed("native");
    assert TOKEN in [TOKEN];
  }

  lemma PathAllowed()
    ensures IsAllowed([ChainPaths(Evm, ["0"])], Evm, "0")
  {
    var entries := [ChainPaths(Evm, ["0"])];
    assert entries[0].chain == Evm && entries[0].paths[0] == "0";
  }

  /** Hexadecimal digits in pairs can be decoded. */
  lemma {:induction false} HexDecodes(text: string)
    requires |text| % 2 == 0 && forall i :: 0 <= i < |text| ==> HexDigit(text[i]).Some?
    ensures HexDecode(text).Some?
  {
    if text != "" {
      HexDecodes(text[2..]);
    }
  }

  lemma TokenAddress()
    ensures EvmAddress(TOKEN).Some?
  {
    hide HexDecode;
    assert StripHexPrefix(TOKEN) == TOKEN_DIGITS;
    HexDecodes(TOKEN_DIGITS);
  }

  lemma ChainOne()
    ensures ParseUnsigned("1", U64_LIMIT) == Some(1)
  {
    assert Value("1") == 1 by {
      assert "1"[..0] == "";
    }
    DigitsParse("1");
  }

  lemma RequestSigned()
    ensures EvmTransaction(REQUEST).Some?
    ensures EvmTransaction(REQUEST) == Some(Eip1559.Transaction(1, 0, 1, 1, 100_000, EvmAddress(TOKEN).value, 0, []))
  {
    hide EvmAddress, ParseUnsigned, HexDecode;
    TokenAddress();
    ChainOne();
  }

  lemma RequestAccepted(p: Platform, s: State, id: string)
    requires Ready(s) && id != ""
    ensures Apply(p, s, CALLER, RequestTemplateSignV2(id, REQUEST)).Some?
  {
    hide Apply, CheckTemplate, EvmTransaction, Eip1559.Envelope, MpcPath;
    RequestChecked(s);
    RequestSigned();
    ChainOne();
    EvmApplied(p, s, CALLER, id, REQUEST);
  }

  /** A call of the token's `transfer(address,uint256)`. */
  function TransferCall(recipient: bytes, units: nat): bytes {
    [0xa9, 0x05, 0x9c, 0xbb] + (Eip3009.AddressWord(recipient) + BigEndian(units, 32))
  }

  /**
   From a new contract, with a policy and a cap that allow amount 0 only, and to the token's contract
   only, a request for amount 0 to it is accepted whose calldata transfers any number of tokens to any
   recipient, and the digest of exactly that transaction is sent for signing.
   */
  lemma CheckedAmountIsNotWhatMoves(p: Platform, owner: AccountId, mpc: AccountId, id: string, recipient: bytes, units: nat)
    requires p.lowercase("native") == "native" && id != "" && |recipient| == 20
    ensures var w := Run(p, Fresh(owner, mpc), Setup(owner));
            var key, data := CALLER.SignerStorageKey(), TransferCall(recipient, units);
            key in w.state.apiKeyPolicies && w.state.apiKeyPolicies[key] == ZERO_TO_TOKEN &&
            CapKey(Evm, NATIVE_TOKEN) in w.state.tokenCaps && w.state.tokenCaps[CapKey(Evm, NATIVE_TOKEN)] == 0 &&
            EvmAddress(TOKEN).Some? &&
            Payload(Apply(p, w.state, CALLER, RequestTemplateSignV2(id, WithData(REQUEST, data)))) ==
            Some(p.keccak256(Eip1559.Envelope(
              Eip1559.Transaction(1, 0, 1, 1, 100_000, EvmAddress(TOKEN).value, 0, data))))
  {
    hide Apply, Run, Eip1559.Envelope, MpcPath, EvmAddress, EvmTransaction, CapKey, ComposeKey, Base58.Encode, TransferCall, Setup;
    var s := Run(p, Fresh(owner, mpc), Setup(owner)).state;
    SetupReady(p, owner, mpc);
    RequestAccepted(p, s, id);
    RequestSigned();
    TokenAddress();
    AnyCalldataSigned(p, s, CALLER, id, REQUEST, TransferCall(recipient, units));
  }
}
