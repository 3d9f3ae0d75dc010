/**
 A run of the contract that loses the shared total: one key, one stored policy with a daily cap of 2,
 and three accepted requests, on Solana, NEAR and Solana, that together pass the cap.
 */
module AcrossChains {
  import opened Basics
  import opened Text
  import opened Decimal
  import opened Library
  import opened Amounts
  import opened ApiKeyPolicy
  import opened ByteOrder
  import opened ByteReader
  import opened ContractState
  import opened RawSigning
  import opened Transitions
  import opened ContractRuns
  import opened SpendingRuns
  import opened PeriodRuns
  import opened SharedCounter
  import SolanaPayload
  import NearPayload
  import Base58

  // The payloads, byte for byte.

  function Key(b: byte): (key: bytes)
    ensures |key| == 32
  {
    seq(32, i => b)
  }

  /** The usual three accounts: sender, destination and system program. */
  function Sol(lamports: nat): SolanaPayload.Message {
    SolanaPayload.Message([1, 0, 1], [3], [Key(7), Key(8), Key(0)], Key(0), [1], 2, [2], 0, 1, [12], lamports)
  }

  /** From the account "aa" to itself. */
  function Near(yocto: nat): NearPayload.Transaction {
    NearPayload.Transaction([97, 97], Key(9), 0, [97, 97], Key(0), [NearPayload.Transfer(yocto)])
  }

  /** Lower-case text is left alone by lower-casing, and the bytes of "aa" are its UTF-8. */
  predicate Plain(p: Platform) {
    p.lowercase("native") == "native" && p.utf8([97, 97]) == Some("aa")
  }

  /** A daily cap of 2, stored by the account for its key. */
  const TWO_A_DAY: Policy :=
    Policy("1", SOL_NATIVE, "native", None, Some("2"), Some("2"), Some(86400), None, [], None, None, None)

  function AddKey(): Step {
    External(CALLER, AddSubkey([1], [ChainPaths(Solana, ["0"])]))
  }

  function SetPolicy(): Step {
    External(CALLER, OwnerSetSignerPolicy([1], TWO_A_DAY))
  }

  function Setup(): seq<Step> {
    [AddKey()] + [SetPolicy()]
  }

  function SolRequest(lamports: nat): SignRequest {
    SignRequest(Solana, "0", Sol(lamports).Bytes(), None)
  }

  function NearRequest(yocto: nat): SignRequest {
    SignRequest(Chain.Near, "0", Near(yocto).Bytes(), None)
  }

  function Ask(r: SignRequest): Step {
    External(CALLER, RequestSign(r))
  }

  /** 1.5 SOL, one yoctoNEAR, 2 SOL. */
  function Requests(): seq<Step> {
    [Ask(SolRequest(1_500_000_000))] + [Ask(NearRequest(1))] + [Ask(SolRequest(2_000_000_000))]
  }

  lemma SolValid(lamports: nat)
    requires lamports < U64_LIMIT
    ensures Sol(lamports).Valid() && 0 < |Sol(lamports).Bytes()| <= 16384
  {
    hide LittleEndian;
    var m := Sol(lamports);
    forall c: byte | c < 128 ensures Spells([c], c) {
      LastGroup(c);
    }
    assert SolanaPayload.Joined(m.accounts[..0]) == [];
    assert m.accounts[..3] == m.accounts;
    assert m.accounts[..2][..1] == m.accounts[..1] && m.accounts[..3][..2] == m.accounts[..2];
    assert |SolanaPayload.Joined(m.accounts[..1])| == 32;
    assert |SolanaPayload.Joined(m.accounts[..2])| == 64;
  }

  lemma NearValid(p: Platform, yocto: nat)
    requires yocto < U128_LIMIT && Plain(p)
    ensures NearPayload.IsNative(p, Near(yocto), NearPayload.NativeTransfer(p.lowercase("aa"), "aa", yocto))
    ensures 0 < |Near(yocto).Bytes()| <= 16384
  {
    hide LittleEndian;
    NearPayload.OneActionBytes(NearPayload.Transfer(yocto));
  }

  // The policy.

  /** What stays the same along the run: the key's paths, and the terms of its policy. */
  predicate Ready(s: State) {
    var key := CALLER.SignerStorageKey();
    key in s.subkeys && s.subkeys[key] == [ChainPaths(Solana, ["0"])] &&
    key in s.apiKeyPolicies && SameTerms(TWO_A_DAY, s.apiKeyPolicies[key])
  }

  lemma TwoADayNormal(p: Platform)
    requires Plain(p)
    ensures Normalize(p, TWO_A_DAY) == Some(TWO_A_DAY)
  {
    hide Trim, ParseAmount, Pow;
    forall s | s in {"1", SOL_NATIVE, "native", "2"} ensures Trim(s) == s {
      TrimIsTrimmed(s);
    }
    ParseNumeral("2", Whole("2"), 18);
    TenToThe18();
    assert Value("2") == 2 by {
      assert "2"[..0] == "";
    }
  }

  lemma KeyAdded(p: Platform, w: World)
    ensures var s, key := Next(p, w, AddKey()).state, CALLER.SignerStorageKey();
            key in s.subkeys && s.subkeys[key] == [ChainPaths(Solana, ["0"])]
  {
    hide ComposeKey, Base58.Encode, Index, Pushed;
  }

  lemma PolicySet(p: Platform, w: World)
    requires Plain(p)
    requires var key := CALLER.SignerStorageKey(); key in w.state.subkeys && w.state.subkeys[key] == [ChainPaths(Solana, ["0"])]
    ensures var s, key := Next(p, w, SetPolicy()).state, CALLER.SignerStorageKey();
            Ready(s) && s.apiKeyPolicies[key] == TWO_A_DAY
  {
    hide ComposeKey, Base58.Encode, Normalize;
    TwoADayNormal(p);
  }

  lemma SetupReady(p: Platform, owner: AccountId, mpc: AccountId)
    requires Plain(p)
    ensures var s := Run(p, Fresh(owner, mpc), Setup()).state;
            Ready(s) && s.apiKeyPolicies[CALLER.SignerStorageKey()] == TWO_A_DAY
  {
    hide ComposeKey, Base58.Encode, Next, Ready, AddKey, SetPolicy;
    var w := Fresh(owner, mpc);
    assert [] + [AddKey()] == [AddKey()];
    ContractRuns.RunSnoc(p, w, [], AddKey());
    ContractRuns.RunSnoc(p, w, [AddKey()], SetPolicy());
    KeyAdded(p, w);
    PolicySet(p, Next(p, w, AddKey()));
    ReadyHasPolicy(Run(p, w, Setup()).state);
  }

  lemma ReadyHasPolicy(s: State)
    requires Ready(s)
    ensures CALLER.SignerStorageKey() in s.apiKeyPolicies
  {
    hide ComposeKey, Base58.Encode;
  }

  lemma TwoReads()
    ensures OptionalAmount(Lamports, Some("2")) == Some(2_000_000_000)
    ensures OptionalAmount(Yocto, Some("2")) == Some(2_000_000_000 * YOCTO_PER_LAMPORT)
  {
    Scales();
    assert Print(Lamports, 2_000_000_000) == NatText(2);
    assert NatText(2) == "2";
    CounterRoundTrip(Lamports, 2_000_000_000);
    YoctoFromLamports(2_000_000_000);
  }

  // One request of the run.

  lemma WindowZero()
    ensures Window(0, 86400) == 0
  {
  }

  lemma TwoADayAllows(policy: Policy, meter: Meter, transfer: Transfer)
    requires SameTerms(TWO_A_DAY, policy) && !meter.TokenUnits?
    requires Weigh(meter, transfer.amount) <= 2_000_000_000 * YOCTO_PER_LAMPORT
    ensures TermsAllow(meter, policy, transfer)
    ensures PeriodCap(meter, policy) == Some(if meter.Lamports? then 2_000_000_000 else 2_000_000_000 * YOCTO_PER_LAMPORT)
  {
    hide OptionalAmount;
    TwoReads();
  }

  /** An accepted transfer leaves the given total, printed by its own enforcer. */
  lemma Charged(policy: Policy, meter: Meter, destination: string, amount: nat, total: nat) returns (after: Policy)
    requires SameTerms(TWO_A_DAY, policy) && !meter.TokenUnits?
    requires total == Base(Abstract(meter, policy), 0).spent + amount
    requires Weigh(meter, total) <= 2_000_000_000 * YOCTO_PER_LAMPORT && amount <= total
    requires policy.txCountThisPeriod.UnwrapOr(0) < 3
    ensures Enforce(meter, policy, Transfer("", destination, amount), 0) == Some(after)
    ensures SameTerms(TWO_A_DAY, after)
    ensures after.periodStartUnixSeconds == Some(0) && after.spentThisPeriodNative == Some(Print(meter, total))
    ensures after.txCountThisPeriod.UnwrapOr(0) <= policy.txCountThisPeriod.UnwrapOr(0) + 1
  {
    hide OptionalAmount, Print, ApiKeyPolicy.Charge, Enforce, Window, TermsAllow;
    TwoADayAllows(policy, meter, Transfer("", destination, amount));
    WindowZero();
    EnforceRefinesCounter(meter, policy, Transfer("", destination, amount), 0);
    after := Enforce(meter, policy, Transfer("", destination, amount), 0).value;
  }

  /** The request whose payload makes that transfer is accepted, and stores that policy. */
  lemma RequestCharged(p: Platform, w: World, r: SignRequest, meter: Meter, transfer: Transfer, after: Policy)
    requires Ready(w.state) && (r.chain == Solana || r.chain == Chain.Near) && r.derivationPath == "0" && r.memo == None
    requires 0 < |r.payload| <= 16384
    requires var policy := w.state.apiKeyPolicies[CALLER.SignerStorageKey()];
             Judge(p, r.chain, policy, r.payload, NOTHING_PARSED) == Verdict.Charge(meter, transfer) &&
             Enforce(meter, policy, transfer, 0) == Some(after)
    requires SameTerms(TWO_A_DAY, after)
    ensures var key := CALLER.SignerStorageKey();
            Succeeds(p, w, Ask(r)) && MeteredBy(p, w.state, Ask(r), key) == Some(Attempt(meter, transfer, 0)) &&
            Ready(Next(p, w, Ask(r)).state) && Next(p, w, Ask(r)).state.apiKeyPolicies[key] == after
  {
    hide ComposeKey, Base58.Encode, Judge, Enforce, MpcPath, MpcPayload, IsAllowed, CheckMemo, SameTerms;
    NoMemo(p, r.chain, r.payload);
    PathAllowed(r.chain);
  }

  lemma PathAllowed(chain: Chain)
    requires chain == Solana || chain == Chain.Near
    ensures IsAllowed([ChainPaths(Solana, ["0"])], chain, "0")
  {
    var entries := [ChainPaths(Solana, ["0"])];
    assert entries[0].chain == Solana && entries[0].paths[0] == "0";
  }

  lemma SolJudged(p: Platform, policy: Policy, lamports: nat) returns (transfer: Transfer)
    requires Plain(p) && SameTerms(TWO_A_DAY, policy) && lamports < U64_LIMIT
    ensures Judge(p, Solana, policy, Sol(lamports).Bytes(), NOTHING_PARSED) == Verdict.Charge(Lamports, transfer)
    ensures transfer == Transfer("", Base58.Encode(Key(8)), lamports)
  {
    hide SolanaPayload.Parse, SolanaPayload.Message.Bytes, SolanaPayload.Message.Valid, Trim;
    SolValid(lamports);
    TrimIsTrimmed("native");
    SolanaPayload.ValidMessageAccepted(Sol(lamports));
    transfer := SolanaMove(Sol(lamports).Transfer());
  }

  lemma NearJudged(p: Platform, policy: Policy, yocto: nat) returns (transfer: Transfer)
    requires Plain(p)
    requires SameTerms(TWO_A_DAY, policy) && yocto < U128_LIMIT
    ensures Judge(p, Chain.Near, policy, Near(yocto).Bytes(), NOTHING_PARSED) == Verdict.Charge(Yocto, transfer)
    ensures transfer == Transfer("", "aa", yocto)
  {
    hide NearPayload.ParseNative, NearPayload.ParseFt, NearPayload.IsNative, NearPayload.Transaction.Bytes, Trim;
    NearValid(p, yocto);
    TrimIsTrimmed("native");
    NearPayload.NativeBuildParse(p, Near(yocto), NearPayload.NativeTransfer(p.lowercase("aa"), "aa", yocto));
    transfer := Transfer("", "aa", yocto);
  }

  lemma SolAsked(p: Platform, w: World, lamports: nat, total: nat) returns (a: Attempt)
    requires Plain(p) && Ready(w.state)
    requires var policy := w.state.apiKeyPolicies[CALLER.SignerStorageKey()];
             total == Base(Abstract(Lamports, policy), 0).spent + lamports <= 2_000_000_000 &&
             policy.txCountThisPeriod.UnwrapOr(0) < 3
    ensures a.meter == Lamports && a.transfer.amount == lamports && a.now == 0
    ensures Asked(p, w, SolRequest(lamports), a, Print(Lamports, total))
  {
    hide ComposeKey, Base58.Encode, Abstract, Enforce, Judge, Print, SolanaPayload.Message.Bytes, SameTerms;
    var policy := w.state.apiKeyPolicies[CALLER.SignerStorageKey()];
    SolValid(lamports);
    var transfer := SolJudged(p, policy, lamports);
    var after := Charged(policy, Lamports, transfer.destination, lamports, total);
    RequestCharged(p, w, SolRequest(lamports), Lamports, transfer, after);
    a := Attempt(Lamports, transfer, 0);
  }

  lemma NearAsked(p: Platform, w: World, yocto: nat, total: nat) returns (a: Attempt)
    requires Plain(p) && Ready(w.state)
    requires var policy := w.state.apiKeyPolicies[CALLER.SignerStorageKey()];
             total == Base(Abstract(Yocto, policy), 0).spent + yocto <= 2_000_000_000 * YOCTO_PER_LAMPORT &&
             policy.txCountThisPeriod.UnwrapOr(0) < 3
    ensures a.meter == Yocto && a.transfer.amount == yocto && a.now == 0
    ensures Asked(p, w, NearRequest(yocto), a, Print(Yocto, total))
  {
    hide ComposeKey, Base58.Encode, Abstract, Enforce, Judge, Print, NearPayload.Transaction.Bytes, NearPayload.IsNative, SameTerms;
    var policy := w.state.apiKeyPolicies[CALLER.SignerStorageKey()];
    NearValid(p, yocto);
    var transfer := NearJudged(p, policy, yocto);
    var after := Charged(policy, Yocto, "aa", yocto, total);
    RequestCharged(p, w, NearRequest(yocto), Yocto, transfer, after);
    a := Attempt(Yocto, transfer, 0);
  }

  /** The request was accepted and metered as this transfer, and its policy's counter now has this text. */
  predicate Asked(p: Platform, w: World, r: SignRequest, a: Attempt, text: string)
    requires Ready(w.state)
  {
    var key, after := CALLER.SignerStorageKey(), Next(p, w, Ask(r)).state;
    Succeeds(p, w, Ask(r)) && MeteredBy(p, w.state, Ask(r), key) == Some(a) && Ready(after) &&
    var before, policy := w.state.apiKeyPolicies[key], after.apiKeyPolicies[key];
    policy.periodStartUnixSeconds == Some(0) && policy.spentThisPeriodNative == Some(text) &&
    policy.txCountThisPeriod.UnwrapOr(0) <= before.txCountThisPeriod.UnwrapOr(0) + 1
  }

  /** The transfers of a longer run. */
  lemma TransfersSnoc(p: Platform, w: World, steps: seq<Step>, step: Step, key: string)
    ensures var last := MeteredBy(p, Run(p, w, steps).state, step, key);
            Transfers(p, w, steps + [step], key) == Transfers(p, w, steps, key) + if last.Some? then [last.value] else []
  {
    hide Run, MeteredBy;
    assert (steps + [step])[..|steps|] == steps;
  }

  // The run.

  /**
   From a new contract, after the key and the policy have been set, all three requests are accepted.
   The two Solana transfers alone move 3.5 SOL in one day, under a cap of 2.
   */
  lemma SharedCapCanBeExceeded(p: Platform, owner: AccountId, mpc: AccountId)
    requires Plain(p)
    ensures var w, key := Run(p, Fresh(owner, mpc), Setup()), CALLER.SignerStorageKey();
            key in w.state.apiKeyPolicies && w.state.apiKeyPolicies[key] == TWO_A_DAY &&
            PeriodCap(Lamports, TWO_A_DAY) == Some(2_000_000_000) &&
            (forall i :: 0 <= i < 3 ==> Succeeds(p, Run(p, w, Requests()[..i]), Requests()[i])) &&
            var done := Transfers(p, w, Requests(), key);
            |done| == 3 && done[0].meter == done[2].meter == Lamports &&
            SumIn([done[0], done[2]], 86400, 0) == 3_500_000_000 && !JointlyWithinCaps(TWO_A_DAY, done, 0)
  {
    hide *;
    var w, key, r := Run(p, Fresh(owner, mpc), Setup()), CALLER.SignerStorageKey(), Requests();
    SetupReady(p, owner, mpc);
    FirstAsked();
    var a := SolAsked(p, w, 1_500_000_000, 1_500_000_000);
    var w1 := Next(p, w, Ask(SolRequest(1_500_000_000)));
    AskedMeans(p, w, SolRequest(1_500_000_000), a, Print(Lamports, 1_500_000_000));
    AfterFirst(w1.state.apiKeyPolicies[key]);
    var b := NearAsked(p, w1, 1, 1_500_000_000 * YOCTO_PER_LAMPORT + 1);
    var w2 := Next(p, w1, Ask(NearRequest(1)));
    AskedMeans(p, w1, NearRequest(1), b, Print(Yocto, 1_500_000_000 * YOCTO_PER_LAMPORT + 1));
    AfterSecond(w2.state.apiKeyPolicies[key]);
    var c := SolAsked(p, w2, 2_000_000_000, 2_000_000_000);
    AskedMeans(p, w2, SolRequest(2_000_000_000), c, Print(Lamports, 2_000_000_000));
    RequestsAre();
    RunOfThree(p, w, key, a, b, c);
    TotalsOfThree(a, b, c);
  }

  lemma RequestsAre()
    ensures |Requests()| == 3 && Requests()[0] == Ask(SolRequest(1_500_000_000))
    ensures Requests()[1] == Ask(NearRequest(1)) && Requests()[2] == Ask(SolRequest(2_000_000_000))
  {
    hide SolRequest, NearRequest;
  }

  lemma AskedMeans(p: Platform, w: World, r: SignRequest, a: Attempt, text: string)
    requires Ready(w.state) && Asked(p, w, r, a, text)
    ensures var key, after := CALLER.SignerStorageKey(), Next(p, w, Ask(r)).state;
            Succeeds(p, w, Ask(r)) && MeteredBy(p, w.state, Ask(r), key) == Some(a) && Ready(after) &&
            key in w.state.apiKeyPolicies && key in after.apiKeyPolicies &&
            var before, policy := w.state.apiKeyPolicies[key], after.apiKeyPolicies[key];
            policy.periodStartUnixSeconds == Some(0) && policy.spentThisPeriodNative == Some(text) &&
            policy.txCountThisPeriod.UnwrapOr(0) <= before.txCountThisPeriod.UnwrapOr(0) + 1
  {
    hide Succeeds, Next, MeteredBy, ComposeKey, Base58.Encode, SameTerms;
  }

  lemma FirstAsked()
    ensures Base(Abstract(Lamports, TWO_A_DAY), 0).spent == 0 && TWO_A_DAY.txCountThisPeriod.UnwrapOr(0) == 0
    ensures PeriodCap(Lamports, TWO_A_DAY) == Some(2_000_000_000)
  {
    hide ParseAmount, Trim;
    TwoReads();
  }

  lemma AfterFirst(policy: Policy)
    requires policy.periodStartUnixSeconds == Some(0) && policy.spentThisPeriodNative == Some(Print(Lamports, 1_500_000_000))
    ensures Base(Abstract(Yocto, policy), 0).spent == 1_500_000_000 * YOCTO_PER_LAMPORT
    ensures 1_500_000_000 * YOCTO_PER_LAMPORT + 1 <= 2_000_000_000 * YOCTO_PER_LAMPORT
  {
    hide OptionalAmount, Print;
    YoctoFromLamports(1_500_000_000);
  }

  /** One yocto more than whole lamports cannot be read on Solana, and counts as nothing there. */
  lemma AfterSecond(policy: Policy)
    requires policy.spentThisPeriodNative == Some(Print(Yocto, 1_500_000_000 * YOCTO_PER_LAMPORT + 1))
    ensures Base(Abstract(Lamports, policy), 0).spent == 0
  {
    hide OptionalAmount, Print;
    LamportsFromYocto(1_500_000_000 * YOCTO_PER_LAMPORT + 1);
  }

  lemma RunOfThree(p: Platform, w: World, key: string, a: Attempt, b: Attempt, c: Attempt)
    requires var r := Requests();
             var w1 := Next(p, w, r[0]);
             var w2 := Next(p, w1, r[1]);
             Succeeds(p, w, r[0]) && Succeeds(p, w1, r[1]) && Succeeds(p, w2, r[2]) &&
             MeteredBy(p, w.state, r[0], key) == Some(a) && MeteredBy(p, w1.state, r[1], key) == Some(b) &&
             MeteredBy(p, w2.state, r[2], key) == Some(c)
    ensures forall i :: 0 <= i < 3 ==> Succeeds(p, Run(p, w, Requests()[..i]), Requests()[i])
    ensures Transfers(p, w, Requests(), key) == [a, b, c]
  {
    hide Next, Succeeds, MeteredBy, SolRequest, NearRequest;
    var r := Requests();
    assert r[..0] == [] && r[..1] == [] + [r[0]] && r[..2] == r[..1] + [r[1]] && r == r[..2] + [r[2]];
    ContractRuns.RunSnoc(p, w, [], r[0]);
    ContractRuns.RunSnoc(p, w, r[..1], r[1]);
    TransfersSnoc(p, w, [], r[0], key);
    TransfersSnoc(p, w, r[..1], r[1], key);
    TransfersSnoc(p, w, r[..2], r[2], key);
    assert Run(p, w, []) == w && Transfers(p, w, [], key) == [];
  }

  lemma TotalsOfThree(a: Attempt, b: Attempt, c: Attempt)
    requires a.now == b.now == c.now == 0 && a.meter == c.meter == Lamports && b.meter == Yocto
    requires a.transfer.amount == 1_500_000_000 && b.transfer.amount == 1 && c.transfer.amount == 2_000_000_000
    ensures SumIn([a, c], 86400, 0) == 3_500_000_000
    ensures !JointlyWithinCaps(TWO_A_DAY, [a, b, c], 0)
  {
    hide OptionalAmount;
    TwoReads();
    assert [a][..0] == [] && [a, c][..1] == [a];
    assert SumIn([a], 86400, 0) == 1_500_000_000;
    var weighed := Weighed([a, b, c]);
    assert weighed[..3] == weighed;
    assert weighed[..1][..0] == [] && weighed[..2][..1] == weighed[..1] && weighed[..3][..2] == weighed[..2];
    assert SumIn(weighed[..1], 86400, 0) == 1_500_000_000 * YOCTO_PER_LAMPORT;
    assert SumIn(weighed[..2], 86400, 0) == 1_500_000_000 * YOCTO_PER_LAMPORT + 1;
  }
}
