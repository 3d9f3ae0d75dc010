/**
 Spending limits over whole runs of the contract: what happens to one key's policy between two
 policy writes is exactly a run of its enforcers, so the caps hold whatever else is called.
 */
module SpendingRuns {
  import opened Basics
  import opened Text
  import opened Library
  import opened Amounts
  import opened ApiKeyPolicy
  import opened ContractState
  import opened RawSigning
  import opened TemplateSigning
  import opened Transitions
  import opened ContractRuns
  import opened Emissions
  import PeriodRuns
  import SolanaPayload
  import NearPayload
  import SharedCounter
  import Base58

  /** The calls that write or remove the policy of a storage key. */
  predicate WritesPolicy(step: Step, key: string) {
    hide ComposeKey, Base58.Encode;
    step.External? &&
    (step.call.SetSignerPolicy? || step.call.OwnerSetSignerPolicy? || step.call.RemoveSignerPolicy? ||
     step.call.OwnerRemoveSignerPolicy?) &&
    ComposeKey(step.ctx.predecessor, Base58.Encode(step.call.publicKey)) == key
  }

  /** The metered transfer an accepted raw request of this key makes, if its policy meters it. */
  function MeteredBy(p: Platform, s: State, step: Step, key: string): Option<PeriodRuns.Attempt> {
    hide Apply, Judge, ComposeKey, Base58.Encode;
    if step.External? && RawRequest(step.call).Some? && step.ctx.SignerStorageKey() == key &&
       key in s.apiKeyPolicies && Apply(p, s, step.ctx, step.call).Some?
    then
      var r := RawRequest(step.call).value;
      match Judge(p, r.chain, s.apiKeyPolicies[key], r.payload, NOTHING_PARSED)
      case Charge(meter, transfer) => Some(PeriodRuns.Attempt(meter, transfer, step.ctx.Seconds()))
      case _ => None
    else None
  }

  /**
   What is metered is what the payload moves: the lamports of a Solana message, the yocto of a native
   NEAR transfer or the amount of a token transfer, at the block's time in seconds.
   */
  lemma MeteredIsPayload(p: Platform, s: State, step: Step, key: string)
    requires MeteredBy(p, s, step, key).Some?
    ensures var r, a := RawRequest(step.call).value, MeteredBy(p, s, step, key).value;
            a.now == step.ctx.timestamp / 1_000_000_000 &&
            match a.meter
            case Lamports =>
              r.chain == Solana && exists m: SolanaPayload.Message ::
                m.Valid() && m.Bytes() == r.payload && a.transfer == Transfer("", m.Transfer().destination, m.lamports)
            case Yocto =>
              r.chain == Near && exists tx: NearPayload.Transaction, t: NearPayload.NativeTransfer ::
                NearPayload.IsNative(p, tx, t) && tx.Bytes() == r.payload && a.transfer == Transfer("", t.destination, t.yocto)
            case TokenUnits =>
              r.chain == Near && exists tx: NearPayload.Transaction, t: NearPayload.FtTransfer ::
                NearPayload.IsFt(p, tx, t) && tx.Bytes() == r.payload && a.transfer == Transfer(t.ftContract, t.destination, t.amount)
  {
    hide Apply, SolanaPayload.Parse, NearPayload.ParseNative, NearPayload.ParseFt, SolanaPayload.Message.Valid,
         SolanaPayload.Message.Bytes, NearPayload.IsNative, NearPayload.IsFt, NearPayload.Transaction.Bytes, ComposeKey, Base58.Encode;
    var r, a := RawRequest(step.call).value, MeteredBy(p, s, step, key).value;
    match a.meter
    case Lamports => var m := SolanaPayload.AcceptedIsMessage(r.payload);
    case Yocto => var tx := NearPayload.NativeAccepted(p, r.payload);
    case TokenUnits => var tx := NearPayload.FtAccepted(p, r.payload);
  }

  /** All metered transfers of a key over a run, in order. */
  function Transfers(p: Platform, w: World, steps: seq<Step>, key: string): seq<PeriodRuns.Attempt> {
    hide MeteredBy, Run;
    if steps == [] then [] else
      var front := steps[..|steps| - 1];
      var last := MeteredBy(p, Run(p, w, front).state, steps[|steps| - 1], key);
      Transfers(p, w, front, key) + if last.Some? then [last.value] else []
  }

  /** One call's effect on one key's policy: enforcement of its own metered transfer, or nothing. */
  lemma StepEnforces(p: Platform, w: World, step: Step, key: string)
    requires key in w.state.apiKeyPolicies && !WritesPolicy(step, key)
    ensures var policies, policy := Next(p, w, step).state.apiKeyPolicies, w.state.apiKeyPolicies[key];
            key in policies &&
            match MeteredBy(p, w.state, step, key)
            case Some(a) => Enforce(a.meter, policy, a.transfer, a.now) == Some(policies[key])
            case None => policies[key] == policy
  {
    hide DoAddSubkey, DoSetSubkeyPaths, DoRemoveSubkey, CheckTemplate, EvmDigest, DoCleanup, DoGrant, DoRevoke, DoRequestSign,
         DoSetPolicy, DoRemovePolicy, DoSetTemplate, DoRemoveTemplate, DoSetTokenCap, DoRemoveTokenCap, Judge, Enforce,
         ComposeKey, Base58.Encode;
    if step.External? && Apply(p, w.state, step.ctx, step.call).Some? {
      if RawRequest(step.call).Some? {
        var r := RawRequest(step.call).value;
        RawStepEnforces(p, w.state, step.ctx, r, key);
      } else {
        OtherCallsKeepPolicy(p, w.state, step.ctx, step.call, key);
      }
    }
  }

  lemma RawStepEnforces(p: Platform, s: State, ctx: Context, r: SignRequest, key: string)
    requires key in s.apiKeyPolicies && DoRequestSign(p, s, ctx, r).Some?
    ensures var policies, policy := DoRequestSign(p, s, ctx, r).value.state.apiKeyPolicies, s.apiKeyPolicies[key];
            key in policies &&
            if key != ctx.SignerStorageKey() then policies[key] == policy else
              match Judge(p, r.chain, policy, r.payload, NOTHING_PARSED)
              case Charge(meter, transfer) => Enforce(meter, policy, transfer, ctx.Seconds()) == Some(policies[key])
              case _ => policies[key] == policy
  {
    hide CheckMemo, SolanaVerdict, NearVerdict, Enforce, IsAllowed, ComposeKey, Base58.Encode, MpcPayload;
    MemoOnlyRestricts(p, r.chain, r.payload, r.memo, s.apiKeyPolicies, ctx.SignerStorageKey(), ctx.Seconds());
    NoMemo(p, r.chain, r.payload);
  }

  lemma OtherCallsKeepPolicy(p: Platform, s: State, ctx: Context, call: Call, key: string)
    requires Apply(p, s, ctx, call).Some? && RawRequest(call).None?
    requires key in s.apiKeyPolicies && !WritesPolicy(External(ctx, call), key)
    ensures var policies := Apply(p, s, ctx, call).value.state.apiKeyPolicies;
            key in policies && policies[key] == s.apiKeyPolicies[key]
  {
    hide CheckTemplate, EvmDigest, Cleaned, Normalize, IsAllowed, CanManagePolicy, ValidPaths, Pushed, Without, Index,
         ComposeKey, TemplateKey, CapKey, MpcPath, Base58.Encode;
  }

  /** Between policy writes, the stored policy is the enforcers' run over the key's accepted transfers. */
  lemma {:induction false} PolicyFollowsTransfers(p: Platform, w: World, steps: seq<Step>, key: string)
    requires key in w.state.apiKeyPolicies
    requires forall i :: 0 <= i < |steps| ==> !WritesPolicy(steps[i], key)
    ensures var policies, policy := Run(p, w, steps).state.apiKeyPolicies, w.state.apiKeyPolicies[key];
            key in policies && policies[key] == PeriodRuns.PolicyAfter(policy, Transfers(p, w, steps, key)) &&
            PeriodRuns.Accepted(policy, Transfers(p, w, steps, key)) == Transfers(p, w, steps, key)
  {
    hide Next, MeteredBy, Enforce, WritesPolicy, PeriodRuns.PolicyAfter, PeriodRuns.Accepted;
    var policy := w.state.apiKeyPolicies[key];
    NoTransfers(policy);
    if steps != [] {
      var front, step := steps[..|steps| - 1], steps[|steps| - 1];
      PolicyFollowsTransfers(p, w, front, key);
      var v := Run(p, w, front);
      StepEnforces(p, v, step, key);
      var a := MeteredBy(p, v.state, step, key);
      if a.Some? {
        PeriodRuns.RunSnoc(policy, Transfers(p, w, front, key), a.value);
      } else {
        assert Transfers(p, w, steps, key) == Transfers(p, w, front, key);
      }
    }
  }

  lemma NoTransfers(policy: Policy)
    ensures PeriodRuns.PolicyAfter(policy, []) == policy && PeriodRuns.Accepted(policy, []) == []
  {
  }

  /** Calls in block-time order. */
  predicate InOrder(steps: seq<Step>) {
    forall i, j :: 0 <= i < j < |steps| && steps[i].External? && steps[j].External? ==>
      steps[i].ctx.timestamp <= steps[j].ctx.timestamp
  }

  lemma {:induction false} TransfersInOrder(p: Platform, w: World, steps: seq<Step>, key: string)
    requires InOrder(steps)
    ensures PeriodRuns.NonDecreasing(Transfers(p, w, steps, key))
    ensures forall a :: a in Transfers(p, w, steps, key) ==> exists i :: 0 <= i < |steps| && steps[i].External? && a.now == steps[i].ctx.Seconds()
  {
    hide Run, Apply, Judge, ComposeKey, Base58.Encode;
    if steps != [] {
      var front, n := steps[..|steps| - 1], |steps| - 1;
      TransfersInOrder(p, w, front, key);
      var last := MeteredBy(p, Run(p, w, front).state, steps[n], key);
      if last.Some? {
        forall a | a in Transfers(p, w, front, key) ensures a.now <= last.value.now {
          var i :| 0 <= i < |front| && front[i].External? && a.now == front[i].ctx.Seconds();
          assert steps[i].ctx.timestamp <= steps[n].ctx.timestamp;
        }
        assert last.value.now == steps[n].ctx.Seconds();
      }
      forall a | a in Transfers(p, w, front, key)
        ensures exists i :: 0 <= i < |steps| && steps[i].External? && a.now == steps[i].ctx.Seconds()
      {
        var i :| 0 <= i < |front| && front[i].External? && a.now == front[i].ctx.Seconds();
        assert steps[i] == front[i];
      }
    }
  }

  /**
   Whatever is called in whatever order, between two writes of a key's policy the transfers signed
   with that key in one unit stay, in every window of the period, within the period cap and the
   count cap of the policy.
   */
  lemma SpendingWithinCaps(p: Platform, w: World, steps: seq<Step>, key: string, meter: Meter, window: nat)
    requires key in w.state.apiKeyPolicies && InOrder(steps)
    requires forall i :: 0 <= i < |steps| ==> !WritesPolicy(steps[i], key)
    requires PeriodRuns.AllMeter(Transfers(p, w, steps, key), meter)
    requires var policy := w.state.apiKeyPolicies[key]; Metered(meter, policy) && policy.periodSeconds.UnwrapOr(0) > 0
    ensures var policy, done := w.state.apiKeyPolicies[key], Transfers(p, w, steps, key);
            var period := policy.periodSeconds.value;
            WithinCap(PeriodRuns.SumIn(done, period, window), PeriodCap(meter, policy)) &&
            WithinCap(PeriodRuns.CountIn(done, period, window), policy.maxTxCountPerPeriod)
  {
    hide Run, Transfers, Enforce, Metered, PeriodCap, PeriodRuns.PolicyAfter, PeriodRuns.Accepted, WritesPolicy;
    PolicyFollowsTransfers(p, w, steps, key);
    TransfersInOrder(p, w, steps, key);
    PeriodRuns.WindowsWithinCaps(meter, w.state.apiKeyPolicies[key], Transfers(p, w, steps, key), window);
  }

  /** The count cap holds whatever units the transfers mix, and whatever the text counter reads as. */
  lemma SpendingCountWithinCap(p: Platform, w: World, steps: seq<Step>, key: string, window: nat)
    requires key in w.state.apiKeyPolicies && InOrder(steps)
    requires forall i :: 0 <= i < |steps| ==> !WritesPolicy(steps[i], key)
    requires w.state.apiKeyPolicies[key].periodSeconds.UnwrapOr(0) > 0
    ensures var policy, done := w.state.apiKeyPolicies[key], Transfers(p, w, steps, key);
            WithinCap(PeriodRuns.CountIn(done, policy.periodSeconds.value, window), policy.maxTxCountPerPeriod)
  {
    hide Run, Transfers, Enforce, Metered, PeriodCap, PeriodRuns.PolicyAfter, PeriodRuns.Accepted, WritesPolicy;
    PolicyFollowsTransfers(p, w, steps, key);
    TransfersInOrder(p, w, steps, key);
    PeriodRuns.CountsWithinCap(w.state.apiKeyPolicies[key], Transfers(p, w, steps, key), window);
  }

  /** The stored strings are exact: the sum and count of the current window's transfers, in every run. */
  lemma StoredCountersExact(p: Platform, w: World, steps: seq<Step>, key: string, meter: Meter, window: nat)
    requires key in w.state.apiKeyPolicies && InOrder(steps)
    requires forall i :: 0 <= i < |steps| ==> !WritesPolicy(steps[i], key)
    requires PeriodRuns.AllMeter(Transfers(p, w, steps, key), meter) && Transfers(p, w, steps, key) != []
    requires var policy := w.state.apiKeyPolicies[key]; Metered(meter, policy) && policy.periodSeconds.UnwrapOr(0) > 0
    requires var done := Transfers(p, w, steps, key);
             PeriodRuns.During(done[|done| - 1].now, w.state.apiKeyPolicies[key].periodSeconds.value, window)
    ensures key in Run(p, w, steps).state.apiKeyPolicies
    ensures var policy, done := w.state.apiKeyPolicies[key], Transfers(p, w, steps, key);
            var period := policy.periodSeconds.value;
            var base := PeriodRuns.Carried(PeriodRuns.Abstract(meter, policy), period, done, window);
            PeriodRuns.Abstract(meter, Run(p, w, steps).state.apiKeyPolicies[key]) ==
            PeriodRuns.Counter(Some(window), base.spent + PeriodRuns.SumIn(done, period, window),
                               base.count + PeriodRuns.CountIn(done, period, window))
  {
    hide Run, Transfers, Enforce, Metered, PeriodCap, PeriodRuns.PolicyAfter, PeriodRuns.Accepted, PeriodRuns.Abstract, WritesPolicy;
    PolicyFollowsTransfers(p, w, steps, key);
    TransfersInOrder(p, w, steps, key);
    PeriodRuns.CountersExact(meter, w.state.apiKeyPolicies[key], Transfers(p, w, steps, key), window);
  }

  /**
   For a policy that meters Solana and NEAR together, both chains' transfers jointly stay within the
   caps when each Solana transfer finds a window total that is whole lamports fitting 64 bits.
   */
  lemma SharedSpendingWithinCaps(p: Platform, w: World, steps: seq<Step>, key: string, window: nat)
    requires key in w.state.apiKeyPolicies && InOrder(steps)
    requires forall i :: 0 <= i < |steps| ==> !WritesPolicy(steps[i], key)
    requires SharedCounter.NativeMeters(Transfers(p, w, steps, key))
    requires SharedCounter.MeteredOnBoth(w.state.apiKeyPolicies[key]) && SharedCounter.SolanaReadsCap(w.state.apiKeyPolicies[key])
    requires SharedCounter.TotalsReadable(w.state.apiKeyPolicies[key], Transfers(p, w, steps, key))
    ensures JointlyWithinCaps(w.state.apiKeyPolicies[key], Transfers(p, w, steps, key), window)
  {
    hide Run, Transfers, Enforce, Metered, PeriodCap, PeriodRuns.PolicyAfter, PeriodRuns.Accepted, WritesPolicy,
         SharedCounter.AlwaysReadsAlike, SharedCounter.TotalsReadable;
    PolicyFollowsTransfers(p, w, steps, key);
    TransfersInOrder(p, w, steps, key);
    SharedCounter.AlwaysReadsAlikeIff(w.state.apiKeyPolicies[key], Transfers(p, w, steps, key));
    SharedCounter.SharedWindowsWithinCaps(w.state.apiKeyPolicies[key], Transfers(p, w, steps, key), window);
  }

  /** Sum and count of both chains in one window, in yocto. */
  predicate JointlyWithinCaps(policy: Policy, done: seq<PeriodRuns.Attempt>, window: nat)
    requires policy.periodSeconds.UnwrapOr(0) > 0
  {
    var period, weighed := policy.periodSeconds.value, SharedCounter.Weighed(done);
    WithinCap(PeriodRuns.SumIn(weighed, period, window), PeriodCap(Yocto, policy)) &&
    WithinCap(PeriodRuns.CountIn(weighed, period, window), policy.maxTxCountPerPeriod)
  }

  /** They do so in particular when every NEAR amount is whole lamports and the counter began that way. */
  lemma WholeLamportSpendingWithinCaps(p: Platform, w: World, steps: seq<Step>, key: string, window: nat)
    requires key in w.state.apiKeyPolicies && InOrder(steps)
    requires forall i :: 0 <= i < |steps| ==> !WritesPolicy(steps[i], key)
    requires w.state.apiKeyPolicies[key].templateId == SOL_NATIVE && SharedCounter.WholeLamportText(w.state.apiKeyPolicies[key])
    requires PeriodCap(Lamports, w.state.apiKeyPolicies[key]).Some? && w.state.apiKeyPolicies[key].periodSeconds.UnwrapOr(0) > 0
    requires SharedCounter.WholeLamports(Transfers(p, w, steps, key))
    ensures JointlyWithinCaps(w.state.apiKeyPolicies[key], Transfers(p, w, steps, key), window)
  {
    hide Run, Transfers, Enforce, PeriodCap, PeriodRuns.PolicyAfter, PeriodRuns.Accepted, WritesPolicy,
         SharedCounter.AlwaysReadsAlike, SharedCounter.WholeLamportText, SharedCounter.WholeLamports;
    PolicyFollowsTransfers(p, w, steps, key);
    TransfersInOrder(p, w, steps, key);
    TermsFixMeter(p, w, steps, key);
    SharedCounter.WholeLamportsReadAlike(w.state.apiKeyPolicies[key], Transfers(p, w, steps, key));
    SharedCounter.SharedWindowsWithinCaps(w.state.apiKeyPolicies[key], Transfers(p, w, steps, key), window);
  }

  /** The unit a policy meters: its terms leave a choice only for `sol_native_transfer_v1`. */
  function OneMeter(policy: Policy): Meter {
    if policy.templateId == NEAR_FT then TokenUnits else if policy.templateId == NEAR_NATIVE then Yocto else Lamports
  }

  lemma {:induction false} TermsFixMeter(p: Platform, w: World, steps: seq<Step>, key: string)
    requires key in w.state.apiKeyPolicies
    requires forall i :: 0 <= i < |steps| ==> !WritesPolicy(steps[i], key)
    ensures var policy, done := w.state.apiKeyPolicies[key], Transfers(p, w, steps, key);
            if policy.templateId == SOL_NATIVE then SharedCounter.NativeMeters(done)
            else PeriodRuns.AllMeter(done, OneMeter(policy))
  {
    hide Run, Apply, SolanaVerdict, NearVerdict, WritesPolicy, ComposeKey, Base58.Encode;
    if steps != [] {
      var front, step := steps[..|steps| - 1], steps[|steps| - 1];
      TermsFixMeter(p, w, front, key);
      PolicyFollowsTransfers(p, w, front, key);
      var policy := w.state.apiKeyPolicies[key];
      PeriodRuns.TermsKept(policy, Transfers(p, w, front, key));
      if step.External? && RawRequest(step.call).Some? {
        VerdictMeter(p, Run(p, w, front).state.apiKeyPolicies[key], RawRequest(step.call).value);
      }
    }
  }

  lemma VerdictMeter(p: Platform, policy: Policy, r: SignRequest)
    ensures var v := Judge(p, r.chain, policy, r.payload, NOTHING_PARSED);
            v.Charge? ==>
              if policy.templateId == SOL_NATIVE then !v.meter.TokenUnits? else v.meter == OneMeter(policy)
  {
    hide SolanaPayload.Parse, NearPayload.ParseNative, NearPayload.ParseFt;
  }
}
