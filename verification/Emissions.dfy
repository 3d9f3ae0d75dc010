/** What is true of every signing request the contract sends to the MPC network, in every run. */
module Emissions {
  import opened Basics
  import opened Text
  import opened Decimal
  import opened Library
  import opened Amounts
  import opened ApiKeyPolicy
  import opened ContractState
  import opened RawSigning
  import opened TemplateSigning
  import opened Transitions
  import opened ContractRuns
  import opened RawAcceptance
  import Base58

  /** The raw request of a call, with or without a request id. */
  function RawRequest(call: Call): Option<SignRequest> {
    match call
    case RequestSign(r) => Some(r)
    case RequestSignV2(_, r) => Some(r)
    case _ => None
  }

  /** A key's paths were set by an earlier successful call of the same account naming that key. */
  ghost predicate PathsSetBefore(p: Platform, w: World, steps: seq<Step>, ctx: Context, paths: seq<ChainPaths>) {
    exists j :: 0 <= j < |steps| && SetsPaths(steps[j], ctx, paths) && Succeeds(p, Run(p, w, steps[..j]), steps[j])
  }

  predicate SetsPaths(step: Step, ctx: Context, paths: seq<ChainPaths>) {
    step.External? && (step.call.AddSubkey? || step.call.SetSubkeyPaths?) && step.call.paths == paths &&
    step.ctx.Direct() && step.ctx.predecessor == ctx.predecessor && step.call.publicKey == ctx.signerKey
  }

  lemma SubkeysSetBy(p: Platform, w: World, step: Step, ctx: Context)
    requires ctx.SignerStorageKey() in Next(p, w, step).state.subkeys
    ensures var key := ctx.SignerStorageKey();
            (key in w.state.subkeys && Next(p, w, step).state.subkeys[key] == w.state.subkeys[key]) ||
            (SetsPaths(step, ctx, Next(p, w, step).state.subkeys[key]) && Succeeds(p, w, step))
  {
    hide DoRequestSign, CheckTemplate, EvmDigest, DoSetPolicy, DoRemovePolicy, DoCleanup, DoGrant, DoRevoke, ComposeKey,
         Base58.Encode, ValidPaths, Pushed, Without, Index;
    if step.External? && Apply(p, w.state, step.ctx, step.call).Some? {
      if SubkeyCall(step.call) {
        var mine := ComposeKey(step.ctx.predecessor, Base58.Encode(step.call.publicKey));
        if mine == ctx.SignerStorageKey() {
          StorageKeysDistinct(step.ctx.predecessor, step.call.publicKey, ctx.predecessor, ctx.signerKey);
        }
      } else {
        OtherCallsKeepSubkeys(p, w.state, step.ctx, step.call);
      }
    }
  }

  lemma {:induction false} SubkeyPathsWereSet(p: Platform, owner: AccountId, mpc: AccountId, steps: seq<Step>, ctx: Context)
    requires ctx.SignerStorageKey() in Run(p, Fresh(owner, mpc), steps).state.subkeys
    ensures PathsSetBefore(p, Fresh(owner, mpc), steps, ctx,
                           Run(p, Fresh(owner, mpc), steps).state.subkeys[ctx.SignerStorageKey()])
  {
    hide Next, Succeeds, SetsPaths, ComposeKey, Base58.Encode;
    if steps != [] {
      var front, n := steps[..|steps| - 1], |steps| - 1;
      var w := Run(p, Fresh(owner, mpc), front);
      var paths := Run(p, Fresh(owner, mpc), steps).state.subkeys[ctx.SignerStorageKey()];
      SubkeysSetBy(p, w, steps[n], ctx);
      if SetsPaths(steps[n], ctx, paths) && Succeeds(p, w, steps[n]) {
        assert steps[..n] == front;
      } else {
        SubkeyPathsWereSet(p, owner, mpc, front, ctx);
        var j :| 0 <= j < |front| && SetsPaths(front[j], ctx, paths) &&
                 Succeeds(p, Run(p, Fresh(owner, mpc), front[..j]), front[j]);
        assert front[..j] == steps[..j];
      }
    }
  }

  /**
   Every raw signing request of every run: it is not for EVM; the caller signed with a key whose
   paths, set earlier by the same account, allow the path; and on Solana and NEAR a policy stored for
   that key admits the payload, byte for byte and within its terms and counters, if it checks payloads.
   */
  lemma RawRequestsSound(p: Platform, owner: AccountId, mpc: AccountId, steps: seq<Step>, ctx: Context, call: Call)
    requires RawRequest(call).Some?
    requires var s := Run(p, Fresh(owner, mpc), steps).state; Apply(p, s, ctx, call).Some?
    ensures var s, r, key := Run(p, Fresh(owner, mpc), steps).state, RawRequest(call).value, ctx.SignerStorageKey();
            r.chain != Evm &&
            key in s.subkeys &&
            (exists e :: e in s.subkeys[key] && r.derivationPath in e.paths &&
                         (e.chain == r.chain || (r.chain == Near && e.chain == Solana))) &&
            PathsSetBefore(p, Fresh(owner, mpc), steps, ctx, s.subkeys[key]) &&
            (r.chain != Bitcoin ==> key in s.apiKeyPolicies && PayloadAdmitted(p, r.chain, s.apiKeyPolicies[key], r.payload, ctx.Seconds()))
    ensures var s, r := Run(p, Fresh(owner, mpc), steps).state, RawRequest(call).value;
            var promise := Apply(p, s, ctx, call).value.promise;
            promise.Some? && promise.value.Sign? && promise.value.path == MpcPath(ctx.predecessor, r.derivationPath) &&
            promise.value.payload == (if r.chain == Near then p.sha256(r.payload) else r.payload) &&
            if r.chain == Bitcoin then promise.value.keyType == "Ecdsa" && promise.value.domainId == 0
            else promise.value.keyType == "Eddsa" && promise.value.domainId == 1
  {
    hide Run, CheckRaw, CheckMemo, IsAllowed, PathsSetBefore, PayloadAdmitted, ComposeKey, Base58.Encode;
    var s, r := Run(p, Fresh(owner, mpc), steps).state, RawRequest(call).value;
    AllowedIff(s.subkeys[ctx.SignerStorageKey()], r.chain, r.derivationPath);
    SubkeyPathsWereSet(p, owner, mpc, steps, ctx);
    RawCheckedIff(p, r.chain, r.payload, r.memo, s.apiKeyPolicies, ctx.SignerStorageKey(), ctx.Seconds());
  }

  /** The derivation path of the four calls that ask for a signature. */
  function SigningPath(call: Call): Option<string> {
    if RawRequest(call).Some? then Some(RawRequest(call).value.derivationPath)
    else if TemplateRequest(call).Some? then Some(TemplateRequest(call).value.derivationPath)
    else None
  }

  /** A promise to the MPC contract comes from those calls only, and goes out under the caller's own path. */
  lemma PromiseIffSigning(p: Platform, s: State, ctx: Context, call: Call)
    requires Apply(p, s, ctx, call).Some?
    ensures var promise := Apply(p, s, ctx, call).value.promise;
            (promise.Some? <==> SigningPath(call).Some?) &&
            (promise.Some? ==> promise.value.path == MpcPath(ctx.predecessor, SigningPath(call).value))
  {
    hide CheckRaw, CheckTemplate, EvmDigest, Normalize, CanManagePolicy, IsAllowed, Cleaned, ValidPaths, ValidPath,
         ComposeKey, TemplateKey, CapKey, MpcPath, MpcPayload, Pushed, Without, Index, Base58.Encode;
  }

  /** Two promises under one MPC path, from whatever calls and in whatever states, come from one account and name one path. */
  lemma PathsAreNotShared(p: Platform, s: State, ctx: Context, call: Call, t: State, other: Context, otherCall: Call)
    requires Apply(p, s, ctx, call).Some? && Apply(p, t, other, otherCall).Some?
    requires var a, b := Apply(p, s, ctx, call).value.promise, Apply(p, t, other, otherCall).value.promise;
             a.Some? && b.Some? && a.value.path == b.value.path
    ensures ctx.predecessor == other.predecessor
    ensures SigningPath(call).Some? && SigningPath(call) == SigningPath(otherCall)
  {
    hide Apply, MpcPath;
    PromiseIffSigning(p, s, ctx, call);
    PromiseIffSigning(p, t, other, otherCall);
    MpcPathInjective(ctx.predecessor, SigningPath(call).value, other.predecessor, SigningPath(otherCall).value);
  }

  /** The template request of a call, with or without a request id. */
  function TemplateRequest(call: Call): Option<TemplateSignRequest> {
    match call
    case RequestTemplateSign(r) => Some(r)
    case RequestTemplateSignV2(_, r) => Some(r)
    case _ => None
  }
}
