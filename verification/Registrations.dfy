/** Which keys are registered, for which paths, after any run, and what a key that is not can no longer do. */
module Registrations {
  import opened Basics
  import opened Library
  import opened ContractState
  import opened RawSigning
  import opened TemplateSigning
  import opened Transitions
  import opened ContractRuns
  import opened Emissions
  import opened TemplateAcceptance
  import opened ManagerGrants
  import Base58

  /** The paths stored for a key. */
  function PathsAt(s: State, account: AccountId, publicKey: bytes): Option<seq<ChainPaths>> {
    var key := StorageKey(account, publicKey);
    if key in s.subkeys then Some(s.subkeys[key]) else None
  }

  predicate Adds(step: Step, account: AccountId, publicKey: bytes) {
    step.External? && step.call.AddSubkey? && step.ctx.predecessor == account && step.call.publicKey == publicKey
  }

  predicate Sets(step: Step, account: AccountId, publicKey: bytes) {
    step.External? && step.call.SetSubkeyPaths? && step.ctx.predecessor == account && step.call.publicKey == publicKey
  }

  predicate Removes(step: Step, account: AccountId, publicKey: bytes) {
    step.External? && step.call.RemoveSubkey? && step.ctx.predecessor == account && step.call.publicKey == publicKey
  }

  /** Some entry, and in every entry some path, none of them empty or with a colon; each chain once. */
  predicate WellFormed(paths: seq<ChainPaths>) {
    paths != [] && (forall e :: e in paths ==> e.paths != []) &&
    (forall e, q :: e in paths && q in e.paths ==> q != "" && ':' !in q) &&
    forall i, j :: 0 <= i < j < |paths| ==> paths[i].chain != paths[j].chain
  }

  lemma ValidPathsIff(paths: seq<ChainPaths>)
    ensures ValidPaths(paths) <==> WellFormed(paths)
  {
    if ValidPaths(paths) {
      forall e | e in paths ensures e.paths != [] && forall q :: q in e.paths ==> ValidPath(q) {
        var i :| 0 <= i < |paths| && paths[i] == e;
      }
    }
    if WellFormed(paths) {
      forall i | 0 <= i < |paths| ensures paths[i].paths != [] {
        assert paths[i] in paths;
      }
      forall i, q | 0 <= i < |paths| && q in paths[i].paths ensures ValidPath(q) {
        var e := paths[i];
        assert e in paths && q in e.paths;
        assert q != "" && ':' !in q;
      }
    }
  }

  /** When the three calls are accepted. */
  lemma RegistrationAcceptedIff(p: Platform, w: World, ctx: Context, publicKey: bytes, paths: seq<ChainPaths>)
    ensures Succeeds(p, w, External(ctx, AddSubkey(publicKey, paths))) <==> ctx.Direct() && WellFormed(paths)
    ensures Succeeds(p, w, External(ctx, SetSubkeyPaths(publicKey, paths))) <==>
            ctx.Direct() && WellFormed(paths) && PathsAt(w.state, ctx.predecessor, publicKey).Some?
    ensures Succeeds(p, w, External(ctx, RemoveSubkey(publicKey))) <==>
            ctx.Direct() && PathsAt(w.state, ctx.predecessor, publicKey).Some?
  {
    hide ValidPaths, WellFormed, ComposeKey, Base58.Encode, Index, Pushed, Without;
    ValidPathsIff(paths);
  }

  /** One step's exact effect on one key. */
  lemma SubkeyStep(p: Platform, w: World, step: Step, account: AccountId, publicKey: bytes)
    ensures PathsAt(Next(p, w, step).state, account, publicKey) ==
            if Succeeds(p, w, step) && (Adds(step, account, publicKey) || Sets(step, account, publicKey)) then Some(step.call.paths)
            else if Succeeds(p, w, step) && Removes(step, account, publicKey) then None
            else PathsAt(w.state, account, publicKey)
  {
    hide DoRequestSign, CheckTemplate, EvmDigest, DoSetPolicy, DoRemovePolicy, DoCleanup, DoGrant, DoRevoke, DoSetTemplate,
         DoRemoveTemplate, DoSetTokenCap, DoRemoveTokenCap, ComposeKey, Base58.Encode, ValidPaths, Pushed, Without, Index;
    if step.External? && Apply(p, w.state, step.ctx, step.call).Some? {
      if SubkeyCall(step.call) {
        if StorageKey(step.ctx.predecessor, step.call.publicKey) == StorageKey(account, publicKey) {
          StorageKeysDistinct(step.ctx.predecessor, step.call.publicKey, account, publicKey);
        }
      } else {
        OtherCallsKeepSubkeys(p, w.state, step.ctx, step.call);
      }
    }
  }

  /** The last successful call about the key in a run added it with these paths, or set them. */
  ghost predicate PathsStand(p: Platform, w: World, steps: seq<Step>, account: AccountId, publicKey: bytes, paths: seq<ChainPaths>) {
    exists j :: 0 <= j < |steps| && Took(p, w, steps, j) &&
      Gives(steps[j], account, publicKey, paths) &&
      forall k :: j < k < |steps| && Took(p, w, steps, k) ==> !Touches(steps[k], account, publicKey)
  }

  /** The call gives the key these paths. */
  predicate Gives(step: Step, account: AccountId, publicKey: bytes, paths: seq<ChainPaths>) {
    (Adds(step, account, publicKey) || Sets(step, account, publicKey)) && step.call.paths == paths
  }

  predicate Touches(step: Step, account: AccountId, publicKey: bytes) {
    Adds(step, account, publicKey) || Sets(step, account, publicKey) || Removes(step, account, publicKey)
  }

  lemma GivesTouches(step: Step, account: AccountId, publicKey: bytes, paths: seq<ChainPaths>)
    ensures Gives(step, account, publicKey, paths) ==> Touches(step, account, publicKey)
  {
  }

  lemma PathsStandSnoc(p: Platform, w: World, steps: seq<Step>, step: Step, account: AccountId, publicKey: bytes, paths: seq<ChainPaths>)
    ensures PathsStand(p, w, steps + [step], account, publicKey, paths) <==>
            if Touches(step, account, publicKey) && Succeeds(p, Run(p, w, steps), step)
            then Gives(step, account, publicKey, paths)
            else PathsStand(p, w, steps, account, publicKey, paths)
  {
    hide Succeeds, Run, Took, Gives, Touches;
    GivesTouches(step, account, publicKey, paths);
    var all := steps + [step];
    forall k | 0 <= k <= |steps|
      ensures Took(p, w, all, k) <==> if k < |steps| then Took(p, w, steps, k) else Succeeds(p, Run(p, w, steps), step)
    {
      TookEarlier(p, w, steps, step, k);
    }
    assert all[|steps|] == step && forall k :: 0 <= k < |steps| ==> all[k] == steps[k];
    if PathsStand(p, w, steps, account, publicKey, paths) {
      var j :| 0 <= j < |steps| && Took(p, w, steps, j) &&
        Gives(steps[j], account, publicKey, paths) &&
        forall k :: j < k < |steps| && Took(p, w, steps, k) ==> !Touches(steps[k], account, publicKey);
      assert all[j] == steps[j];
    }
    if PathsStand(p, w, all, account, publicKey, paths) {
      var j :| 0 <= j < |all| && Took(p, w, all, j) &&
        Gives(all[j], account, publicKey, paths) &&
        forall k :: j < k < |all| && Took(p, w, all, k) ==> !Touches(all[k], account, publicKey);
    }
  }

  /**
   In every reachable state a key is registered, with these paths, if and only if the last successful
   call about it added it with them or set them.
   */
  lemma {:induction false} PathsExact(p: Platform, owner: AccountId, mpc: AccountId, steps: seq<Step>, account: AccountId,
                                      publicKey: bytes, paths: seq<ChainPaths>)
    ensures PathsAt(Run(p, Fresh(owner, mpc), steps).state, account, publicKey) == Some(paths) <==>
            PathsStand(p, Fresh(owner, mpc), steps, account, publicKey, paths)
  {
    hide Next, Succeeds, PathsAt, PathsStand;
    if steps == [] {
      NothingRegistered(p, owner, mpc, account, publicKey, paths);
    } else {
      var front, step := steps[..|steps| - 1], steps[|steps| - 1];
      PathsExact(p, owner, mpc, front, account, publicKey, paths);
      SubkeyStep(p, Run(p, Fresh(owner, mpc), front), step, account, publicKey);
      PathsStandSnoc(p, Fresh(owner, mpc), front, step, account, publicKey, paths);
      assert steps == front + [step];
    }
  }

  lemma NothingRegistered(p: Platform, owner: AccountId, mpc: AccountId, account: AccountId, publicKey: bytes, paths: seq<ChainPaths>)
    ensures PathsAt(Fresh(owner, mpc).state, account, publicKey).None?
    ensures !PathsStand(p, Fresh(owner, mpc), [], account, publicKey, paths)
  {
    hide ComposeKey, Base58.Encode;
  }

  /** The key was added, and not removed since. */
  ghost predicate RegistrationStands(p: Platform, w: World, steps: seq<Step>, account: AccountId, publicKey: bytes) {
    exists j :: 0 <= j < |steps| && Took(p, w, steps, j) && Adds(steps[j], account, publicKey) &&
      forall k :: j < k < |steps| && Took(p, w, steps, k) ==> !Removes(steps[k], account, publicKey)
  }

  lemma RegistrationSnoc(p: Platform, w: World, steps: seq<Step>, step: Step, account: AccountId, publicKey: bytes)
    ensures RegistrationStands(p, w, steps + [step], account, publicKey) <==>
            if Adds(step, account, publicKey) && Succeeds(p, Run(p, w, steps), step) then true
            else if Removes(step, account, publicKey) && Succeeds(p, Run(p, w, steps), step) then false
            else RegistrationStands(p, w, steps, account, publicKey)
  {
    hide Succeeds, Run, Took, Adds, Removes;
    var all := steps + [step];
    forall k | 0 <= k <= |steps|
      ensures Took(p, w, all, k) <==> if k < |steps| then Took(p, w, steps, k) else Succeeds(p, Run(p, w, steps), step)
    {
      TookEarlier(p, w, steps, step, k);
    }
    assert all[|steps|] == step && forall k :: 0 <= k < |steps| ==> all[k] == steps[k];
    if RegistrationStands(p, w, steps, account, publicKey) {
      var j :| 0 <= j < |steps| && Took(p, w, steps, j) && Adds(steps[j], account, publicKey) &&
        forall k :: j < k < |steps| && Took(p, w, steps, k) ==> !Removes(steps[k], account, publicKey);
      assert all[j] == steps[j];
    }
    if RegistrationStands(p, w, all, account, publicKey) {
      var j :| 0 <= j < |all| && Took(p, w, all, j) && Adds(all[j], account, publicKey) &&
        forall k :: j < k < |all| && Took(p, w, all, k) ==> !Removes(all[k], account, publicKey);
    }
  }

  /** In every reachable state a key is registered if and only if it was added and not removed since. */
  lemma {:induction false} RegistrationsExact(p: Platform, owner: AccountId, mpc: AccountId, steps: seq<Step>, account: AccountId,
                                              publicKey: bytes)
    ensures PathsAt(Run(p, Fresh(owner, mpc), steps).state, account, publicKey).Some? <==>
            RegistrationStands(p, Fresh(owner, mpc), steps, account, publicKey)
  {
    hide Next, Succeeds, PathsAt, RegistrationStands;
    if steps == [] {
      NothingRegistered(p, owner, mpc, account, publicKey, []);
      NothingStands(p, owner, mpc, account, publicKey);
    } else {
      var front, step := steps[..|steps| - 1], steps[|steps| - 1];
      var w := Run(p, Fresh(owner, mpc), front);
      RegistrationsExact(p, owner, mpc, front, account, publicKey);
      SubkeyStep(p, w, step, account, publicKey);
      RegistrationSnoc(p, Fresh(owner, mpc), front, step, account, publicKey);
      if Sets(step, account, publicKey) && Succeeds(p, w, step) {
        RegistrationAcceptedIff(p, w, step.ctx, publicKey, step.call.paths);
        assert step == External(step.ctx, SetSubkeyPaths(publicKey, step.call.paths));
      }
      assert steps == front + [step];
    }
  }

  lemma NothingStands(p: Platform, owner: AccountId, mpc: AccountId, account: AccountId, publicKey: bytes)
    ensures !RegistrationStands(p, Fresh(owner, mpc), [], account, publicKey)
  {
  }

  // What a key can sign.

  /** The chain a signing call is for. */
  function SigningChain(call: Call): Option<Chain> {
    if RawRequest(call).Some? then Some(RawRequest(call).value.chain)
    else if TemplateRequest(call).Some? then Some(TemplateRequest(call).value.chain)
    else None
  }

  /** Every accepted signing call is signed with a registered key that lists its path for its chain. */
  lemma SignersAreRegistered(p: Platform, s: State, ctx: Context, call: Call)
    requires SigningChain(call).Some? && Apply(p, s, ctx, call).Some?
    ensures var paths := PathsAt(s, ctx.predecessor, ctx.signerKey);
            var chain := SigningChain(call).value;
            paths.Some? &&
            exists e :: e in paths.value && SigningPath(call).value in e.paths && (e.chain == chain || (chain == Near && e.chain == Solana))
  {
    hide CheckRaw, PolicyAllowsTemplate, TemplateAllows, EvmDigest, IsAllowed, ComposeKey, TemplateKey, CapKey, Base58.Encode,
         MpcPath, MpcPayload, DoAddSubkey, DoSetSubkeyPaths, DoRemoveSubkey, DoSetPolicy, DoRemovePolicy, DoCleanup, DoGrant, DoRevoke,
         DoSetTemplate, DoRemoveTemplate, DoSetTokenCap, DoRemoveTokenCap;
    AllowedIff(s.subkeys[ctx.SignerStorageKey()], SigningChain(call).value, SigningPath(call).value);
  }

  /** In any run, once a key is removed no signing call with it is accepted until it is added again. */
  lemma RemovedKeysSignNothing(p: Platform, owner: AccountId, mpc: AccountId, steps: seq<Step>, ctx: Context, call: Call, removed: nat)
    requires removed < |steps| && Removes(steps[removed], ctx.predecessor, ctx.signerKey) && Took(p, Fresh(owner, mpc), steps, removed)
    requires forall k :: removed < k < |steps| && Took(p, Fresh(owner, mpc), steps, k) ==>
               !Adds(steps[k], ctx.predecessor, ctx.signerKey)
    requires SigningChain(call).Some?
    ensures Apply(p, Run(p, Fresh(owner, mpc), steps).state, ctx, call) == None
  {
    hide Run, Took, Adds, Removes, PathsAt, Apply;
    var s := Run(p, Fresh(owner, mpc), steps).state;
    RegistrationsExact(p, owner, mpc, steps, ctx.predecessor, ctx.signerKey);
    forall j | 0 <= j < |steps| && Took(p, Fresh(owner, mpc), steps, j) && Adds(steps[j], ctx.predecessor, ctx.signerKey)
      ensures j < removed
    {
      AddsIsNotRemoves(steps[removed], ctx.predecessor, ctx.signerKey);
    }
    if Apply(p, s, ctx, call).Some? {
      SignersAreRegistered(p, s, ctx, call);
    }
  }

  lemma AddsIsNotRemoves(step: Step, account: AccountId, publicKey: bytes)
    requires Removes(step, account, publicKey)
    ensures !Adds(step, account, publicKey)
  {
  }

  /** In any run, a key whose paths were only ever set for Solana makes no request for EVM or Bitcoin. */
  lemma SolanaKeysStayOff(p: Platform, owner: AccountId, mpc: AccountId, steps: seq<Step>, ctx: Context, call: Call)
    requires forall k: nat, paths: seq<ChainPaths>, e: ChainPaths ::
               k < |steps| && Gives(steps[k], ctx.predecessor, ctx.signerKey, paths) && e in paths ==> e.chain == Solana
    requires SigningChain(call) == Some(Evm) || SigningChain(call) == Some(Bitcoin)
    ensures Apply(p, Run(p, Fresh(owner, mpc), steps).state, ctx, call) == None
  {
    hide Run, Took, PathsAt, Apply, SigningChain, Gives;
    var s := Run(p, Fresh(owner, mpc), steps).state;
    if Apply(p, s, ctx, call).Some? {
      SignersAreRegistered(p, s, ctx, call);
      var paths := PathsAt(s, ctx.predecessor, ctx.signerKey).value;
      PathsExact(p, owner, mpc, steps, ctx.predecessor, ctx.signerKey, paths);
    }
  }
}
