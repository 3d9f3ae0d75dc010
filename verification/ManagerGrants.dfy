/** Who may write a policy: the stored grants, and every policy write, traced back to earlier calls. */
module ManagerGrants {
  import opened Basics
  import opened Library
  import opened ApiKeyPolicy
  import opened ContractState
  import opened RawSigning
  import opened TemplateSigning
  import opened Transitions
  import opened ContractRuns
  import opened SpendingRuns
  import PolicyWrites
  import Base58

  predicate Grants(step: Step, account: AccountId, publicKey: bytes) {
    step.External? && step.call.GrantPolicyManager? && step.ctx.predecessor == account && step.call.publicKey == publicKey
  }

  predicate Revokes(step: Step, account: AccountId, publicKey: bytes) {
    step.External? && step.call.RevokePolicyManager? && step.ctx.predecessor == account && step.call.publicKey == publicKey
  }

  /** The k-th step of a run did not panic. */
  predicate Took(p: Platform, w: World, steps: seq<Step>, k: nat)
    requires k < |steps|
  {
    hide Succeeds, Run;
    Succeeds(p, Run(p, w, steps[..k]), steps[k])
  }

  /** The account granted the key, and has not revoked it since. */
  ghost predicate GrantStands(p: Platform, w: World, steps: seq<Step>, account: AccountId, publicKey: bytes) {
    exists j :: 0 <= j < |steps| && Grants(steps[j], account, publicKey) && Took(p, w, steps, j) &&
      forall k :: j < k < |steps| && Revokes(steps[k], account, publicKey) ==> !Took(p, w, steps, k)
  }

  function StorageKey(account: AccountId, publicKey: bytes): string {
    ComposeKey(account, Base58.Encode(publicKey))
  }

  /** Every stored grant is for every policy of its account. */
  predicate GrantsAreFull(s: State) {
    forall key :: key in s.policyManagers ==> s.policyManagers[key].canManagePolicies
  }

  lemma OtherCallsKeepGrants(p: Platform, s: State, ctx: Context, call: Call)
    requires !call.GrantPolicyManager? && !call.RevokePolicyManager? && Apply(p, s, ctx, call).Some?
    ensures Apply(p, s, ctx, call).value.state.policyManagers == s.policyManagers
  {
    hide CheckRaw, CheckTemplate, EvmDigest, Normalize, Cleaned, CanManagePolicy, IsAllowed, ValidPath, ValidPaths,
         Pushed, Without, Index, ComposeKey, TemplateKey, CapKey, MpcPath, MpcPayload, Base58.Encode;
  }

  /** One step's effect on one grant. */
  lemma GrantStep(p: Platform, w: World, step: Step, account: AccountId, publicKey: bytes)
    requires GrantsAreFull(w.state)
    ensures GrantsAreFull(Next(p, w, step).state)
    ensures StorageKey(account, publicKey) in Next(p, w, step).state.policyManagers <==>
              if Grants(step, account, publicKey) && Succeeds(p, w, step) then true
              else if Revokes(step, account, publicKey) && Succeeds(p, w, step) then false
              else StorageKey(account, publicKey) in w.state.policyManagers
  {
    hide DoAddSubkey, DoSetSubkeyPaths, DoRemoveSubkey, DoRequestSign, CheckTemplate, EvmDigest, DoSetPolicy, DoRemovePolicy,
         DoCleanup, DoSetTemplate, DoRemoveTemplate, DoSetTokenCap, DoRemoveTokenCap, ComposeKey, Base58.Encode;
    if step.External? && Succeeds(p, w, step) {
      if step.call.GrantPolicyManager? || step.call.RevokePolicyManager? {
        var (caller, key) := (step.ctx.predecessor, step.call.publicKey);
        if StorageKey(caller, key) == StorageKey(account, publicKey) {
          StorageKeysDistinct(caller, key, account, publicKey);
        }
      } else {
        OtherCallsKeepGrants(p, w.state, step.ctx, step.call);
      }
    }
  }

  lemma TookEarlier(p: Platform, w: World, steps: seq<Step>, step: Step, k: nat)
    requires k <= |steps|
    ensures Took(p, w, steps + [step], k) <==> if k < |steps| then Took(p, w, steps, k) else Succeeds(p, Run(p, w, steps), step)
  {
    hide Succeeds, Run;
    assert (steps + [step])[..k] == steps[..k];
    assert steps[..|steps|] == steps;
  }

  lemma StandsSnoc(p: Platform, w: World, steps: seq<Step>, step: Step, account: AccountId, publicKey: bytes)
    ensures GrantStands(p, w, steps + [step], account, publicKey) <==>
              if Grants(step, account, publicKey) && Succeeds(p, Run(p, w, steps), step) then true
              else if Revokes(step, account, publicKey) && Succeeds(p, Run(p, w, steps), step) then false
              else GrantStands(p, w, steps, account, publicKey)
  {
    hide Succeeds, Run, Took, Grants, Revokes;
    var all := steps + [step];
    forall k | 0 <= k <= |steps|
      ensures Took(p, w, all, k) <==> if k < |steps| then Took(p, w, steps, k) else Succeeds(p, Run(p, w, steps), step)
    {
      TookEarlier(p, w, steps, step, k);
    }
    if GrantStands(p, w, steps, account, publicKey) {
      var j :| 0 <= j < |steps| && Grants(steps[j], account, publicKey) && Took(p, w, steps, j) &&
        forall k :: j < k < |steps| && Revokes(steps[k], account, publicKey) ==> !Took(p, w, steps, k);
      assert all[j] == steps[j];
    }
    if Grants(step, account, publicKey) && Succeeds(p, Run(p, w, steps), step) {
      assert all[|steps|] == step && Took(p, w, all, |steps|);
    }
    if GrantStands(p, w, all, account, publicKey) {
      var j :| 0 <= j < |all| && Grants(all[j], account, publicKey) && Took(p, w, all, j) &&
        forall k :: j < k < |all| && Revokes(all[k], account, publicKey) ==> !Took(p, w, all, k);
      assert forall k :: 0 <= k < |steps| ==> all[k] == steps[k];
      assert all[|steps|] == step;
    }
  }

  /** In every reachable state a grant is stored exactly when it was made and not revoked since, and it is full. */
  lemma {:induction false} GrantsExact(p: Platform, owner: AccountId, mpc: AccountId, steps: seq<Step>, account: AccountId,
                                       publicKey: bytes)
    ensures GrantsAreFull(Run(p, Fresh(owner, mpc), steps).state)
    ensures StorageKey(account, publicKey) in Run(p, Fresh(owner, mpc), steps).state.policyManagers <==>
              GrantStands(p, Fresh(owner, mpc), steps, account, publicKey)
  {
    hide Next, Succeeds, StorageKey;
    if steps != [] {
      var front, step := steps[..|steps| - 1], steps[|steps| - 1];
      var w := Run(p, Fresh(owner, mpc), front);
      GrantsExact(p, owner, mpc, front, account, publicKey);
      GrantStep(p, w, step, account, publicKey);
      StandsSnoc(p, Fresh(owner, mpc), front, step, account, publicKey);
      assert steps == front + [step];
    }
  }

  /**
   The gate on policy writes in every reachable state: a signing key that is not a subkey of the
   caller passes, a subkey exactly while a grant by its own account stands. Which policy is written
   does not matter, so the self-policy flag of a grant decides nothing.
   */
  lemma GateExact(p: Platform, owner: AccountId, mpc: AccountId, steps: seq<Step>, ctx: Context, targetPk: string)
    ensures var s := Run(p, Fresh(owner, mpc), steps).state;
            CanManagePolicy(s, ctx, targetPk) <==>
              (ctx.SignerStorageKey() in s.subkeys ==> GrantStands(p, Fresh(owner, mpc), steps, ctx.predecessor, ctx.signerKey))
  {
    hide Run, GrantStands, ComposeKey, Base58.Encode;
    GrantsExact(p, owner, mpc, steps, ctx.predecessor, ctx.signerKey);
  }

  // What the calls themselves ask for: none of these looks at the key that signs.

  /** A grant is made exactly on a direct call for a registered key, whichever key of the account signs it. */
  lemma GrantAcceptedIff(p: Platform, w: World, ctx: Context, publicKey: bytes, selfPolicy: Option<bool>)
    ensures Succeeds(p, w, External(ctx, GrantPolicyManager(publicKey, selfPolicy))) <==>
            ctx.Direct() && StorageKey(ctx.predecessor, publicKey) in w.state.subkeys
  {
    hide ComposeKey, Base58.Encode;
  }

  /** A grant is revoked exactly on a direct call for a key that has one. */
  lemma RevokeAcceptedIff(p: Platform, w: World, ctx: Context, publicKey: bytes)
    ensures Succeeds(p, w, External(ctx, RevokePolicyManager(publicKey))) <==>
            ctx.Direct() && StorageKey(ctx.predecessor, publicKey) in w.state.policyManagers
  {
    hide ComposeKey, Base58.Encode;
  }

  /** So a registered subkey can grant itself, and then passes the gate for every policy of its account. */
  lemma SelfGrantPassesGate(p: Platform, w: World, ctx: Context, selfPolicy: Option<bool>, targetPk: string)
    requires ctx.Direct() && ctx.SignerStorageKey() in w.state.subkeys
    ensures var step := External(ctx, GrantPolicyManager(ctx.signerKey, selfPolicy));
            Succeeds(p, w, step) && CanManagePolicy(Next(p, w, step).state, ctx, targetPk)
  {
    hide ComposeKey, Base58.Encode;
  }

  /** The ungated calls write or remove a policy exactly on a direct call for a key that has one, or could. */
  lemma UngatedWriteAcceptedIff(p: Platform, w: World, ctx: Context, publicKey: bytes, policy: Policy)
    ensures Succeeds(p, w, External(ctx, OwnerSetSignerPolicy(publicKey, policy))) <==>
            ctx.Direct() && StorageKey(ctx.predecessor, publicKey) in w.state.subkeys && Normalize(p, policy).Some?
    ensures Succeeds(p, w, External(ctx, OwnerRemoveSignerPolicy(publicKey))) <==>
            ctx.Direct() && StorageKey(ctx.predecessor, publicKey) in w.state.apiKeyPolicies
  {
    hide ComposeKey, Base58.Encode, Normalize;
  }

  /** The gated ones ask in addition for a key that the gate lets through. */
  lemma GatedWriteAcceptedIff(p: Platform, w: World, ctx: Context, publicKey: bytes, policy: Policy)
    ensures Succeeds(p, w, External(ctx, SetSignerPolicy(publicKey, policy))) <==>
            ctx.Direct() && StorageKey(ctx.predecessor, publicKey) in w.state.subkeys && Normalize(p, policy).Some? &&
            CanManagePolicy(w.state, ctx, Base58.Encode(publicKey))
    ensures Succeeds(p, w, External(ctx, RemoveSignerPolicy(publicKey))) <==>
            ctx.Direct() && StorageKey(ctx.predecessor, publicKey) in w.state.apiKeyPolicies &&
            CanManagePolicy(w.state, ctx, Base58.Encode(publicKey))
  {
    hide ComposeKey, Base58.Encode, Normalize, CanManagePolicy;
  }

  /**
   In particular the subkey that a policy limits can replace that policy by any other that normalises,
   and the replacement is what is stored: the guarantees about a policy last until its next write.
   */
  lemma LimitedKeyCanRewrite(p: Platform, w: World, ctx: Context, policy: Policy)
    requires ctx.Direct() && ctx.SignerStorageKey() in w.state.subkeys && Normalize(p, policy).Some?
    ensures var step, key := External(ctx, OwnerSetSignerPolicy(ctx.signerKey, policy)), ctx.SignerStorageKey();
            Succeeds(p, w, step) && WritesPolicy(step, key) &&
            Next(p, w, step).state.apiKeyPolicies == w.state.apiKeyPolicies[key := Normalize(p, policy).value]
  {
    hide ComposeKey, Base58.Encode, Normalize;
  }

  /**
   All that can happen to a stored policy in one step of a run: its own account writes or removes
   it, through the gate unless by the ungated calls, or a raw request signed with its own key is
   charged to it, or it stays as it was.
   */
  lemma PolicyChanges(p: Platform, owner: AccountId, mpc: AccountId, steps: seq<Step>, step: Step, account: AccountId,
                      publicKey: bytes)
    ensures var w, key := Run(p, Fresh(owner, mpc), steps), StorageKey(account, publicKey);
            var before, after := w.state.apiKeyPolicies, Next(p, w, step).state.apiKeyPolicies;
            if WritesPolicy(step, key) && Succeeds(p, w, step) then Rewrites(p, owner, mpc, steps, step, account, publicKey)
            else if MeteredBy(p, w.state, step, key).Some? then
              key in before && key in after && Charges(p, w, step, account, publicKey, before[key], after[key])
            else (key in before <==> key in after) && (key in before ==> after[key] == before[key])
  {
    hide Run, Next, Succeeds, WritesPolicy, MeteredBy, Enforce, GrantStands, ComposeKey, Base58.Encode;
    var w, key := Run(p, Fresh(owner, mpc), steps), StorageKey(account, publicKey);
    var before, after := w.state.apiKeyPolicies, Next(p, w, step).state.apiKeyPolicies;
    if MeteredBy(p, w.state, step, key).Some? {
      MeteredIsNoWrite(p, w, step, key);
    }
    if WritesPolicy(step, key) {
      if Succeeds(p, w, step) {
        WriteRewrites(p, owner, mpc, steps, step, account, publicKey);
      } else {
        PanicKeepsPolicies(p, w, step, key);
      }
    } else if key in before {
      StepEnforces(p, w, step, key);
      if MeteredBy(p, w.state, step, key).Some? {
        ChargedByOwnKey(p, w, step, account, publicKey);
      }
    } else {
      UnwrittenStaysAbsent(p, w, step, key);
    }
  }

  /**
   A successful policy write by the policy's account, after which the policy is the normalised one it
   was given, or gone; a gated one was made by a key the gate lets through.
   */
  ghost predicate Rewrites(p: Platform, owner: AccountId, mpc: AccountId, steps: seq<Step>, step: Step, account: AccountId,
                           publicKey: bytes)
  {
    var w := Run(p, Fresh(owner, mpc), steps);
    Succeeds(p, w, step) && step.External? && step.ctx.Direct() && step.ctx.predecessor == account &&
    (step.call == RemoveSignerPolicy(publicKey) || step.call == OwnerRemoveSignerPolicy(publicKey) ||
     ((step.call.SetSignerPolicy? || step.call.OwnerSetSignerPolicy?) && step.call.publicKey == publicKey)) &&
    (var key, after := StorageKey(account, publicKey), Next(p, w, step).state.apiKeyPolicies;
     if step.call.RemoveSignerPolicy? || step.call.OwnerRemoveSignerPolicy? then key !in after
     else key in after && Some(after[key]) == Normalize(p, step.call.policy)) &&
    (step.call.SetSignerPolicy? || step.call.RemoveSignerPolicy? ==>
       (step.ctx.SignerStorageKey() in w.state.subkeys ==>
          GrantStands(p, Fresh(owner, mpc), steps, account, step.ctx.signerKey)))
  }

  /** A raw request, signed with the policy's own key, that the policy meters and admits. */
  predicate Charges(p: Platform, w: World, step: Step, account: AccountId, publicKey: bytes, before: Policy, after: Policy) {
    step.External? && step.ctx.Direct() && step.ctx.predecessor == account && step.ctx.signerKey == publicKey &&
    var a := MeteredBy(p, w.state, step, StorageKey(account, publicKey));
    a.Some? && Enforce(a.value.meter, before, a.value.transfer, a.value.now) == Some(after)
  }

  lemma WriteRewrites(p: Platform, owner: AccountId, mpc: AccountId, steps: seq<Step>, step: Step, account: AccountId,
                      publicKey: bytes)
    requires WritesPolicy(step, StorageKey(account, publicKey)) && Succeeds(p, Run(p, Fresh(owner, mpc), steps), step)
    ensures Rewrites(p, owner, mpc, steps, step, account, publicKey)
  {
    hide Run, GrantStands, CanManagePolicy, Normalize, ComposeKey, Base58.Encode, DoAddSubkey, DoSetSubkeyPaths, DoRemoveSubkey,
         DoRequestSign, CheckTemplate, EvmDigest, DoGrant, DoRevoke, DoCleanup, DoSetTemplate, DoRemoveTemplate,
         DoSetTokenCap, DoRemoveTokenCap;
    StorageKeysDistinct(step.ctx.predecessor, step.call.publicKey, account, publicKey);
    GateExact(p, owner, mpc, steps, step.ctx, Base58.Encode(publicKey));
  }

  lemma MeteredIsNoWrite(p: Platform, w: World, step: Step, key: string)
    requires MeteredBy(p, w.state, step, key).Some?
    ensures key in w.state.apiKeyPolicies && !WritesPolicy(step, key)
  {
    hide Apply, Judge, ComposeKey, Base58.Encode;
  }

  lemma PanicKeepsPolicies(p: Platform, w: World, step: Step, key: string)
    requires WritesPolicy(step, key) && !Succeeds(p, w, step)
    ensures Next(p, w, step).state == w.state
  {
    hide Apply, ComposeKey, Base58.Encode;
  }

  lemma ChargedByOwnKey(p: Platform, w: World, step: Step, account: AccountId, publicKey: bytes)
    requires MeteredBy(p, w.state, step, StorageKey(account, publicKey)).Some?
    ensures step.External? && step.ctx.Direct() && step.ctx.predecessor == account && step.ctx.signerKey == publicKey
  {
    hide CheckRaw, Judge, IsAllowed, ComposeKey, Base58.Encode;
    StorageKeysDistinct(step.ctx.predecessor, step.ctx.signerKey, account, publicKey);
  }

  lemma UnwrittenStaysAbsent(p: Platform, w: World, step: Step, key: string)
    requires key !in w.state.apiKeyPolicies && !WritesPolicy(step, key)
    ensures key !in Next(p, w, step).state.apiKeyPolicies
  {
    hide Apply, WritesPolicy;
    if step.External? && Apply(p, w.state, step.ctx, step.call).Some? &&
       key in Apply(p, w.state, step.ctx, step.call).value.state.apiKeyPolicies {
      PolicyWrites.NewPoliciesAreWritten(p, w.state, step.ctx, step.call, key);
    }
  }
}
