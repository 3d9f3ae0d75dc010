/** The owner's calls: who may make them, and exactly what each changes. */
module OwnerCalls {
  import opened Basics
  import opened Library
  import opened ContractState
  import opened RawSigning
  import opened TemplateSigning
  import opened Transitions
  import opened ContractRuns
  import Base58

  predicate OwnerCall(call: Call) {
    call.SetTemplate? || call.RemoveTemplate? || call.SetTokenCap? || call.RemoveTokenCap? || call.SetMpc? || call.CleanupResults?
  }

  function TemplateAt(s: State, chain: Chain, id: string): Option<TxTemplate> {
    var key := TemplateKey(chain, id);
    if key in s.templates then Some(s.templates[key]) else None
  }

  function CapAt(s: State, chain: Chain, token: string): Option<nat> {
    var key := CapKey(chain, token);
    if key in s.tokenCaps then Some(s.tokenCaps[key]) else None
  }

  /** The owner makes these calls, and is refused only what is malformed or not there. */
  lemma OwnerCallAcceptedIff(p: Platform, w: World, ctx: Context, call: Call)
    requires OwnerCall(call)
    ensures Succeeds(p, w, External(ctx, call)) <==>
            ctx.predecessor == w.state.owner &&
            match call
            case SetTemplate(t) => t.templateId != "" && (t.allowedTokens.None? || "" !in t.allowedTokens.value)
            case RemoveTemplate(chain, id) => TemplateAt(w.state, chain, id).Some?
            case SetTokenCap(chain, token, _) => token != Some("")
            case RemoveTokenCap(chain, token) => CapAt(w.state, chain, token.UnwrapOr("native")).Some?
            case _ => true
  {
    hide TemplateKey, CapKey;
  }

  lemma OtherCallsKeepOwned(p: Platform, s: State, ctx: Context, call: Call)
    requires !OwnerCall(call) && Apply(p, s, ctx, call).Some?
    ensures var t := Apply(p, s, ctx, call).value.state;
            t.owner == s.owner && t.mpc == s.mpc && t.templates == s.templates && t.tokenCaps == s.tokenCaps
  {
    hide CheckRaw, CheckTemplate, EvmDigest, Normalize, CanManagePolicy, IsAllowed, ValidPath, ValidPaths, Pushed, Without, Index,
         ComposeKey, TemplateKey, CapKey, MpcPath, MpcPayload, Base58.Encode;
  }

  /** The step's call, if it did not panic. */
  function Made(p: Platform, w: World, step: Step): Option<Call> {
    hide Succeeds;
    if step.External? && Succeeds(p, w, step) then Some(step.call) else None
  }

  /** One step's exact effect on the accounts, on one template and on one cap. */
  lemma AccountsStep(p: Platform, w: World, step: Step)
    ensures var s, t, call := w.state, Next(p, w, step).state, Made(p, w, step);
            t.owner == s.owner && t.mpc == if call.Some? && call.value.SetMpc? then call.value.mpc else s.mpc
  {
    hide TemplateKey, CapKey, Cleaned, DoAddSubkey, DoSetSubkeyPaths, DoRemoveSubkey, DoRequestSign, CheckTemplate, EvmDigest, DoSetPolicy,
         DoRemovePolicy, DoGrant, DoRevoke;
    if step.External? && Apply(p, w.state, step.ctx, step.call).Some? && !OwnerCall(step.call) {
      OtherCallsKeepOwned(p, w.state, step.ctx, step.call);
    }
  }

  lemma TemplateStep(p: Platform, w: World, step: Step, chain: Chain, id: string)
    ensures var s, t, call := w.state, Next(p, w, step).state, Made(p, w, step);
            TemplateAt(t, chain, id) ==
            if call.Some? && call.value.SetTemplate? && call.value.template.chain == chain && call.value.template.templateId == id
            then Some(call.value.template)
            else if call == Some(RemoveTemplate(chain, id)) then None
            else TemplateAt(s, chain, id)
  {
    hide TemplateKey, CapKey, Cleaned, DoAddSubkey, DoSetSubkeyPaths, DoRemoveSubkey, DoRequestSign, CheckTemplate, EvmDigest, DoSetPolicy,
         DoRemovePolicy, DoGrant, DoRevoke, DoSetTokenCap, DoRemoveTokenCap;
    if step.External? && Apply(p, w.state, step.ctx, step.call).Some? {
      if step.call.SetTemplate? || step.call.RemoveTemplate? {
        TemplateKeysDistinct(step.call, chain, id);
      } else {
        TemplatesKept(p, w.state, step.ctx, step.call);
      }
    }
  }

  lemma CapStep(p: Platform, w: World, step: Step, chain: Chain, token: string)
    ensures var s, t, call := w.state, Next(p, w, step).state, Made(p, w, step);
            CapAt(t, chain, token) ==
            if call.Some? && call.value.SetTokenCap? && call.value.chain == chain && call.value.token.UnwrapOr("native") == token
            then Some(call.value.maxAmount)
            else if call.Some? && call.value.RemoveTokenCap? && call.value.chain == chain && call.value.token.UnwrapOr("native") == token
            then None
            else CapAt(s, chain, token)
  {
    hide TemplateKey, CapKey, Cleaned, DoAddSubkey, DoSetSubkeyPaths, DoRemoveSubkey, DoRequestSign, CheckTemplate, EvmDigest, DoSetPolicy,
         DoRemovePolicy, DoGrant, DoRevoke, DoSetTemplate, DoRemoveTemplate;
    if step.External? && Apply(p, w.state, step.ctx, step.call).Some? {
      if step.call.SetTokenCap? || step.call.RemoveTokenCap? {
        CapKeysDistinct(step.call, chain, token);
      } else {
        CapsKept(p, w.state, step.ctx, step.call);
      }
    }
  }

  lemma TemplatesKept(p: Platform, s: State, ctx: Context, call: Call)
    requires !call.SetTemplate? && !call.RemoveTemplate? && Apply(p, s, ctx, call).Some?
    ensures Apply(p, s, ctx, call).value.state.templates == s.templates
  {
    hide TemplateKey, CapKey, Cleaned, DoAddSubkey, DoSetSubkeyPaths, DoRemoveSubkey, DoRequestSign, CheckTemplate, EvmDigest, DoSetPolicy,
         DoRemovePolicy, DoGrant, DoRevoke, DoSetTemplate, DoRemoveTemplate;
    if !OwnerCall(call) {
      OtherCallsKeepOwned(p, s, ctx, call);
    }
  }

  lemma CapsKept(p: Platform, s: State, ctx: Context, call: Call)
    requires !call.SetTokenCap? && !call.RemoveTokenCap? && Apply(p, s, ctx, call).Some?
    ensures Apply(p, s, ctx, call).value.state.tokenCaps == s.tokenCaps
  {
    hide TemplateKey, CapKey, Cleaned, DoAddSubkey, DoSetSubkeyPaths, DoRemoveSubkey, DoRequestSign, CheckTemplate, EvmDigest, DoSetPolicy,
         DoRemovePolicy, DoGrant, DoRevoke, DoSetTokenCap, DoRemoveTokenCap;
    if !OwnerCall(call) {
      OtherCallsKeepOwned(p, s, ctx, call);
    }
  }

  lemma TemplateKeysDistinct(call: Call, chain: Chain, id: string)
    ensures call.SetTemplate? && TemplateKey(call.template.chain, call.template.templateId) == TemplateKey(chain, id) ==>
              call.template.chain == chain && call.template.templateId == id
    ensures call.RemoveTemplate? && TemplateKey(call.chain, call.templateId) == TemplateKey(chain, id) ==>
              call.chain == chain && call.templateId == id
  {
    hide TemplateKey;
    if call.SetTemplate? && TemplateKey(call.template.chain, call.template.templateId) == TemplateKey(chain, id) {
      TemplateKeyInjective(call.template.chain, call.template.templateId, chain, id);
    }
    if call.RemoveTemplate? && TemplateKey(call.chain, call.templateId) == TemplateKey(chain, id) {
      TemplateKeyInjective(call.chain, call.templateId, chain, id);
    }
  }

  lemma CapKeysDistinct(call: Call, chain: Chain, token: string)
    ensures (call.SetTokenCap? || call.RemoveTokenCap?) && CapKey(call.chain, call.token.UnwrapOr("native")) == CapKey(chain, token) ==>
              call.chain == chain && call.token.UnwrapOr("native") == token
  {
    if call.SetTokenCap? || call.RemoveTokenCap? {
      if CapKey(call.chain, call.token.UnwrapOr("native")) == CapKey(chain, token) {
        TemplateKeyInjective(call.chain, call.token.UnwrapOr("native"), chain, token);
      }
    }
  }

  /** In every run only the owner it began with changes what is the owner's. */
  lemma {:induction false} OwnerKeepsControl(p: Platform, owner: AccountId, mpc: AccountId, steps: seq<Step>, step: Step)
    ensures var s := Run(p, Fresh(owner, mpc), steps).state;
            var t := Next(p, Run(p, Fresh(owner, mpc), steps), step).state;
            s.owner == owner &&
            (t.mpc != s.mpc || t.templates != s.templates || t.tokenCaps != s.tokenCaps ==>
               step.External? && step.ctx.predecessor == owner && OwnerCall(step.call))
  {
    hide Next, Apply, OwnerCall;
    OwnerStays(p, owner, mpc, steps);
    OnlyOwnerChanges(p, Run(p, Fresh(owner, mpc), steps), step);
  }

  lemma {:induction false} OwnerStays(p: Platform, owner: AccountId, mpc: AccountId, steps: seq<Step>)
    ensures Run(p, Fresh(owner, mpc), steps).state.owner == owner
  {
    hide Next;
    if steps != [] {
      OwnerStays(p, owner, mpc, steps[..|steps| - 1]);
      AccountsStep(p, Run(p, Fresh(owner, mpc), steps[..|steps| - 1]), steps[|steps| - 1]);
    }
  }

  lemma OnlyOwnerChanges(p: Platform, w: World, step: Step)
    ensures var s, t := w.state, Next(p, w, step).state;
            t.mpc != s.mpc || t.templates != s.templates || t.tokenCaps != s.tokenCaps ==>
              step.External? && step.ctx.predecessor == s.owner && OwnerCall(step.call)
  {
    hide Apply, OwnerCall;
    if step.External? && Apply(p, w.state, step.ctx, step.call).Some? {
      if OwnerCall(step.call) {
        OwnerCallAcceptedIff(p, w, step.ctx, step.call);
      } else {
        OtherCallsKeepOwned(p, w.state, step.ctx, step.call);
      }
    }
  }
}
