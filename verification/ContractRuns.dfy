/**
 Whole runs of the contract: external calls, and the callbacks the runtime delivers for requests in
 flight, in any order.
 */
module ContractRuns {
  import opened Basics
  import opened Text
  import opened Library
  import opened ApiKeyPolicy
  import opened ContractState
  import opened RawSigning
  import opened TemplateSigning
  import opened Transitions
  import Base58

  /** The stored state, and the request ids whose callback has not run yet. */
  datatype World = World(state: State, inFlight: multiset<string>)

  datatype Step =
    | External(ctx: Context, call: Call)
    | Deliver(requestId: string, result: PromiseResult)

  /** The request id a call registers a callback for. */
  function CallbackId(call: Call): Option<string> {
    match call
    case RequestSignV2(id, _) => Some(id)
    case RequestTemplateSignV2(id, _) => Some(id)
    case _ => None
  }

  predicate Succeeds(p: Platform, w: World, step: Step) {
    hide Apply;
    match step
    case External(ctx, call) => Apply(p, w.state, ctx, call).Some?
    case Deliver(id, result) => id in w.inFlight && !result.NotReady?
  }

  /** A panic changes nothing; a callback runs at most once for each request. */
  function Next(p: Platform, w: World, step: Step): World {
    hide Apply;
    match step
    case External(ctx, call) =>
      var outcome := Apply(p, w.state, ctx, call);
      if outcome.None? then w
      else World(outcome.value.state,
                 if CallbackId(call).Some? then w.inFlight + multiset{CallbackId(call).value} else w.inFlight)
    case Deliver(id, result) =>
      if id !in w.inFlight then w else
        var outcome := DoComplete(w.state, id, result);
        World(if outcome.None? then w.state else outcome.value.state, w.inFlight - multiset{id})
  }

  function Run(p: Platform, w: World, steps: seq<Step>): World {
    hide Next;
    if steps == [] then w else Next(p, Run(p, w, steps[..|steps| - 1]), steps[|steps| - 1])
  }

  function Fresh(owner: AccountId, mpc: AccountId): World {
    World(NewContract(owner, mpc), multiset{})
  }

  /** The caller of the concrete runs. */
  const CALLER: Context := Context("aa", "aa", [1], 0)

  lemma RunSnoc(p: Platform, w: World, steps: seq<Step>, step: Step)
    ensures Run(p, w, steps + [step]) == Next(p, Run(p, w, steps), step)
  {
    hide Next;
    assert (steps + [step])[..|steps|] == steps;
  }

  // Subkeys and their index.

  predicate NoDuplicates(items: seq<string>) {
    forall i, j :: 0 <= i < j < |items| ==> items[i] != items[j]
  }

  /** Each account's index is duplicate-free and lists exactly its keys in the subkey map. */
  ghost predicate IndexExact(s: State) {
    (forall a: AccountId :: NoDuplicates(Index(s, a))) &&
    (forall a: AccountId, pk: string :: pk in Index(s, a) <==> ComposeKey(a, pk) in s.subkeys)
  }

  lemma {:induction false} WithoutSpec(current: seq<string>, pk: string)
    ensures forall k :: k in Without(current, pk) <==> k in current && k != pk
    ensures NoDuplicates(current) ==> NoDuplicates(Without(current, pk))
  {
    if current != [] {
      var front := current[..|current| - 1];
      WithoutSpec(front, pk);
      assert current == front + [current[|current| - 1]];
      if NoDuplicates(current) {
        assert current[|current| - 1] !in front;
      }
    }
  }

  lemma IndexUnaffected(s: State, t: State)
    requires IndexExact(s) && t.subkeyIndex == s.subkeyIndex && t.subkeys.Keys == s.subkeys.Keys
    ensures IndexExact(t)
  {
    hide ComposeKey;
    assert forall a: AccountId :: Index(t, a) == Index(s, a);
    assert forall k :: k in t.subkeys <==> k in s.subkeys by {
      assert forall k :: k in t.subkeys.Keys <==> k in s.subkeys.Keys;
    }
  }

  lemma AddKeepsIndex(s: State, ctx: Context, publicKey: bytes, paths: seq<ChainPaths>)
    requires IndexExact(s) && DoAddSubkey(s, ctx, publicKey, paths).Some?
    ensures IndexExact(DoAddSubkey(s, ctx, publicKey, paths).value.state)
  {
    hide Base58.Encode, ComposeKey;
    var t := DoAddSubkey(s, ctx, publicKey, paths).value.state;
    var pk, me := Base58.Encode(publicKey), ctx.predecessor;
    assert Index(t, me) == Pushed(Index(s, me), pk);
    forall a: AccountId ensures a != me ==> Index(t, a) == Index(s, a) {
    }
    forall a: AccountId, k: string
      ensures k in Index(t, a) <==> ComposeKey(a, k) in t.subkeys
    {
      if ComposeKey(a, k) == ComposeKey(me, pk) {
        ComposeKeyInjective(a, k, me, pk);
      }
    }
  }

  lemma RemoveKeepsIndex(s: State, ctx: Context, publicKey: bytes)
    requires IndexExact(s) && DoRemoveSubkey(s, ctx, publicKey).Some?
    ensures IndexExact(DoRemoveSubkey(s, ctx, publicKey).value.state)
  {
    hide Base58.Encode, ComposeKey;
    var t := DoRemoveSubkey(s, ctx, publicKey).value.state;
    var pk, me := Base58.Encode(publicKey), ctx.predecessor;
    WithoutSpec(Index(s, me), pk);
    assert Without([], pk) == [];
    assert Index(t, me) == Without(Index(s, me), pk);
    forall a: AccountId ensures a != me ==> Index(t, a) == Index(s, a) {
    }
    forall a: AccountId, k: string
      ensures k in Index(t, a) <==> ComposeKey(a, k) in t.subkeys
    {
      if ComposeKey(a, k) == ComposeKey(me, pk) {
        ComposeKeyInjective(a, k, me, pk);
      }
    }
  }

  /** The calls that touch the subkey map. */
  predicate SubkeyCall(call: Call) {
    call.AddSubkey? || call.SetSubkeyPaths? || call.RemoveSubkey?
  }

  lemma OtherCallsKeepSubkeys(p: Platform, s: State, ctx: Context, call: Call)
    requires !SubkeyCall(call) && Apply(p, s, ctx, call).Some?
    ensures var t := Apply(p, s, ctx, call).value.state; t.subkeys == s.subkeys && t.subkeyIndex == s.subkeyIndex
  {
    hide CheckRaw, CheckTemplate, EvmDigest, Normalize, Cleaned, CanManagePolicy, IsAllowed, ValidPath, ValidPaths,
         Pushed, Without, Index, ComposeKey, TemplateKey, CapKey, MpcPath, MpcPayload, Base58.Encode;
  }

  lemma ApplyKeepsIndex(p: Platform, s: State, ctx: Context, call: Call)
    requires IndexExact(s) && Apply(p, s, ctx, call).Some?
    ensures IndexExact(Apply(p, s, ctx, call).value.state)
  {
    hide IndexExact, DoAddSubkey, DoRemoveSubkey, DoRequestSign, CheckTemplate, EvmDigest, DoSetPolicy, DoRemovePolicy,
         DoCleanup, DoGrant, DoRevoke, ComposeKey, Base58.Encode;
    if SubkeyCall(call) {
      match call
      case AddSubkey(pk, paths) => AddKeepsIndex(s, ctx, pk, paths);
      case RemoveSubkey(pk) => RemoveKeepsIndex(s, ctx, pk);
      case SetSubkeyPaths(pk, paths) =>
        var t := DoSetSubkeyPaths(s, ctx, pk, paths).value.state;
        assert t.subkeys.Keys == s.subkeys.Keys;
        IndexUnaffected(s, t);
    } else {
      OtherCallsKeepSubkeys(p, s, ctx, call);
      IndexUnaffected(s, Apply(p, s, ctx, call).value.state);
    }
  }

  lemma NextKeepsIndex(p: Platform, w: World, step: Step)
    requires IndexExact(w.state)
    ensures IndexExact(Next(p, w, step).state)
  {
    hide IndexExact, Apply;
    if step.Deliver? {
      IndexUnaffected(w.state, Next(p, w, step).state);
    } else if Apply(p, w.state, step.ctx, step.call).Some? {
      ApplyKeepsIndex(p, w.state, step.ctx, step.call);
    }
  }

  lemma FreshIndexExact(owner: AccountId, mpc: AccountId)
    ensures IndexExact(NewContract(owner, mpc))
  {
  }

  /** In every reachable state the index is exact. */
  lemma {:induction false} IndexAlwaysExact(p: Platform, owner: AccountId, mpc: AccountId, steps: seq<Step>)
    ensures IndexExact(Run(p, Fresh(owner, mpc), steps).state)
  {
    hide Next, IndexExact;
    FreshIndexExact(owner, mpc);
    if steps != [] {
      IndexAlwaysExact(p, owner, mpc, steps[..|steps| - 1]);
      NextKeepsIndex(p, Run(p, Fresh(owner, mpc), steps[..|steps| - 1]), steps[|steps| - 1]);
    }
  }

  // What was ever registered.

  /** The storage keys registered by the successful additions of a run. */
  function Registered(p: Platform, w: World, steps: seq<Step>): set<string> {
    hide Succeeds, Run, ComposeKey, Base58.Encode;
    if steps == [] then {} else
      var front, step := steps[..|steps| - 1], steps[|steps| - 1];
      Registered(p, w, front) +
      if step.External? && step.call.AddSubkey? && Succeeds(p, Run(p, w, front), step)
      then {ComposeKey(step.ctx.predecessor, Base58.Encode(step.call.publicKey))} else {}
  }

  predicate OnlyKnownKeys(s: State, known: set<string>) {
    s.subkeys.Keys <= known && s.apiKeyPolicies.Keys <= known && s.policyManagers.Keys <= known
  }

  lemma ApplyKeepsKnownKeys(p: Platform, s: State, ctx: Context, call: Call, known: set<string>)
    requires OnlyKnownKeys(s, known) && Apply(p, s, ctx, call).Some?
    requires call.AddSubkey? ==> ComposeKey(ctx.predecessor, Base58.Encode(call.publicKey)) in known
    ensures OnlyKnownKeys(Apply(p, s, ctx, call).value.state, known)
  {
    hide CheckMemo, Judge, Enforce, CheckTemplate, EvmDigest, Normalize, Cleaned, CanManagePolicy, IsAllowed, ValidPaths, ValidPath,
         Pushed, Without, Index, Base58.Encode, ComposeKey, TemplateKey, CapKey, MpcPath, MpcPayload;
  }

  lemma NextKeepsKnownKeys(p: Platform, w: World, step: Step, known: set<string>)
    requires OnlyKnownKeys(w.state, known)
    requires step.External? && step.call.AddSubkey? && Succeeds(p, w, step) ==>
               ComposeKey(step.ctx.predecessor, Base58.Encode(step.call.publicKey)) in known
    ensures OnlyKnownKeys(Next(p, w, step).state, known)
  {
    hide Apply, Base58.Encode, ComposeKey;
    if step.External? && Succeeds(p, w, step) {
      ApplyKeepsKnownKeys(p, w.state, step.ctx, step.call, known);
    }
  }

  /** Subkeys, policies and grants exist only for keys registered at some earlier step. */
  lemma {:induction false} KeysWereRegistered(p: Platform, owner: AccountId, mpc: AccountId, steps: seq<Step>)
    ensures OnlyKnownKeys(Run(p, Fresh(owner, mpc), steps).state, Registered(p, Fresh(owner, mpc), steps))
  {
    hide Next, Succeeds, Base58.Encode, ComposeKey;
    if steps != [] {
      var w, step := Run(p, Fresh(owner, mpc), steps[..|steps| - 1]), steps[|steps| - 1];
      KeysWereRegistered(p, owner, mpc, steps[..|steps| - 1]);
      NextKeepsKnownKeys(p, w, step, Registered(p, Fresh(owner, mpc), steps));
    }
  }
}
