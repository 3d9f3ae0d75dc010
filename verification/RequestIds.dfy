/** The life of a request id: accepted, in flight, answered, cleaned up. */
module RequestIds {
  import opened Basics
  import opened Library
  import opened ContractState
  import opened RawSigning
  import opened TemplateSigning
  import opened Transitions
  import opened ContractRuns
  import Base58

  predicate AcceptsId(p: Platform, w: World, step: Step, id: string) {
    hide Succeeds;
    step.External? && CallbackId(step.call) == Some(id) && Succeeds(p, w, step)
  }

  predicate DeliversId(w: World, step: Step, id: string) {
    step.Deliver? && step.requestId == id && id in w.inFlight
  }

  /** The callbacks that store a result; one that finds its promise not ready stores nothing. */
  predicate WritesId(w: World, step: Step, id: string) {
    DeliversId(w, step, id) && !step.result.NotReady?
  }

  function AcceptCount(p: Platform, w: World, steps: seq<Step>, id: string): nat {
    hide AcceptsId, Run;
    if steps == [] then 0 else
      var front := steps[..|steps| - 1];
      AcceptCount(p, w, front, id) + if AcceptsId(p, Run(p, w, front), steps[|steps| - 1], id) then 1 else 0
  }

  function DeliverCount(p: Platform, w: World, steps: seq<Step>, id: string): nat {
    hide DeliversId, Run;
    if steps == [] then 0 else
      var front := steps[..|steps| - 1];
      DeliverCount(p, w, front, id) + if DeliversId(Run(p, w, front), steps[|steps| - 1], id) then 1 else 0
  }

  function WriteCount(p: Platform, w: World, steps: seq<Step>, id: string): nat {
    hide WritesId, Run;
    if steps == [] then 0 else
      var front := steps[..|steps| - 1];
      WriteCount(p, w, front, id) + if WritesId(Run(p, w, front), steps[|steps| - 1], id) then 1 else 0
  }

  lemma NextInFlight(p: Platform, w: World, step: Step, id: string)
    ensures Next(p, w, step).inFlight[id] + (if DeliversId(w, step, id) then 1 else 0) ==
            w.inFlight[id] + (if AcceptsId(p, w, step, id) then 1 else 0)
  {
    hide Apply;
  }

  /**
   Conservation: over any run, every request accepted for an id is either still in flight or has had
   its one callback.
   */
  lemma {:induction false} InFlightConserved(p: Platform, w: World, steps: seq<Step>, id: string)
    ensures Run(p, w, steps).inFlight[id] + DeliverCount(p, w, steps, id) == w.inFlight[id] + AcceptCount(p, w, steps, id)
    ensures WriteCount(p, w, steps, id) <= DeliverCount(p, w, steps, id)
  {
    hide Next, AcceptsId, Succeeds;
    if steps != [] {
      var front, step := steps[..|steps| - 1], steps[|steps| - 1];
      InFlightConserved(p, w, front, id);
      NextInFlight(p, Run(p, w, front), step, id);
    }
  }

  /** From a fresh contract, no id is ever answered more often than it was accepted. */
  lemma AtMostOneResultEach(p: Platform, owner: AccountId, mpc: AccountId, steps: seq<Step>, id: string)
    ensures WriteCount(p, Fresh(owner, mpc), steps, id) <= AcceptCount(p, Fresh(owner, mpc), steps, id)
  {
    hide WriteCount, AcceptCount, DeliverCount, Run;
    InFlightConserved(p, Fresh(owner, mpc), steps, id);
  }

  /** While a result is stored under an id, no request with that id is accepted. */
  lemma StoredIdRefused(p: Platform, w: World, step: Step, id: string)
    requires id in w.state.signResults
    ensures !AcceptsId(p, w, step, id)
  {
    hide DoRequestSign, DoRequestTemplateSignV2;
  }

  /** A result is stored by the id's own callback and removed by a clean-up that lists it, nothing else. */
  lemma ResultsChangeOnlyBy(p: Platform, w: World, step: Step, id: string)
    ensures id in w.state.signResults && id !in Next(p, w, step).state.signResults ==>
              step.External? && step.call.CleanupResults? && id in step.call.requestIds &&
              step.ctx.predecessor == w.state.owner
    ensures id !in w.state.signResults && id in Next(p, w, step).state.signResults ==> WritesId(w, step, id)
    ensures WritesId(w, step, id) ==>
              id in Next(p, w, step).state.signResults &&
              var stored := Next(p, w, step).state.signResults[id];
              stored.requestId == id &&
              match step.result
              case Successful(data) => stored.ok && stored.error == None && stored.payload == if |data| == 0 then None else Some(data)
              case Failed => !stored.ok && stored.payload == None && stored.error == Some("mpc sign failed")
              case NotReady => true
    ensures id in w.state.signResults && id in Next(p, w, step).state.signResults && !WritesId(w, step, id) ==>
              Next(p, w, step).state.signResults[id] == w.state.signResults[id]
  {
    hide Apply;
    if step.External? && Apply(p, w.state, step.ctx, step.call).Some? {
      CallsAndResults(p, w.state, step.ctx, step.call, id);
    }
  }

  lemma CallsAndResults(p: Platform, s: State, ctx: Context, call: Call, id: string)
    requires Apply(p, s, ctx, call).Some?
    ensures var t := Apply(p, s, ctx, call).value.state;
            if call.CleanupResults? then
              ctx.predecessor == s.owner &&
              (id in t.signResults <==> id in s.signResults && id !in call.requestIds) &&
              (id in t.signResults ==> t.signResults[id] == s.signResults[id])
            else t.signResults == s.signResults
  {
    hide CheckRaw, CheckTemplate, EvmDigest, Normalize, CanManagePolicy, IsAllowed, Cleaned, ValidPaths, ValidPath,
         ComposeKey, TemplateKey, CapKey, MpcPath, Pushed, Without, Index, Base58.Encode;
    if call.CleanupResults? {
      CleanedSpec(s.signResults, call.requestIds);
    }
  }

  /** Clean-up keeps exactly the unlisted results, and counts each listed stored id once. */
  lemma {:induction false} CleanedSpec(results: map<string, SignResult>, ids: seq<string>)
    ensures var (left, removed) := Cleaned(results, ids);
            (forall id :: id in left <==> id in results && id !in ids) &&
            (forall id :: id in left ==> left[id] == results[id]) &&
            removed == |set id | id in ids && id in results|
  {
    if ids == [] {
      assert (set id | id in ids && id in results) == {};
    } else {
      var front, id := ids[..|ids| - 1], ids[|ids| - 1];
      assert ids == front + [id];
      CleanedSpec(results, front);
      var before, after := set i | i in front && i in results, set i | i in ids && i in results;
      if id in results && id !in front {
        assert after == before + {id};
      } else {
        assert after == before;
      }
    }
  }

  /** `cleanup_results` returns exactly the number of distinct listed ids that were stored. */
  lemma CleanupCounts(p: Platform, s: State, ctx: Context, ids: seq<string>)
    requires ctx.predecessor == s.owner
    ensures Apply(p, s, ctx, CleanupResults(ids)).Some?
    ensures Apply(p, s, ctx, CleanupResults(ids)).value.count == |set id | id in ids && id in s.signResults|
  {
    CleanedSpec(s.signResults, ids);
  }

  /**
   As long as an id keeps its result, nothing new is accepted for it, so every further write comes
   from a request that was already in flight.
   */
  lemma {:induction false} LaterWritesWereInFlight(p: Platform, w: World, steps: seq<Step>, id: string)
    requires forall i :: 0 <= i < |steps| ==> id in Run(p, w, steps[..i]).state.signResults
    ensures AcceptCount(p, w, steps, id) == 0
    ensures WriteCount(p, w, steps, id) <= w.inFlight[id]
  {
    NothingAccepted(p, w, steps, id);
    hide WriteCount, AcceptCount, DeliverCount, Run;
    InFlightConserved(p, w, steps, id);
  }

  lemma {:induction false} NothingAccepted(p: Platform, w: World, steps: seq<Step>, id: string)
    requires forall i :: 0 <= i < |steps| ==> id in Run(p, w, steps[..i]).state.signResults
    ensures AcceptCount(p, w, steps, id) == 0
  {
    hide Run, AcceptsId, Succeeds;
    if steps != [] {
      var front, step := steps[..|steps| - 1], steps[|steps| - 1];
      forall i | 0 <= i < |front| ensures id in Run(p, w, front[..i]).state.signResults {
        assert front[..i] == steps[..i];
      }
      NothingAccepted(p, w, front, id);
      assert front == steps[..|front|];
      StoredIdRefused(p, Run(p, w, front), step, id);
    }
  }

  // When an id can be used.

  /** A raw request is accepted under an id exactly when no result is stored for it and the plain request is accepted. */
  lemma RawIdAcceptedIff(p: Platform, w: World, ctx: Context, id: string, request: SignRequest)
    ensures AcceptsId(p, w, External(ctx, RequestSignV2(id, request)), id) <==>
            id != "" && id !in w.state.signResults && Succeeds(p, w, External(ctx, RequestSign(request)))
  {
    hide DoRequestSign;
  }

  /** The same for a template request, which on EVM must also describe something to sign. */
  lemma TemplateIdAcceptedIff(p: Platform, w: World, ctx: Context, id: string, request: TemplateSignRequest)
    ensures AcceptsId(p, w, External(ctx, RequestTemplateSignV2(id, request)), id) <==>
            id != "" && id !in w.state.signResults && Succeeds(p, w, External(ctx, RequestTemplateSign(request))) &&
            (request.chain == Evm ==> EvmDigest(p, request).Some?)
  {
    hide CheckTemplate, EvmDigest;
  }

  /**
   How often an id is in flight does not matter: after a request was accepted under it, the next one
   is accepted under the same id exactly when it would be accepted without an id.
   */
  lemma IdInFlightAcceptedIff(p: Platform, w: World, ctx: Context, id: string, first: SignRequest, next: Context, second: SignRequest)
    requires AcceptsId(p, w, External(ctx, RequestSignV2(id, first)), id)
    ensures var after := Next(p, w, External(ctx, RequestSignV2(id, first)));
            id in after.inFlight &&
            (AcceptsId(p, after, External(next, RequestSignV2(id, second)), id) <==>
             Succeeds(p, after, External(next, RequestSign(second))))
  {
    hide DoRequestSign;
    var step := External(ctx, RequestSignV2(id, first));
    var after := Next(p, w, step);
    RawIdAcceptedIff(p, w, ctx, id, first);
    RawIdAcceptedIff(p, after, next, id, second);
    RequestsKeepResults(p, w.state, ctx, first);
  }

  lemma RequestsKeepResults(p: Platform, s: State, ctx: Context, request: SignRequest)
    ensures var r := DoRequestSign(p, s, ctx, request); r.Some? ==> r.value.state.signResults == s.signResults
  {
    hide CheckRaw, IsAllowed, ComposeKey, MpcPath, MpcPayload;
  }

  /** A key registered for one Bitcoin path, and a request under it. */
  const BITCOIN_KEY: Call := AddSubkey([1], [ChainPaths(Bitcoin, ["0"])])

  const BITCOIN_REQUEST: SignRequest := SignRequest(Bitcoin, "0", [7], None)

  /** Registering the key, and then that request twice under one id. */
  function Twice(id: string): seq<Step> {
    [External(CALLER, BITCOIN_KEY)] + [External(CALLER, RequestSignV2(id, BITCOIN_REQUEST))] +
    [External(CALLER, RequestSignV2(id, BITCOIN_REQUEST))]
  }

  /** From a new contract, both requests of that run are accepted, and both are in flight at its end. */
  lemma SameIdTwiceInFlight(p: Platform, owner: AccountId, mpc: AccountId, id: string)
    requires id != ""
    ensures AcceptCount(p, Fresh(owner, mpc), Twice(id), id) == 2
    ensures Run(p, Fresh(owner, mpc), Twice(id)).inFlight[id] == 2
  {
    hide Next, AcceptsId, Succeeds;
    var w := Fresh(owner, mpc);
    var add, again := External(CALLER, BITCOIN_KEY), External(CALLER, RequestSignV2(id, BITCOIN_REQUEST));
    var s1, s2, s3 := [add], [add] + [again], Twice(id);
    RunSnoc(p, w, [], add);
    RunSnoc(p, w, s1, again);
    RunSnoc(p, w, s2, again);
    assert [] + [add] == s1;
    BitcoinKeyAdded(p, w);
    BitcoinAccepted(p, Run(p, w, s1), id);
    BitcoinAccepted(p, Run(p, w, s2), id);
    assert s3[..2] == s2 && s2[..1] == s1 && s1[..0] == [];
    NothingInFlight(p, w, id);
    assert Run(p, w, []) == w;
    assert AcceptCount(p, w, s1, id) == 0 && AcceptCount(p, w, s2, id) == 1;
  }

  lemma NothingInFlight(p: Platform, w: World, id: string)
    requires w.inFlight == multiset{}
    ensures !AcceptsId(p, w, External(CALLER, BITCOIN_KEY), id)
    ensures Next(p, w, External(CALLER, BITCOIN_KEY)).inFlight == multiset{}
  {
    hide Apply;
  }

  predicate HasBitcoinKey(s: State) {
    CALLER.SignerStorageKey() in s.subkeys && s.subkeys[CALLER.SignerStorageKey()] == BITCOIN_KEY.paths
  }

  lemma BitcoinKeyAdded(p: Platform, w: World)
    ensures var after := Next(p, w, External(CALLER, BITCOIN_KEY));
            HasBitcoinKey(after.state) && after.state.signResults == w.state.signResults
  {
    hide ComposeKey, Base58.Encode, Index, Pushed;
  }

  /** With that key stored, the request is accepted under any id without a stored result, and changes no state. */
  lemma BitcoinAccepted(p: Platform, w: World, id: string)
    requires HasBitcoinKey(w.state) && id != "" && id !in w.state.signResults
    ensures var again := External(CALLER, RequestSignV2(id, BITCOIN_REQUEST));
            AcceptsId(p, w, again, id) && Next(p, w, again) == World(w.state, w.inFlight + multiset{id})
  {
    hide ComposeKey, Base58.Encode, MpcPayload, IsAllowed;
    BitcoinPathAllowed();
    assert CheckRaw(p, Bitcoin, [7], None, w.state.apiKeyPolicies, CALLER.SignerStorageKey(), CALLER.Seconds()) ==
           Some(w.state.apiKeyPolicies);
  }

  lemma BitcoinPathAllowed()
    ensures IsAllowed([ChainPaths(Bitcoin, ["0"])], Bitcoin, "0")
  {
    var entries := [ChainPaths(Bitcoin, ["0"])];
    assert entries[0].chain == Bitcoin && entries[0].paths[0] == "0";
  }
}
