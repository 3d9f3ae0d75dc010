/** The signer's poll for a stored signing result: a sticky endpoint, rotated in short bursts. */
module PollLoop {
  import opened Basics
  import opened Text
  import opened Library
  import opened SignatureJson
  import opened RpcHealth

  /** What one view call brings back. `Unparsable` fails the poll; `OtherKind` is not a call result. */
  datatype Reply = Value(json: Json) | Unparsable | OtherKind | Error(message: string)

  /** A reply that ends the poll. */
  predicate Decisive(p: Platform, reply: Reply)
    requires Shrinking(p)
  {
    match reply
    case Value(json) => ExtractSignature(p, json).Some? || MarkedFailed(json)
    case Unparsable => true
    case _ => false
  }

  predicate MarkedFailed(json: Json) {
    json.Get("ok").Some? && json.Get("ok").value.AsBool() == Some(false)
  }

  /** The signature a decisive reply carries, if it carries one. */
  function Signature(p: Platform, reply: Reply): Option<bytes>
    requires Shrinking(p)
  {
    if reply.Value? then ExtractSignature(p, reply.json) else None
  }

  predicate Rotates(message: string) {
    hide Classify;
    Classify(message) != Other
  }

  /** The endpoint polled at an attempt while every reply is pending. */
  function PendingIndex(attempt: nat, n: nat): nat
    requires n > 0
  {
    if attempt < 4 then 0 else (1 + (attempt - 4) / 3) % n
  }

  /** How many more times the current endpoint is kept, before an attempt of an all-pending poll. */
  function PendingSticky(attempt: nat, maxAttempts: nat): nat
    requires attempt <= maxAttempts
  {
    if attempt < 4 then (if maxAttempts < 3 then maxAttempts else 3) - Min(attempt, Min(maxAttempts, 3))
    else
      var c := (attempt - 4) % 3;
      Min(maxAttempts - attempt + c, 2) - Min(c, Min(maxAttempts - attempt + c, 2))
  }

  /** A pending reply either keeps the endpoint or moves to the next one, exactly on schedule. */
  lemma PendingStep(attempt: nat, maxAttempts: nat, n: nat)
    requires attempt < maxAttempts && n > 0
    ensures if PendingSticky(attempt, maxAttempts) > 0 then
              PendingIndex(attempt + 1, n) == PendingIndex(attempt, n) &&
              PendingSticky(attempt + 1, maxAttempts) == PendingSticky(attempt, maxAttempts) - 1
            else
              PendingIndex(attempt + 1, n) == (PendingIndex(attempt, n) + 1) % n &&
              PendingSticky(attempt + 1, maxAttempts) == Min(maxAttempts - attempt - 1, 2)
  {
    if attempt >= 4 {
      var q, c := (attempt - 4) / 3, (attempt - 4) % 3;
      if c < 2 {
        assert (attempt + 1 - 4) / 3 == q && (attempt + 1 - 4) % 3 == c + 1;
      } else {
        assert (attempt + 1 - 4) / 3 == q + 1 && (attempt + 1 - 4) % 3 == 0;
        NextModulo(1 + q, n);
      }
    } else if attempt == 3 {
      NextModulo(0, n);
    }
  }

  lemma NextModulo(x: nat, n: nat)
    requires n > 0
    ensures (x + 1) % n == (x % n + 1) % n
  {
    var q, r := x / n, x % n;
    DivModIdentity(x, n);
    MulDistrib(q, 1, n);
    if r + 1 < n {
      DivModUnique(q, r + 1, n);
      DivModUnique(0, r + 1, n);
    } else {
      DivModUnique(q + 1, 0, n);
      DivModUnique(1, 0, n);
    }
  }

  /** What the poll did: the endpoint of every call, and what became of each in the health table. */
  datatype Trace = Trace(used: seq<nat>, events: seq<Event>)

  predicate AllPending(p: Platform, replies: nat -> Reply, count: nat)
    requires Shrinking(p)
  {
    forall a: nat :: a < count ==> replies(a).Value? && !Decisive(p, replies(a))
  }

  /** What one reply means for the poll. */
  datatype Verdict = Found(signature: bytes) | Stop(error: string) | Pending | Rotate | Stay

  function Judge(p: Platform, reply: Reply): Verdict
    requires Shrinking(p)
  {
    match reply
    case Value(json) =>
      var signature := ExtractSignature(p, json);
      if signature.Some? then Found(signature.value) else if MarkedFailed(json) then Stop("MPC signing failed") else Pending
    case Unparsable => Stop("Failed to parse get_sign_result response")
    case OtherKind => Stay
    case Error(message) => if Rotates(message) then Rotate else Stay
  }

  lemma JudgeSpec(p: Platform, reply: Reply)
    requires Shrinking(p)
    ensures var v := Judge(p, reply);
            (v.Found? || v.Stop? <==> Decisive(p, reply)) &&
            (v.Found? ==> Signature(p, reply) == Some(v.signature) && SignatureLength(|v.signature|)) &&
            (v.Stop? ==> Signature(p, reply).None?) &&
            (v.Pending? <==> reply.Value? && !Decisive(p, reply))
  {
    hide ExtractSignature, Classify;
  }

  /** A reply ends the poll exactly when it is no JSON, carries a signature, or has `ok` false. */
  lemma DecisiveIff(p: Platform, reply: Reply)
    requires Shrinking(p)
    ensures Decisive(p, reply) <==>
            reply.Unparsable? || Signature(p, reply).Some? ||
            (reply.Value? && reply.json.Get("ok") == Some(Bool(false)))
  {
    hide ExtractSignature, Json.Get;
  }

  /** One call's mark in the health table: success for any call result, failure for an error. */
  function Mark(url: string, reply: Reply, now: nat): seq<Event> {
    match reply
    case Error(message) => [Failed(url, message, now)]
    case OtherKind => []
    case _ => [Succeeded(url)]
  }

  method MarkReply(table: HealthTable, url: string, reply: Reply, now: nat, ghost history: seq<Event>)
    requires table.Reflects(history)
    modifies table
    ensures table.Reflects(history + Mark(url, reply, now))
  {
    hide HealthTable.Reflects;
    match reply
    case Error(message) => table.MarkFailure(url, message, now, history);
    case OtherKind => assert history + [] == history;
    case _ => table.MarkSuccess(url, history);
  }

  predicate NoneDecisive(p: Platform, replies: nat -> Reply, count: nat)
    requires Shrinking(p)
  {
    hide Decisive;
    forall a: nat :: a < count ==> !Decisive(p, replies(a))
  }

  predicate InRange(used: seq<nat>, n: nat) {
    forall a :: 0 <= a < |used| ==> used[a] < n
  }

  /** The endpoints used so far are those of an all-pending poll. */
  predicate AsIfPending(used: seq<nat>, n: nat)
    requires n > 0
  {
    hide PendingIndex;
    forall a :: 0 <= a < |used| ==> used[a] == PendingIndex(a, n)
  }

  /** If all replies so far were pending, the poll is where the schedule says. */
  predicate OnSchedule(p: Platform, replies: nat -> Reply, used: seq<nat>, rpcIndex: nat, sticky: nat, maxAttempts: nat, n: nat)
    requires Shrinking(p) && n > 0 && |used| <= maxAttempts
  {
    hide AllPending, PendingIndex, PendingSticky, AsIfPending;
    AllPending(p, replies, |used|) ==>
      AsIfPending(used, n) && rpcIndex == PendingIndex(|used|, n) && sticky == PendingSticky(|used|, maxAttempts)
  }

  /** One more reply keeps the poll on schedule. */
  lemma ScheduleStep(p: Platform, replies: nat -> Reply, used: seq<nat>, rpcIndex: nat, sticky: nat, maxAttempts: nat, n: nat,
                     rpcIndex': nat, sticky': nat)
    requires Shrinking(p) && n > 0 && |used| < maxAttempts && OnSchedule(p, replies, used, rpcIndex, sticky, maxAttempts, n)
    requires Judge(p, replies(|used|)).Pending? ==>
               if sticky > 0 then rpcIndex' == rpcIndex && sticky' == sticky - 1
               else rpcIndex' == (rpcIndex + 1) % n && sticky' == Min(maxAttempts - |used| - 1, 2)
    ensures OnSchedule(p, replies, used + [rpcIndex], rpcIndex', sticky', maxAttempts, n)
    ensures AllPending(p, replies, |used| + 1) ==> AsIfPending(used + [rpcIndex], n)
  {
    hide Judge, Decisive, PendingIndex, PendingSticky;
    JudgeSpec(p, replies(|used|));
    PendingStep(|used|, maxAttempts, n);
    assert AllPending(p, replies, |used| + 1) ==> AllPending(p, replies, |used|);
  }

  /** Which endpoint is polled, and how many pending replies it may still give before the next takes over. */
  datatype Place = Place(index: nat, sticky: nat)

  /**
   The place of every attempt: a pending reply uses up stickiness or moves on, a rate limit, timeout or
   transport error moves on, and anything else stays.
   */
  function PlaceAt(replies: nat -> Reply, maxAttempts: nat, n: nat, attempt: nat): (place: Place)
    requires n > 0 && attempt <= maxAttempts
    ensures place.index < n
  {
    if attempt == 0 then Place(0, if maxAttempts < 3 then maxAttempts else 3) else
      var before := PlaceAt(replies, maxAttempts, n, attempt - 1);
      var left := maxAttempts - attempt;
      var onwards := Place((before.index + 1) % n, if left < 2 then left else 2);
      match replies(attempt - 1)
      case Value(_) => if before.sticky > 0 then Place(before.index, before.sticky - 1) else onwards
      case Error(message) => if Classify(message).Other? then before else onwards
      case _ => before
  }

  /** What a poll that polled these endpoints reported: each answered call as a success, each error as a failure then. */
  function Reported(urls: seq<string>, replies: nat -> Reply, clock: nat -> nat, used: seq<nat>): seq<Event>
    requires InRange(used, |urls|)
  {
    if used == [] then [] else
      var a := |used| - 1;
      Reported(urls, replies, clock, used[..a]) +
      match replies(a)
      case Value(_) => [Succeeded(urls[used[a]])]
      case Unparsable => [Succeeded(urls[used[a]])]
      case OtherKind => []
      case Error(message) => [Failed(urls[used[a]], message, clock(a))]
  }

  lemma ReportedSnoc(urls: seq<string>, replies: nat -> Reply, clock: nat -> nat, used: seq<nat>, i: nat)
    requires InRange(used, |urls|) && i < |urls|
    ensures InRange(used + [i], |urls|)
    ensures Reported(urls, replies, clock, used + [i]) ==
            Reported(urls, replies, clock, used) + Mark(urls[i], replies(|used|), clock(|used|))
  {
    assert (used + [i])[..|used|] == used;
  }

  /** Every attempt was made at its place. */
  predicate AtPlaces(replies: nat -> Reply, maxAttempts: nat, n: nat, used: seq<nat>)
    requires n > 0 && |used| <= maxAttempts
  {
    hide PlaceAt;
    forall a: nat :: a < |used| ==> used[a] == PlaceAt(replies, maxAttempts, n, a).index
  }

  /** One more reply that does not end the poll moves it to the next place. */
  lemma PlaceStep(p: Platform, replies: nat -> Reply, used: seq<nat>, rpcIndex: nat, sticky: nat, maxAttempts: nat, n: nat,
                  rpcIndex': nat, sticky': nat)
    requires Shrinking(p) && n > 0 && |used| < maxAttempts && AtPlaces(replies, maxAttempts, n, used)
    requires PlaceAt(replies, maxAttempts, n, |used|) == Place(rpcIndex, sticky)
    requires match Judge(p, replies(|used|))
             case Pending => Place(rpcIndex', sticky') == if sticky > 0 then Place(rpcIndex, sticky - 1)
                                                          else Place((rpcIndex + 1) % n, Min(maxAttempts - |used| - 1, 2))
             case Rotate => Place(rpcIndex', sticky') == Place((rpcIndex + 1) % n, Min(maxAttempts - |used| - 1, 2))
             case Stay => Place(rpcIndex', sticky') == Place(rpcIndex, sticky)
             case _ => true
    ensures AtPlaces(replies, maxAttempts, n, used + [rpcIndex])
    ensures Judge(p, replies(|used|)).Pending? || Judge(p, replies(|used|)).Rotate? || Judge(p, replies(|used|)).Stay? ==>
              PlaceAt(replies, maxAttempts, n, |used| + 1) == Place(rpcIndex', sticky')
  {
    hide ExtractSignature, Classify, MarkedFailed;
  }

  /**
   `poll_sign_result` over the endpoints in candidate order. Attempt `a` gets `replies(a)` at time
   `clock(a)`. The first decisive reply decides; without one the poll fails after all its attempts.
   */
  method PollSignResult(p: Platform, table: HealthTable, urls: seq<string>, replies: nat -> Reply, clock: nat -> nat,
                        maxAttempts: nat, ghost history: seq<Event>)
    returns (r: Result<bytes>, trace: Trace)
    requires Shrinking(p) && table.Reflects(history)
    modifies table
    ensures |trace.used| <= maxAttempts && InRange(trace.used, |urls|)
    ensures table.Reflects(history + trace.events) && trace.events == Reported(urls, replies, clock, trace.used)
    ensures trace.used != [] ==> NoneDecisive(p, replies, |trace.used| - 1)
    ensures r.Ok? ==> SignatureLength(|r.value|) && trace.used != [] && Signature(p, replies(|trace.used| - 1)) == Some(r.value)
    ensures r.Err? && urls != [] ==>
              (|trace.used| == maxAttempts && NoneDecisive(p, replies, maxAttempts)) ||
              (trace.used != [] && Decisive(p, replies(|trace.used| - 1)) && Signature(p, replies(|trace.used| - 1)).None?)
    ensures urls != [] && AllPending(p, replies, |trace.used|) ==> AsIfPending(trace.used, |urls|)
    ensures urls != [] ==> AtPlaces(replies, maxAttempts, |urls|, trace.used)
  {
    hide *;
    trace := Trace([], []);
    assert history + [] == history;
    StartOfPoll(p, urls, replies, clock, maxAttempts);
    if urls == [] {
      return Err("No RPC URLs available for poll_sign_result"), trace;
    }
    var rpcIndex: nat, sticky: nat := 0, Min(maxAttempts, 3);
    for attempt := 0 to maxAttempts
      invariant |trace.used| == attempt && rpcIndex < |urls| && InRange(trace.used, |urls|)
      invariant table.Reflects(history + trace.events) && trace.events == Reported(urls, replies, clock, trace.used)
      invariant NoneDecisive(p, replies, attempt)
      invariant OnSchedule(p, replies, trace.used, rpcIndex, sticky, maxAttempts, |urls|)
      invariant AtPlaces(replies, maxAttempts, |urls|, trace.used)
      invariant PlaceAt(replies, maxAttempts, |urls|, attempt) == Place(rpcIndex, sticky)
    {
      var url, reply := urls[rpcIndex], replies(attempt);
      var mark := Mark(url, reply, clock(attempt));
      MarkReply(table, url, reply, clock(attempt), history + trace.events);
      assert (history + trace.events) + mark == history + (trace.events + mark);
      ReportedSnoc(urls, replies, clock, trace.used, rpcIndex);
      NoneDecisiveSnoc(p, replies, attempt);
      JudgeSpec(p, reply);
      var nextIndex, nextSticky := rpcIndex, sticky;
      match Judge(p, reply) {
      case Found(signature) =>
        ScheduleStep(p, replies, trace.used, rpcIndex, sticky, maxAttempts, |urls|, 0, 0);
        PlaceStep(p, replies, trace.used, rpcIndex, sticky, maxAttempts, |urls|, 0, 0);
        return Ok(signature), Trace(trace.used + [rpcIndex], trace.events + mark);
      case Stop(error) =>
        ScheduleStep(p, replies, trace.used, rpcIndex, sticky, maxAttempts, |urls|, 0, 0);
        PlaceStep(p, replies, trace.used, rpcIndex, sticky, maxAttempts, |urls|, 0, 0);
        return Err(error), Trace(trace.used + [rpcIndex], trace.events + mark);
      case Pending =>
        if sticky > 0 {
          nextSticky := sticky - 1;
        } else {
          nextIndex, nextSticky := (rpcIndex + 1) % |urls|, Min(maxAttempts - attempt - 1, 2);
        }
      case Rotate =>
        nextIndex, nextSticky := (rpcIndex + 1) % |urls|, Min(maxAttempts - attempt - 1, 2);
      case Stay =>
      }
      ScheduleStep(p, replies, trace.used, rpcIndex, sticky, maxAttempts, |urls|, nextIndex, nextSticky);
      PlaceStep(p, replies, trace.used, rpcIndex, sticky, maxAttempts, |urls|, nextIndex, nextSticky);
      trace := Trace(trace.used + [rpcIndex], trace.events + mark);
      rpcIndex, sticky := nextIndex, nextSticky;
    }
    ScheduleMeans(p, replies, trace.used, rpcIndex, sticky, maxAttempts, |urls|);
    return Err("MPC signing timed out"), trace;
  }

  lemma StartOfPoll(p: Platform, urls: seq<string>, replies: nat -> Reply, clock: nat -> nat, maxAttempts: nat)
    requires Shrinking(p)
    ensures InRange([], |urls|) && NoneDecisive(p, replies, 0) && Reported(urls, replies, clock, []) == []
    ensures urls != [] ==> OnSchedule(p, replies, [], 0, Min(maxAttempts, 3), maxAttempts, |urls|)
    ensures urls != [] ==>
              AtPlaces(replies, maxAttempts, |urls|, []) && PlaceAt(replies, maxAttempts, |urls|, 0) == Place(0, Min(maxAttempts, 3))
  {
  }

  lemma NoneDecisiveSnoc(p: Platform, replies: nat -> Reply, count: nat)
    requires Shrinking(p) && NoneDecisive(p, replies, count)
    ensures !Decisive(p, replies(count)) ==> NoneDecisive(p, replies, count + 1)
  {
    hide Decisive;
  }

  lemma ScheduleMeans(p: Platform, replies: nat -> Reply, used: seq<nat>, rpcIndex: nat, sticky: nat, maxAttempts: nat, n: nat)
    requires Shrinking(p) && n > 0 && |used| <= maxAttempts && OnSchedule(p, replies, used, rpcIndex, sticky, maxAttempts, n)
    requires NoneDecisive(p, replies, |used|)
    ensures AllPending(p, replies, |used|) ==> AsIfPending(used, n)
    ensures used != [] ==> NoneDecisive(p, replies, |used| - 1)
  {
    hide Decisive;
  }
}
