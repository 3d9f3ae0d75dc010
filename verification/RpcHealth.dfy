/** The signer's table of RPC endpoint health: back-off after failures, and the ranking drawn from it. */
module RpcHealth {
  import opened Basics
  import opened Text

  const BASE_COOLDOWN_MS := 5_000
  const MAX_COOLDOWN_MS := 120_000
  const REQUEST_ID_REUSED_COOLDOWN_MS := 2_000
  const RATE_LIMIT_COOLDOWN_MIN_MS := 60_000
  const RATE_LIMIT_COOLDOWN_MAX_MS := 180_000
  const MEDIUM_COOLDOWN_MIN_MS := 15_000
  const MEDIUM_COOLDOWN_MAX_MS := 60_000

  datatype ErrorClass = RateLimited | Timeout | Transport | Other

  function ToAsciiLower(s: string): (t: string)
    ensures |t| == |s|
  {
    seq(|s|, i requires 0 <= i < |s| => AsciiLower(s[i]))
  }

  predicate PartAt(text: string, part: string, i: nat) {
    i + |part| <= |text| && text[i..i + |part|] == part
  }

  predicate Contains(text: string, part: string) {
    exists i :: 0 <= i <= |text| && PartAt(text, part, i)
  }

  predicate ContainsAny(text: string, parts: seq<string>) {
    exists k :: 0 <= k < |parts| && Contains(text, parts[k])
  }

  function Classify(error: string): ErrorClass {
    var text := ToAsciiLower(error);
    if ContainsAny(text, ["429", "too many requests", "rate limit", "quota", "throttl"]) then RateLimited
    else if ContainsAny(text, ["timed out", "timeout", "504", "408"]) then Timeout
    else if ContainsAny(text, ["econnrefused", "enotfound", "econnreset", "network", "fetch failed", "failed to fetch", "tls", "dns"])
    then Transport
    else Other
  }

  /** The request ran already: a sign of the caller's retry, not of the endpoint. */
  predicate RequestIdReused(error: string) {
    Contains(ToAsciiLower(error), "request_id already used")
  }

  datatype Health = Health(failures: nat, cooldownUntilMs: nat, lastFailureAtMs: nat)

  const HEALTHY := Health(0, 0, 0)

  function Min(a: nat, b: nat): nat {
    if a < b then a else b
  }

  function Clamp(n: nat, lo: nat, hi: nat): nat
    requires lo <= hi
  {
    if n < lo then lo else if n > hi then hi else n
  }

  /** `BASE * 2^(failures - 1)`, capped; failures never exceed 8, so nothing saturates. */
  function Backoff(failures: nat): nat {
    Min(BASE_COOLDOWN_MS * Pow(2, if failures == 0 then 0 else failures - 1), MAX_COOLDOWN_MS)
  }

  function Cooldown(error: string, failures: nat, now: nat): nat {
    if RequestIdReused(error) then REQUEST_ID_REUSED_COOLDOWN_MS
    else
      match Classify(error)
      case RateLimited => RATE_LIMIT_COOLDOWN_MIN_MS + now % (RATE_LIMIT_COOLDOWN_MAX_MS - RATE_LIMIT_COOLDOWN_MIN_MS + 1)
      case Other => Backoff(failures)
      case _ => Clamp(Backoff(failures), MEDIUM_COOLDOWN_MIN_MS, MEDIUM_COOLDOWN_MAX_MS)
  }

  function AfterSuccess(h: Health): Health {
    Health(if h.failures == 0 then 0 else h.failures - 1, 0, h.lastFailureAtMs)
  }

  function AfterFailure(h: Health, error: string, now: nat): Health {
    var failures := if RequestIdReused(error) then h.failures else Min(h.failures + 1, 8);
    Health(failures, now + Cooldown(error, failures, now), now)
  }

  datatype Event = Succeeded(url: string) | Failed(url: string, error: string, now: nat)

  /** One endpoint's health after a history of events, oldest first. */
  function HealthAfter(events: seq<Event>, url: string): Health {
    if events == [] then HEALTHY else
      var before := HealthAfter(events[..|events| - 1], url);
      var e := events[|events| - 1];
      if e.url != url then before
      else match e
        case Succeeded(_) => AfterSuccess(before)
        case Failed(_, error, now) => AfterFailure(before, error, now)
  }

  predicate Cooling(h: Health, now: nat) {
    h.cooldownUntilMs > now
  }

  /** When the endpoint last failed, and whether it has succeeded since. */
  function LastFailure(events: seq<Event>, url: string): Option<(nat, bool)> {
    if events == [] then None else
      var before := LastFailure(events[..|events| - 1], url);
      var e := events[|events| - 1];
      if e.url != url then before
      else match e
        case Succeeded(_) => if before.None? then None else Some((before.value.0, true))
        case Failed(_, _, now) => Some((now, false))
  }

  lemma {:induction false} BackoffBound(failures: nat)
    requires failures <= 8
    ensures BASE_COOLDOWN_MS <= Backoff(failures) <= MAX_COOLDOWN_MS
  {
    PowPositive(2, if failures == 0 then 0 else failures - 1);
  }

  lemma CooldownBound(error: string, failures: nat, now: nat)
    requires failures <= 8
    ensures REQUEST_ID_REUSED_COOLDOWN_MS <= Cooldown(error, failures, now) <= RATE_LIMIT_COOLDOWN_MAX_MS
  {
    hide Backoff, Classify, RequestIdReused;
    BackoffBound(failures);
  }

  /** How long each kind of failure keeps an endpoint back. */
  lemma CooldownByClass(error: string, failures: nat, now: nat)
    requires 1 <= failures <= 8
    ensures var c := Cooldown(error, failures, now);
            if RequestIdReused(error) then c == 2_000 else
              match Classify(error)
              case RateLimited => 60_000 <= c <= 180_000
              case Other => 5_000 <= c <= 120_000
              case _ => 15_000 <= c <= 60_000
    ensures failures < 8 ==> Backoff(failures + 1) == Min(2 * Backoff(failures), 120_000)
    ensures Backoff(0) == Backoff(1) == 5_000
    ensures !RequestIdReused(error) && Classify(error) == RateLimited ==> Cooldown(error, failures, now) == 60_000 + now % 120_001
    ensures !RequestIdReused(error) && Classify(error) == Other ==> Cooldown(error, failures, now) == Backoff(failures)
    ensures !RequestIdReused(error) && (Classify(error) == Timeout || Classify(error) == Transport) ==>
              Cooldown(error, failures, now) ==
              if Backoff(failures) < 15_000 then 15_000 else if Backoff(failures) > 60_000 then 60_000 else Backoff(failures)
  {
    hide Classify, RequestIdReused;
    BackoffBound(failures);
    var p := Pow(2, failures - 1);
    assert Pow(2, failures) == 2 * p;
  }

  /** What one more event does: a failure counts up to 8 unless the request id was used, a success counts down to 0. */
  lemma EventExact(events: seq<Event>, e: Event, url: string)
    ensures var before, after := HealthAfter(events, url), HealthAfter(events + [e], url);
            if e.url != url then after == before
            else if e.Succeeded? then
              after.failures == (if before.failures > 0 then before.failures - 1 else 0) && after.cooldownUntilMs == 0 &&
              after.lastFailureAtMs == before.lastFailureAtMs
            else
              after.lastFailureAtMs == e.now && after.cooldownUntilMs == e.now + Cooldown(e.error, after.failures, e.now) &&
              after.failures == if RequestIdReused(e.error) then before.failures else if before.failures < 8 then before.failures + 1 else 8
  {
    hide Cooldown, RequestIdReused;
    assert (events + [e])[..|events|] == events;
  }

  // Error classes, by the words in the message.

  /** The message contains the word, in upper or lower case. */
  ghost predicate HasWord(error: string, word: string) {
    exists a, w, b :: error == a + w + b && EqIgnoreAsciiCase(w, word)
  }

  predicate LowerCase(word: string) {
    forall c :: c in word ==> AsciiLower(c) == c
  }

  lemma HasWordIff(error: string, word: string)
    requires LowerCase(word)
    ensures Contains(ToAsciiLower(error), word) <==> HasWord(error, word)
  {
    hide EqIgnoreAsciiCase, Contains;
    if Contains(ToAsciiLower(error), word) {
      ContainedIsWord(error, word);
    }
    forall a, w, b | error == a + w + b && EqIgnoreAsciiCase(w, word) ensures Contains(ToAsciiLower(error), word) {
      WordIsContained(error, word, a, w, b);
    }
  }

  lemma ContainedIsWord(error: string, word: string)
    requires LowerCase(word) && Contains(ToAsciiLower(error), word)
    ensures HasWord(error, word)
  {
    var text := ToAsciiLower(error);
    var i: nat :| i <= |text| && PartAt(text, word, i);
    var w := error[i..i + |word|];
    assert error == error[..i] + w + error[i + |word|..];
    forall k | 0 <= k < |word| ensures AsciiLower(w[k]) == AsciiLower(word[k]) {
      assert word[k] == text[i..i + |word|][k] && word[k] in word;
    }
  }

  lemma WordIsContained(error: string, word: string, a: string, w: string, b: string)
    requires LowerCase(word) && error == a + w + b && EqIgnoreAsciiCase(w, word)
    ensures Contains(ToAsciiLower(error), word)
  {
    var text := ToAsciiLower(error);
    forall k | 0 <= k < |word| ensures text[|a|..|a| + |word|][k] == word[k] {
      assert error[|a| + k] == w[k] && word[k] in word;
    }
    assert PartAt(text, word, |a|);
  }

  ghost predicate HasAny(error: string, words: seq<string>) {
    exists word :: word in words && HasWord(error, word)
  }

  lemma HasAnyIff(error: string, words: seq<string>)
    requires forall word :: word in words ==> LowerCase(word)
    ensures ContainsAny(ToAsciiLower(error), words) <==> HasAny(error, words)
  {
    hide Contains, ToAsciiLower, HasWord, LowerCase;
    forall word | word in words ensures Contains(ToAsciiLower(error), word) <==> HasWord(error, word) {
      HasWordIff(error, word);
    }
    if ContainsAny(ToAsciiLower(error), words) {
      var k :| 0 <= k < |words| && Contains(ToAsciiLower(error), words[k]);
      assert words[k] in words;
    }
    if HasAny(error, words) {
      var word :| word in words && HasWord(error, word);
      var k :| 0 <= k < |words| && words[k] == word;
    }
  }

  /** The class of an error, by the first list with a word in its message. */
  lemma ClassifyIff(error: string)
    ensures Classify(error) ==
            if HasAny(error, ["429", "too many requests", "rate limit", "quota", "throttl"]) then RateLimited
            else if HasAny(error, ["timed out", "timeout", "504", "408"]) then Timeout
            else if HasAny(error, ["econnrefused", "enotfound", "econnreset", "network", "fetch failed", "failed to fetch", "tls", "dns"])
            then Transport
            else Other
  {
    hide ContainsAny, HasAny, ToAsciiLower;
    HasAnyIff(error, ["429", "too many requests", "rate limit", "quota", "throttl"]);
    HasAnyIff(error, ["timed out", "timeout", "504", "408"]);
    HasAnyIff(error, ["econnrefused", "enotfound", "econnreset", "network", "fetch failed", "failed to fetch", "tls", "dns"]);
  }

  lemma ReusedIff(error: string)
    ensures RequestIdReused(error) <==> HasWord(error, "request_id already used")
  {
    hide Contains, HasWord, ToAsciiLower;
    HasWordIff(error, "request_id already used");
  }

  /**
   Over any history: failures never exceed 8; an endpoint that never failed, or has succeeded since it
   last failed, is not cooling; otherwise it cools for at least 2 s and at most 180 s after that failure.
   */
  lemma {:induction false} HealthBounds(events: seq<Event>, url: string)
    ensures var h, last := HealthAfter(events, url), LastFailure(events, url);
            h.failures <= 8 &&
            match last
            case None => h == HEALTHY
            case Some((at, recovered)) =>
              h.lastFailureAtMs == at &&
              if recovered then h.cooldownUntilMs == 0
              else at + REQUEST_ID_REUSED_COOLDOWN_MS <= h.cooldownUntilMs <= at + RATE_LIMIT_COOLDOWN_MAX_MS
  {
    hide Cooldown, RequestIdReused;
    if events != [] {
      HealthBounds(events[..|events| - 1], url);
      var e := events[|events| - 1];
      if e.url == url && e.Failed? {
        CooldownBound(e.error, AfterFailure(HealthAfter(events[..|events| - 1], url), e.error, e.now).failures, e.now);
      }
    }
  }

  /** An endpoint with no failure in the last 180 s is never cooling. */
  lemma QuietEndpointAvailable(events: seq<Event>, url: string, now: nat)
    requires forall i :: 0 <= i < |events| && events[i].Failed? && events[i].url == url ==>
               events[i].now + RATE_LIMIT_COOLDOWN_MAX_MS <= now
    ensures !Cooling(HealthAfter(events, url), now)
  {
    HealthBounds(events, url);
    LastFailureOccurred(events, url);
  }

  lemma {:induction false} LastFailureOccurred(events: seq<Event>, url: string)
    ensures LastFailure(events, url).Some? ==>
              exists i :: 0 <= i < |events| && events[i].Failed? && events[i].url == url &&
                events[i].now == LastFailure(events, url).value.0
  {
    if events != [] && LastFailure(events, url).Some? {
      var front, n := events[..|events| - 1], |events| - 1;
      LastFailureOccurred(front, url);
      if events[n].url == url && events[n].Failed? {
        assert events[n].now == LastFailure(events, url).value.0;
      } else {
        var i :| 0 <= i < |front| && front[i].Failed? && front[i].url == url && front[i].now == LastFailure(front, url).value.0;
        assert events[i] == front[i];
      }
    }
  }

  // Ranking.

  /** The sort key: available before cooling, then fewer failures, then the older last failure. */
  predicate Ranks(a: Health, b: Health, now: nat) {
    var ca, cb := Cooling(a, now), Cooling(b, now);
    if ca != cb then cb
    else if a.failures != b.failures then a.failures < b.failures
    else a.lastFailureAtMs < b.lastFailureAtMs
  }

  /** Inserts an endpoint after every one it does not rank strictly before, as a stable sort does. */
  function Insert(sorted: seq<string>, url: string, health: map<string, Health>, now: nat): (r: seq<string>)
    ensures |r| == |sorted| + 1 && multiset(r) == multiset(sorted) + multiset{url}
    ensures forall u :: u in r <==> u in sorted || u == url
  {
    if sorted == [] then [url]
    else if Ranks(Of(health, url), Of(health, sorted[|sorted| - 1]), now) then
      assert sorted == sorted[..|sorted| - 1] + [sorted[|sorted| - 1]];
      Insert(sorted[..|sorted| - 1], url, health, now) + [sorted[|sorted| - 1]]
    else sorted + [url]
  }

  function Of(health: map<string, Health>, url: string): Health {
    if url in health then health[url] else HEALTHY
  }

  /** `rpc_candidates`: the endpoints in their stable order. */
  function Candidates(urls: seq<string>, health: map<string, Health>, now: nat): (r: seq<string>)
    ensures |r| == |urls| && multiset(r) == multiset(urls)
  {
    if urls == [] then [] else
      assert urls == urls[..|urls| - 1] + [urls[|urls| - 1]];
      Insert(Candidates(urls[..|urls| - 1], health, now), urls[|urls| - 1], health, now)
  }

  predicate Distinct(urls: seq<string>) {
    forall i, j :: 0 <= i < j < |urls| ==> urls[i] != urls[j]
  }

  /** Before in a list of distinct endpoints. */
  predicate Before(urls: seq<string>, a: string, b: string) {
    exists i, j :: 0 <= i < j < |urls| && urls[i] == a && urls[j] == b
  }

  /** What a stable sort by rank promises about every two endpoints. */
  ghost predicate StablySorted(sorted: seq<string>, urls: seq<string>, health: map<string, Health>, now: nat) {
    forall i, j :: 0 <= i < j < |sorted| ==> MayPrecede(sorted[i], sorted[j], urls, health, now)
  }

  lemma BeforeGrows(urls: seq<string>, u: string, a: string, b: string)
    requires Before(urls, a, b)
    ensures Before(urls + [u], a, b)
  {
    var i, j :| 0 <= i < j < |urls| && urls[i] == a && urls[j] == b;
    assert (urls + [u])[i] == a && (urls + [u])[j] == b;
  }

  lemma LastIsAfter(urls: seq<string>, a: string, u: string)
    requires a in urls
    ensures Before(urls + [u], a, u)
  {
    var i :| 0 <= i < |urls| && urls[i] == a;
    assert (urls + [u])[i] == a && (urls + [u])[|urls|] == u;
  }

  lemma RanksIsOrder(a: Health, b: Health, c: Health, now: nat)
    ensures !(Ranks(a, b, now) && Ranks(b, a, now))
    ensures Ranks(a, b, now) && Ranks(b, c, now) ==> Ranks(a, c, now)
    ensures Ranks(a, c, now) ==> Ranks(a, b, now) || Ranks(b, c, now)
  {
  }

  /** `a` may stand before `b` in a stable sort of `urls`. */
  ghost predicate MayPrecede(a: string, b: string, urls: seq<string>, health: map<string, Health>, now: nat) {
    Ranks(Of(health, a), Of(health, b), now) || (!Ranks(Of(health, b), Of(health, a), now) && Before(urls, a, b))
  }

  lemma MayPrecedeGrows(a: string, b: string, urls: seq<string>, u: string, health: map<string, Health>, now: nat)
    requires MayPrecede(a, b, urls, health, now)
    ensures MayPrecede(a, b, urls + [u], health, now)
  {
    hide Ranks, Before;
    if Before(urls, a, b) {
      BeforeGrows(urls, u, a, b);
    }
  }

  lemma AppendKeepsStable(sorted: seq<string>, urls: seq<string>, url: string, health: map<string, Health>, now: nat)
    requires StablySorted(sorted, urls, health, now)
    requires forall u :: u in sorted ==> u in urls
    requires sorted != [] ==> !Ranks(Of(health, url), Of(health, sorted[|sorted| - 1]), now)
    ensures StablySorted(sorted + [url], urls + [url], health, now)
  {
    hide Ranks, Before;
    forall i, j | 0 <= i < j < |sorted| + 1
      ensures MayPrecede((sorted + [url])[i], (sorted + [url])[j], urls + [url], health, now)
    {
      if j < |sorted| {
        assert MayPrecede(sorted[i], sorted[j], urls, health, now);
        MayPrecedeGrows(sorted[i], sorted[j], urls, url, health, now);
      } else {
        LastIsAfter(urls, sorted[i], url);
        if i < |sorted| - 1 {
          assert MayPrecede(sorted[i], sorted[|sorted| - 1], urls, health, now);
        }
        RanksIsOrder(Of(health, sorted[i]), Of(health, url), Of(health, sorted[|sorted| - 1]), now);
        RanksIsOrder(Of(health, url), Of(health, sorted[|sorted| - 1]), Of(health, sorted[i]), now);
      }
    }
  }

  lemma {:induction false} InsertKeepsStable(sorted: seq<string>, urls: seq<string>, url: string, health: map<string, Health>, now: nat)
    requires StablySorted(sorted, urls, health, now)
    requires forall u :: u in sorted ==> u in urls
    ensures StablySorted(Insert(sorted, url, health, now), urls + [url], health, now)
  {
    hide Ranks, Before;
    var n := |sorted| - 1;
    if sorted != [] && Ranks(Of(health, url), Of(health, sorted[n]), now) {
      var front, last := sorted[..n], sorted[n];
      InsertKeepsStable(front, urls, url, health, now);
      var r := Insert(front, url, health, now);
      forall i | 0 <= i < |r| ensures MayPrecede(r[i], last, urls + [url], health, now) {
        if r[i] != url {
          assert r[i] in front;
          var k :| 0 <= k < n && front[k] == r[i];
          assert MayPrecede(sorted[k], sorted[n], urls, health, now);
          MayPrecedeGrows(sorted[k], last, urls, url, health, now);
        }
      }
    } else {
      AppendKeepsStable(sorted, urls, url, health, now);
    }
  }

  /** The candidates are a stable sort of the endpoints, ... */
  lemma {:induction false} CandidatesStable(urls: seq<string>, health: map<string, Health>, now: nat)
    ensures StablySorted(Candidates(urls, health, now), urls, health, now)
  {
    if urls != [] {
      var front, last := urls[..|urls| - 1], urls[|urls| - 1];
      CandidatesStable(front, health, now);
      assert front + [last] == urls;
      forall u | u in Candidates(front, health, now) ensures u in front {
        assert multiset(front)[u] > 0;
      }
      InsertKeepsStable(Candidates(front, health, now), front, last, health, now);
    }
  }

  /** ... so no cooling endpoint comes before an available one. */
  lemma CoolingComesLast(urls: seq<string>, health: map<string, Health>, now: nat, i: nat, j: nat)
    requires i < j < |urls|
    ensures var r := Candidates(urls, health, now);
            Cooling(Of(health, r[i]), now) ==> Cooling(Of(health, r[j]), now)
  {
    CandidatesStable(urls, health, now);
  }

  /**
   Of two candidates the earlier is available if the later is; among equals in that it has no more
   failures; and among equals in both it did not fail later.
   */
  lemma CandidatesOrdered(urls: seq<string>, health: map<string, Health>, now: nat, i: nat, j: nat)
    requires i < j < |urls|
    ensures var r := Candidates(urls, health, now);
            var a, b := Of(health, r[i]), Of(health, r[j]);
            (b.cooldownUntilMs <= now ==> a.cooldownUntilMs <= now) &&
            ((a.cooldownUntilMs > now <==> b.cooldownUntilMs > now) ==>
               a.failures <= b.failures && (a.failures == b.failures ==> a.lastFailureAtMs <= b.lastFailureAtMs))
    ensures var r := Candidates(urls, health, now);
            Of(health, r[i]) == Of(health, r[j]) ==> Before(urls, r[i], r[j])
  {
    hide Before;
    CandidatesStable(urls, health, now);
    var r := Candidates(urls, health, now);
    assert MayPrecede(r[i], r[j], urls, health, now);
  }

  /** Two distinct endpoints may not each precede the other. */
  lemma PrecedenceAntisymmetric(x: string, y: string, urls: seq<string>, health: map<string, Health>, now: nat)
    requires Distinct(urls) && x != y
    ensures !(MayPrecede(x, y, urls, health, now) && MayPrecede(y, x, urls, health, now))
  {
    hide Ranks, Cooling;
    RanksIsOrder(Of(health, x), Of(health, y), Of(health, x), now);
  }

  lemma LastPlaces(a: seq<string>, b: seq<string>)
    requires multiset(a) == multiset(b) && a != [] && b != []
    ensures a[|a| - 1] != b[|b| - 1] ==>
              (exists i :: 0 <= i < |b| - 1 && b[i] == a[|a| - 1]) && (exists j :: 0 <= j < |a| - 1 && a[j] == b[|b| - 1])
  {
    assert a[|a| - 1] in multiset(a) && b[|b| - 1] in multiset(b);
    assert a[|a| - 1] in b && b[|b| - 1] in a;
  }

  /** The order is determined: any stable sort of distinct endpoints is this one. */
  lemma {:induction false} StableSortUnique(a: seq<string>, b: seq<string>, urls: seq<string>, health: map<string, Health>, now: nat)
    requires Distinct(urls) && multiset(a) == multiset(b)
    requires StablySorted(a, urls, health, now) && StablySorted(b, urls, health, now)
    ensures a == b
  {
    hide MayPrecede, Distinct, StablySorted;
    assert |a| == |multiset(a)| == |multiset(b)| == |b|;
    if a != [] {
      var n := |a| - 1;
      SameLast(a, b, urls, health, now);
      DropLast(a);
      DropLast(b);
      PrefixStable(a, urls, health, now);
      PrefixStable(b, urls, health, now);
      StableSortUnique(a[..n], b[..n], urls, health, now);
    }
  }

  lemma DropLast(a: seq<string>)
    requires a != []
    ensures a == a[..|a| - 1] + [a[|a| - 1]] && multiset(a[..|a| - 1]) == multiset(a) - multiset{a[|a| - 1]}
  {
    assert a == a[..|a| - 1] + [a[|a| - 1]];
  }

  lemma PrefixStable(a: seq<string>, urls: seq<string>, health: map<string, Health>, now: nat)
    requires a != [] && StablySorted(a, urls, health, now)
    ensures StablySorted(a[..|a| - 1], urls, health, now)
  {
    hide MayPrecede;
  }

  lemma SameLast(a: seq<string>, b: seq<string>, urls: seq<string>, health: map<string, Health>, now: nat)
    requires Distinct(urls) && multiset(a) == multiset(b) && a != [] && b != []
    requires StablySorted(a, urls, health, now) && StablySorted(b, urls, health, now)
    ensures a[|a| - 1] == b[|b| - 1]
  {
    hide MayPrecede, Distinct;
    var x, y := a[|a| - 1], b[|b| - 1];
    LastPlaces(a, b);
    if x != y {
      var i :| 0 <= i < |b| - 1 && b[i] == x;
      var j :| 0 <= j < |a| - 1 && a[j] == y;
      assert MayPrecede(a[j], a[|a| - 1], urls, health, now) && MayPrecede(b[i], b[|b| - 1], urls, health, now);
      PrecedenceAntisymmetric(x, y, urls, health, now);
    }
  }

  // The table itself.

  lemma FailedSnoc(events: seq<Event>, url: string, error: string, now: nat)
    ensures forall u: string :: HealthAfter(events + [Failed(url, error, now)], u) ==
              if u == url then AfterFailure(HealthAfter(events, url), error, now) else HealthAfter(events, u)
  {
    hide AfterFailure;
    assert (events + [Failed(url, error, now)])[..|events|] == events;
  }

  class HealthTable {
    var health: map<string, Health>

    constructor ()
      ensures health == map[]
    {
      health := map[];
    }

    /** The table holds what a history of events leaves of every endpoint. */
    ghost predicate Reflects(events: seq<Event>)
      reads this
    {
      forall url: string :: Of(health, url) == HealthAfter(events, url)
    }

    method MarkSuccess(url: string, ghost events: seq<Event>)
      requires Reflects(events)
      modifies this
      ensures Reflects(events + [Succeeded(url)])
      ensures health == old(health)[url := AfterSuccess(Of(old(health), url))]
    {
      var current := if url in health then health[url] else HEALTHY;
      health := health[url := Health(if current.failures == 0 then 0 else current.failures - 1, 0, current.lastFailureAtMs)];
      assert (events + [Succeeded(url)])[..|events|] == events;
    }

    method MarkFailure(url: string, error: string, now: nat, ghost events: seq<Event>)
      requires Reflects(events)
      modifies this
      ensures Reflects(events + [Failed(url, error, now)])
      ensures health == old(health)[url := AfterFailure(Of(old(health), url), error, now)]
    {
      hide Classify, RequestIdReused, Pow;
      var current := if url in health then health[url] else HEALTHY;
      var reused := RequestIdReused(error);
      var errorClass := Classify(error);
      var nextFailures := if reused then current.failures else Min(current.failures + 1, 8);
      var nextCooldown: nat;
      if reused {
        nextCooldown := REQUEST_ID_REUSED_COOLDOWN_MS;
      } else if errorClass == RateLimited {
        var span := RATE_LIMIT_COOLDOWN_MAX_MS - RATE_LIMIT_COOLDOWN_MIN_MS + 1;
        nextCooldown := RATE_LIMIT_COOLDOWN_MIN_MS + now % span;
      } else if errorClass == Timeout || errorClass == Transport {
        nextCooldown := Clamp(Backoff(nextFailures), MEDIUM_COOLDOWN_MIN_MS, MEDIUM_COOLDOWN_MAX_MS);
      } else {
        nextCooldown := Backoff(nextFailures);
      }
      assert nextCooldown == Cooldown(error, nextFailures, now);
      health := health[url := Health(nextFailures, now + nextCooldown, now)];
      FailedSnoc(events, url, error, now);
    }
  }
}
