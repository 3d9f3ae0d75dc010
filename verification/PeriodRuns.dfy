/**
 Runs of transfers against one policy. The string counters refine an integer automaton, and no
 window of the period ever holds more than the caps allow.
 */
module PeriodRuns {
  import opened Basics
  import opened Amounts
  import opened ApiKeyPolicy

  /** One raw request that reached an enforcer at block time `now` (in seconds). */
  datatype Attempt = Attempt(meter: Meter, transfer: Transfer, now: nat)

  function PolicyAfter(policy: Policy, run: seq<Attempt>): Policy {
    if run == [] then policy else
      var before := PolicyAfter(policy, run[..|run| - 1]);
      var a := run[|run| - 1];
      Enforce(a.meter, before, a.transfer, a.now).UnwrapOr(before)
  }

  /** The attempts that did not panic, in order. */
  function Accepted(policy: Policy, run: seq<Attempt>): seq<Attempt> {
    if run == [] then [] else
      var front := run[..|run| - 1];
      var a := run[|run| - 1];
      if Enforce(a.meter, PolicyAfter(policy, front), a.transfer, a.now).Some?
      then Accepted(policy, front) + [a] else Accepted(policy, front)
  }

  lemma RunSnoc(policy: Policy, run: seq<Attempt>, a: Attempt)
    ensures var outcome := Enforce(a.meter, PolicyAfter(policy, run), a.transfer, a.now);
            PolicyAfter(policy, run + [a]) == outcome.UnwrapOr(PolicyAfter(policy, run)) &&
            Accepted(policy, run + [a]) == if outcome.Some? then Accepted(policy, run) + [a] else Accepted(policy, run)
  {
    hide Enforce;
    assert (run + [a])[..|run + [a]| - 1] == run;
  }

  predicate NonDecreasing(run: seq<Attempt>) {
    forall i, j :: 0 <= i < j < |run| ==> run[i].now <= run[j].now
  }

  predicate AllMeter(run: seq<Attempt>, meter: Meter) {
    forall i :: 0 <= i < |run| ==> run[i].meter == meter
  }

  // The automaton over plain integers.

  datatype Counter = Counter(start: Option<nat>, spent: nat, count: nat)

  function Base(c: Counter, window: nat): Counter {
    if c.start == Some(window) then c else Counter(Some(window), 0, 0)
  }

  function Add(c: Counter, window: nat, amount: nat): Counter {
    var b := Base(c, window);
    Counter(Some(window), b.spent + amount, b.count + 1)
  }

  /** What the stored strings denote at a meter's precision. */
  function Abstract(meter: Meter, policy: Policy): Counter {
    Counter(policy.periodStartUnixSeconds,
            OptionalAmount(meter, policy.spentThisPeriodNative).UnwrapOr(0),
            policy.txCountThisPeriod.UnwrapOr(0))
  }

  predicate SameTerms(p: Policy, q: Policy) {
    q == p.(periodStartUnixSeconds := q.periodStartUnixSeconds,
            spentThisPeriodNative := q.spentThisPeriodNative,
            txCountThisPeriod := q.txCountThisPeriod)
  }

  /** The automaton's guard: what an enforcer demands of the counters it is about to store. */
  predicate CounterAllows(meter: Meter, policy: Policy, next: Counter) {
    next.spent < Limit(meter) && next.count < U64_LIMIT &&
    WithinCap(next.spent, PeriodCap(meter, policy)) && WithinCap(next.count, policy.maxTxCountPerPeriod)
  }

  lemma ChargeRefinesCounter(meter: Meter, policy: Policy, amount: nat, window: nat)
    ensures var next := Add(Abstract(meter, policy), window, amount);
            if CounterAllows(meter, policy, next) then
              Charge(meter, policy, amount, window).Some? &&
              var after := Charge(meter, policy, amount, window).value;
              SameTerms(policy, after) && Abstract(meter, after) == next &&
              after.spentThisPeriodNative == Some(Print(meter, next.spent))
            else Charge(meter, policy, amount, window).None?
  {
    hide OptionalAmount, Print;
    ZeroCounter(meter);
    var next := Add(Abstract(meter, policy), window, amount);
    if next.spent < Limit(meter) {
      CounterRoundTrip(meter, next.spent);
    }
  }

  /** One enforcement is one automaton step: it accepts the same transfers and counts the same. */
  lemma EnforceRefinesCounter(meter: Meter, policy: Policy, transfer: Transfer, now: nat)
    requires Metered(meter, policy) && policy.periodSeconds.UnwrapOr(0) > 0
    ensures var next := Add(Abstract(meter, policy), Window(now, policy.periodSeconds.value), transfer.amount);
            if TermsAllow(meter, policy, transfer) && CounterAllows(meter, policy, next) then
              Enforce(meter, policy, transfer, now).Some? &&
              var after := Enforce(meter, policy, transfer, now).value;
              SameTerms(policy, after) && Abstract(meter, after) == next &&
              after.spentThisPeriodNative == Some(Print(meter, next.spent))
            else Enforce(meter, policy, transfer, now).None?
  {
    ChargeRefinesCounter(meter, policy, transfer.amount, Window(now, policy.periodSeconds.value));
  }

  /** The moment lies in the window of one period that starts at this multiple of the period. */
  predicate During(now: nat, period: nat, window: nat)
    requires period > 0
  {
    window % period == 0 && window <= now < window + period
  }

  /** Window k runs from k times the period up to, but not including, k + 1 times the period. */
  lemma DuringInterval(now: nat, period: nat, k: nat)
    requires period > 0
    ensures During(now, period, k * period) <==> k * period <= now < (k + 1) * period
  {
    DivModUnique(k, 0, period);
    MulDistrib(k, 1, period);
  }

  /** The window an enforcer opens is the one the moment lies in, and there is no other. */
  lemma WindowIs(now: nat, period: nat, window: nat)
    requires period > 0
    ensures During(now, period, Window(now, period))
    ensures During(now, period, window) <==> window == Window(now, period)
  {
    DivModIdentity(now, period);
    DivModIdentity(window, period);
    DivModUnique(now / period, 0, period);
    if During(now, period, window) {
      MulDistrib(window / period, 0, period);
      DivModUnique(window / period, now - window, period);
    }
  }

  /** The amounts moved in one window. */
  function SumIn(run: seq<Attempt>, period: nat, window: nat): nat
    requires period > 0
  {
    if run == [] then 0 else
      var a := run[|run| - 1];
      SumIn(run[..|run| - 1], period, window) +
      if During(a.now, period, window) then a.transfer.amount else 0
  }

  /** The number of transfers in one window. */
  function CountIn(run: seq<Attempt>, period: nat, window: nat): nat
    requires period > 0
  {
    if run == [] then 0 else
      var a := run[|run| - 1];
      CountIn(run[..|run| - 1], period, window) +
      if During(a.now, period, window) then 1 else 0
  }

  /** A later moment never falls in an earlier window. */
  lemma WindowMonotone(a: nat, b: nat, period: nat)
    requires period > 0 && a <= b
    ensures Window(a, period) <= Window(b, period)
  {
    var p: int := period;
    DivModIdentity(a, period);
    DivModIdentity(b, period);
    if Window(a, period) > Window(b, period) {
      assert (a / period - b / period) * p == Window(a, period) - Window(b, period) by {
        MulDistrib(a / period, -(b / period as int), p);
      }
      MulBound(a / period - b / period, p);
    }
  }

  /** Nothing has been counted yet in a window later than every transfer so far. */
  lemma {:induction false} FutureWindowEmpty(run: seq<Attempt>, period: nat, window: nat)
    requires period > 0
    requires forall i :: 0 <= i < |run| ==> Window(run[i].now, period) < window
    ensures SumIn(run, period, window) == 0 && CountIn(run, period, window) == 0
  {
    if run != [] {
      WindowIs(run[|run| - 1].now, period, window);
      FutureWindowEmpty(run[..|run| - 1], period, window);
    }
  }

  /** The counter after accepting `done`, starting from `c`. */
  function Replay(c: Counter, period: nat, done: seq<Attempt>): Counter
    requires period > 0
  {
    if done == [] then c else
      var a := done[|done| - 1];
      Add(Replay(c, period, done[..|done| - 1]), Window(a.now, period), a.transfer.amount)
  }

  /** What the stored counters contribute to a window: nothing once another window has been used. */
  function Carried(c: Counter, period: nat, done: seq<Attempt>, window: nat): Counter
    requires period > 0
  {
    if done != [] && !During(done[0].now, period, window) then Counter(Some(window), 0, 0) else Base(c, window)
  }

  /** Replaying in time order yields the exact sum and count of the last transfer's window. */
  lemma {:induction false} ReplayExact(c: Counter, period: nat, done: seq<Attempt>)
    requires period > 0 && done != [] && NonDecreasing(done)
    ensures var w := Window(done[|done| - 1].now, period);
            var b := Carried(c, period, done, w);
            Replay(c, period, done) == Counter(Some(w), b.spent + SumIn(done, period, w), b.count + CountIn(done, period, w))
  {
    hide During;
    var front, w := done[..|done| - 1], Window(done[|done| - 1].now, period);
    WindowIs(done[|done| - 1].now, period, w);
    WindowIs(done[0].now, period, w);
    if front != [] {
      var v := Window(front[|front| - 1].now, period);
      ReplayExact(c, period, front);
      WindowMonotone(front[|front| - 1].now, done[|done| - 1].now, period);
      if v < w {
        forall i | 0 <= i < |front| ensures Window(front[i].now, period) < w {
          WindowMonotone(front[i].now, front[|front| - 1].now, period);
        }
        FutureWindowEmpty(front, period, w);
      } else {
        WindowMonotone(front[0].now, done[|done| - 1].now, period);
      }
    }
  }

  // The string counters over a whole run.

  lemma {:induction false} TermsKept(policy: Policy, run: seq<Attempt>)
    ensures SameTerms(policy, PolicyAfter(policy, run))
  {
    hide OptionalAmount, Print, TermsAllow;
    if run != [] {
      TermsKept(policy, run[..|run| - 1]);
    }
  }

  lemma {:induction false} AcceptedInOrder(policy: Policy, run: seq<Attempt>)
    requires NonDecreasing(run)
    ensures NonDecreasing(Accepted(policy, run))
    ensures run != [] ==> forall i :: 0 <= i < |Accepted(policy, run)| ==> Accepted(policy, run)[i].now <= run[|run| - 1].now
    ensures forall a :: a in Accepted(policy, run) ==> a in run
  {
    hide Enforce;
    if run != [] {
      AcceptedInOrder(policy, run[..|run| - 1]);
    }
  }

  lemma TermsKeepMeter(meter: Meter, p: Policy, q: Policy)
    requires SameTerms(p, q)
    ensures Metered(meter, p) == Metered(meter, q) && PeriodCap(meter, p) == PeriodCap(meter, q)
  {
    hide OptionalAmount;
  }

  /** Over any run, the stored strings are what the integer automaton holds after the accepted transfers. */
  lemma {:induction false} RunRefinesCounter(meter: Meter, policy: Policy, run: seq<Attempt>)
    requires AllMeter(run, meter)
    requires Metered(meter, policy) && policy.periodSeconds.UnwrapOr(0) > 0
    ensures Abstract(meter, PolicyAfter(policy, run)) ==
            Replay(Abstract(meter, policy), policy.periodSeconds.value, Accepted(policy, run))
  {
    hide OptionalAmount, Print, TermsAllow, Charge, Window;
    if run != [] {
      var front, a := run[..|run| - 1], run[|run| - 1];
      RunRefinesCounter(meter, policy, front);
      TermsKept(policy, front);
      var before := PolicyAfter(policy, front);
      TermsKeepMeter(meter, policy, before);
      EnforceRefinesCounter(meter, before, a.transfer, a.now);
    }
  }

  /**
   The counters are exact: after any run in block-time order they hold the sum and the number of the
   transfers accepted in the current window, on top of what the policy was stored with for it.
   */
  lemma CountersExact(meter: Meter, policy: Policy, run: seq<Attempt>, window: nat)
    requires AllMeter(run, meter) && NonDecreasing(run)
    requires Metered(meter, policy) && policy.periodSeconds.UnwrapOr(0) > 0
    requires var done := Accepted(policy, run); done != [] && During(done[|done| - 1].now, policy.periodSeconds.value, window)
    ensures var period, done := policy.periodSeconds.value, Accepted(policy, run);
            var b := Carried(Abstract(meter, policy), period, done, window);
            Abstract(meter, PolicyAfter(policy, run)) ==
            Counter(Some(window), b.spent + SumIn(done, period, window), b.count + CountIn(done, period, window))
  {
    WindowIs(Accepted(policy, run)[|Accepted(policy, run)| - 1].now, policy.periodSeconds.value, window);
    hide OptionalAmount, Print, Enforce;
    AcceptedInOrder(policy, run);
    RunRefinesCounter(meter, policy, run);
    ReplayExact(Abstract(meter, policy), policy.periodSeconds.value, Accepted(policy, run));
  }

  // The count alone, for runs that mix units.

  /** The transfers with their amounts left out. */
  function Bare(run: seq<Attempt>): (bare: seq<Attempt>)
    ensures |bare| == |run|
    ensures forall i :: 0 <= i < |run| ==> bare[i].now == run[i].now
  {
    seq(|run|, i requires 0 <= i < |run| => run[i].(transfer := run[i].transfer.(amount := 0)))
  }

  lemma {:induction false} BareCounts(run: seq<Attempt>, period: nat, window: nat)
    requires period > 0
    ensures CountIn(Bare(run), period, window) == CountIn(run, period, window)
  {
    if run != [] {
      BareCounts(run[..|run| - 1], period, window);
      assert Bare(run)[..|run| - 1] == Bare(run[..|run| - 1]);
    }
  }

  /** The stored window and count, which mean the same to every meter. */
  function Tally(policy: Policy): Counter {
    Counter(policy.periodStartUnixSeconds, 0, policy.txCountThisPeriod.UnwrapOr(0))
  }

  lemma {:induction false} RunTallies(policy: Policy, run: seq<Attempt>)
    requires policy.maxTxCountPerPeriod.Some? && policy.periodSeconds.UnwrapOr(0) > 0
    ensures Tally(PolicyAfter(policy, run)) == Replay(Tally(policy), policy.periodSeconds.value, Bare(Accepted(policy, run)))
  {
    hide OptionalAmount, Print, TermsAllow, Charge, Window;
    if run != [] {
      var front, a := run[..|run| - 1], run[|run| - 1];
      RunTallies(policy, front);
      TermsKept(policy, front);
      var before := PolicyAfter(policy, front);
      EnforceRefinesCounter(a.meter, before, a.transfer, a.now);
      if Enforce(a.meter, before, a.transfer, a.now).Some? {
        var done := Accepted(policy, run);
        assert Bare(done)[..|done| - 1] == Bare(Accepted(policy, front));
      }
    }
  }

  /** In every window of every run in block-time order, whatever units its transfers mix, the count stays within its cap. */
  lemma {:induction false} CountsWithinCap(policy: Policy, run: seq<Attempt>, window: nat)
    requires NonDecreasing(run) && policy.periodSeconds.UnwrapOr(0) > 0
    ensures WithinCap(CountIn(Accepted(policy, run), policy.periodSeconds.value, window), policy.maxTxCountPerPeriod)
  {
    hide OptionalAmount, Print, TermsAllow, Charge, Window;
    if run != [] && policy.maxTxCountPerPeriod.Some? {
      var front, a := run[..|run| - 1], run[|run| - 1];
      CountsWithinCap(policy, front, window);
      TermsKept(policy, front);
      var before := PolicyAfter(policy, front);
      EnforceRefinesCounter(a.meter, before, a.transfer, a.now);
      if Enforce(a.meter, before, a.transfer, a.now).Some? {
        var done, period := Accepted(policy, run), policy.periodSeconds.value;
        AcceptedInOrder(policy, run);
        RunTallies(policy, run);
        ReplayExact(Tally(policy), period, Bare(done));
        BareCounts(done, period, Window(a.now, period));
        WindowIs(a.now, period, window);
      }
    }
  }

  /** In every window of every run of one unit in block-time order, sum and count stay within the caps. */
  lemma {:induction false} WindowsWithinCaps(meter: Meter, policy: Policy, run: seq<Attempt>, window: nat)
    requires AllMeter(run, meter) && NonDecreasing(run)
    requires Metered(meter, policy) && policy.periodSeconds.UnwrapOr(0) > 0
    ensures var period, done := policy.periodSeconds.value, Accepted(policy, run);
            WithinCap(SumIn(done, period, window), PeriodCap(meter, policy)) &&
            WithinCap(CountIn(done, period, window), policy.maxTxCountPerPeriod)
  {
    hide OptionalAmount, Print, TermsAllow, Charge, Window;
    CountsWithinCap(policy, run, window);
    if run != [] {
      var front, a := run[..|run| - 1], run[|run| - 1];
      WindowsWithinCaps(meter, policy, front, window);
      TermsKept(policy, front);
      var before := PolicyAfter(policy, front);
      TermsKeepMeter(meter, policy, before);
      EnforceRefinesCounter(meter, before, a.transfer, a.now);
      if Enforce(meter, before, a.transfer, a.now).Some? {
        WindowIs(a.now, policy.periodSeconds.value, window);
        CountersExact(meter, policy, run, Window(a.now, policy.periodSeconds.value));
      }
    }
  }

  /** A policy without a readable period cap and without a count cap never changes. */
  lemma {:induction false} UnmeteredRunKeepsPolicy(meter: Meter, policy: Policy, run: seq<Attempt>)
    requires AllMeter(run, meter) && !Metered(meter, policy)
    ensures PolicyAfter(policy, run) == policy
  {
    hide OptionalAmount, Print, TermsAllow, Charge;
    if run != [] {
      UnmeteredRunKeepsPolicy(meter, policy, run[..|run| - 1]);
    }
  }
}
