/**
 A key whose policy names `sol_native_transfer_v1` is metered on Solana and on NEAR alike, and both
 enforcers keep their total in the same text field. This module says when that total is kept.
 */
module SharedCounter {
  import opened Basics
  import opened Text
  import opened Decimal
  import opened Amounts
  import opened ApiKeyPolicy
  import opened PeriodRuns

  /** An amount in the finer of the two units. */
  function Weigh(meter: Meter, amount: nat): nat {
    if meter.Lamports? then amount * YOCTO_PER_LAMPORT else amount
  }

  predicate NativeMeters(run: seq<Attempt>) {
    forall i :: 0 <= i < |run| ==> !run[i].meter.TokenUnits?
  }

  function Weighed(run: seq<Attempt>): (weighed: seq<Attempt>)
    ensures |weighed| == |run|
    ensures forall i :: 0 <= i < |run| ==> weighed[i].now == run[i].now
  {
    seq(|run|, i requires 0 <= i < |run| =>
      run[i].(meter := Yocto, transfer := run[i].transfer.(amount := Weigh(run[i].meter, run[i].transfer.amount))))
  }

  /** The total in the finer unit, as the NEAR enforcer would read it. */
  function Total(policy: Policy): Counter {
    Abstract(Yocto, policy)
  }

  /** The Solana enforcer sees the same total the NEAR enforcer sees. */
  predicate ReadsAlike(policy: Policy, window: nat) {
    Base(Abstract(Lamports, policy), window).spent * YOCTO_PER_LAMPORT == Base(Total(policy), window).spent
  }

  /** Whatever Solana can read, NEAR reads as the same amount. */
  lemma FinerReadsCoarser(text: Option<string>)
    ensures OptionalAmount(Lamports, text).Some? ==>
              OptionalAmount(Yocto, text) == Some(OptionalAmount(Lamports, text).value * YOCTO_PER_LAMPORT)
  {
    hide ParseAmount, Trim;
    Scales();
    if OptionalAmount(Lamports, text).Some? {
      var t := Trim(text.value);
      var n := ParsedIsNumeral(t, 9);
      ParseNumeral(t, n, 9);
      ParseNumeral(t, n, 24);
      UnitsRescale(n, 9, 15);
    }
  }

  /**
   A Solana charge adds its amount to the running total exactly when both enforcers read the stored
   text alike; a NEAR charge always does.
   */
  lemma ChargeKeepsTotalIff(meter: Meter, policy: Policy, amount: nat, window: nat)
    requires !meter.TokenUnits? && Charge(meter, policy, amount, window).Some?
    ensures var after := Charge(meter, policy, amount, window).value;
            Total(after) == Add(Total(policy), window, Weigh(meter, amount)) <==>
            (meter.Yocto? || ReadsAlike(policy, window))
  {
    hide OptionalAmount, Print;
    ChargeRefinesCounter(meter, policy, amount, window);
    if meter.Lamports? {
      ZeroCounter(Lamports);
      var next := Add(Abstract(Lamports, policy), window, amount);
      YoctoFromLamports(next.spent);
      MulDistrib(Base(Abstract(Lamports, policy), window).spent, amount, YOCTO_PER_LAMPORT);
    }
  }

  /** After a NEAR charge the two readings agree exactly on whole lamports that fit 64 bits. */
  lemma ReadsAlikeAfterNear(policy: Policy, yocto: nat, window: nat)
    requires yocto < U128_LIMIT
    requires policy.periodStartUnixSeconds == Some(window) && policy.spentThisPeriodNative == Some(Print(Yocto, yocto))
    ensures ReadsAlike(policy, window) <==>
            yocto % YOCTO_PER_LAMPORT == 0 && yocto / YOCTO_PER_LAMPORT < U64_LIMIT
  {
    hide OptionalAmount, Print;
    LamportsFromYocto(yocto);
    CounterRoundTrip(Yocto, yocto);
    assert Base(Total(policy), window).spent == yocto;
    var read := Base(Abstract(Lamports, policy), window).spent;
    if yocto % YOCTO_PER_LAMPORT == 0 && yocto / YOCTO_PER_LAMPORT < U64_LIMIT {
      assert read == yocto / YOCTO_PER_LAMPORT;
      DivModIdentity(yocto, YOCTO_PER_LAMPORT);
    } else {
      assert read == 0;
      assert yocto != 0;
    }
  }

  /** After a Solana charge they always agree. */
  lemma ReadsAlikeAfterSolana(policy: Policy, lamports: nat, window: nat)
    requires lamports < U64_LIMIT
    requires policy.periodStartUnixSeconds == Some(window) && policy.spentThisPeriodNative == Some(Print(Lamports, lamports))
    ensures ReadsAlike(policy, window)
  {
    hide OptionalAmount, Print;
    CounterRoundTrip(Lamports, lamports);
    FinerReadsCoarser(policy.spentThisPeriodNative);
  }

  /** Every accepted Solana transfer of the run found a total it could read. */
  ghost predicate AlwaysReadsAlike(policy: Policy, run: seq<Attempt>)
    requires policy.periodSeconds.UnwrapOr(0) > 0
  {
    forall i | 0 <= i < |run| && run[i].meter.Lamports? &&
        Enforce(Lamports, PolicyAfter(policy, run[..i]), run[i].transfer, run[i].now).Some? ::
      ReadsAlike(PolicyAfter(policy, run[..i]), Window(run[i].now, policy.periodSeconds.value))
  }

  /** There is a cap for Solana to enforce, and so for NEAR, which reads whatever Solana can. */
  predicate MeteredOnBoth(policy: Policy) {
    policy.periodSeconds.UnwrapOr(0) > 0 && Metered(Lamports, policy)
  }

  /** Solana can read the period cap if NEAR can. */
  predicate SolanaReadsCap(policy: Policy) {
    PeriodCap(Yocto, policy).Some? ==> PeriodCap(Lamports, policy).Some?
  }

  lemma WeighedSnoc(run: seq<Attempt>)
    requires run != []
    ensures Weighed(run)[..|run| - 1] == Weighed(run[..|run| - 1])
  {
  }

  lemma AlwaysReadsAlikeSnoc(policy: Policy, run: seq<Attempt>)
    requires policy.periodSeconds.UnwrapOr(0) > 0 && run != []
    ensures var front, a := run[..|run| - 1], run[|run| - 1];
            AlwaysReadsAlike(policy, run) <==>
            AlwaysReadsAlike(policy, front) &&
            (a.meter.Lamports? && Enforce(Lamports, PolicyAfter(policy, front), a.transfer, a.now).Some? ==>
               ReadsAlike(PolicyAfter(policy, front), Window(a.now, policy.periodSeconds.value)))
  {
    hide ReadsAlike, Enforce, PolicyAfter, Window;
    var front := run[..|run| - 1];
    assert forall i :: 0 <= i < |run| ==> run[..i] == front[..i];
    assert run[..|run| - 1] == front;
    assert forall i :: 0 <= i < |front| ==> run[i] == front[i];
  }

  /** One enforcement on a shared counter, seen through the running total. */
  lemma EnforceKeepsTotal(policy: Policy, a: Attempt)
    requires MeteredOnBoth(policy) && !a.meter.TokenUnits?
    requires Enforce(a.meter, policy, a.transfer, a.now).Some?
    requires var w := Window(a.now, policy.periodSeconds.value); a.meter.Lamports? ==> ReadsAlike(policy, w)
    ensures var w := Window(a.now, policy.periodSeconds.value);
            var after := Enforce(a.meter, policy, a.transfer, a.now).value;
            Total(after) == Add(Total(policy), w, Weigh(a.meter, a.transfer.amount)) &&
            (SolanaReadsCap(policy) ==> WithinCap(Total(after).spent, PeriodCap(Yocto, policy))) &&
            WithinCap(Total(after).count, policy.maxTxCountPerPeriod)
    ensures Metered(Yocto, policy)
  {
    hide OptionalAmount, Print, Window, TermsAllow;
    var w := Window(a.now, policy.periodSeconds.value);
    FinerReadsCoarser(policy.maxPerPeriodNative);
    EnforceRefinesCounter(a.meter, policy, a.transfer, a.now);
    ChargeKeepsTotalIff(a.meter, policy, a.transfer.amount, w);
    if a.meter.Lamports? {
      var next := Add(Abstract(Lamports, policy), w, a.transfer.amount);
      YoctoFromLamports(next.spent);
      var cap := PeriodCap(Lamports, policy);
      if cap.Some? {
        MulDistrib(cap.value - next.spent, next.spent, YOCTO_PER_LAMPORT);
      }
    }
  }

  /** A run whose Solana transfers can read the total keeps the total of both chains exactly. */
  lemma {:induction false} SharedRunKeepsTotal(policy: Policy, run: seq<Attempt>)
    requires NativeMeters(run) && MeteredOnBoth(policy) && AlwaysReadsAlike(policy, run)
    ensures Total(PolicyAfter(policy, run)) ==
            Replay(Total(policy), policy.periodSeconds.value, Weighed(Accepted(policy, run)))
  {
    hide OptionalAmount, Print, TermsAllow, Charge, Window, ReadsAlike, Weigh, Enforce;
    if run != [] {
      var front, a := run[..|run| - 1], run[|run| - 1];
      AlwaysReadsAlikeSnoc(policy, run);
      SharedRunKeepsTotal(policy, front);
      TermsKept(policy, front);
      var before := PolicyAfter(policy, front);
      TermsKeepMeter(Lamports, policy, before);
      if Enforce(a.meter, before, a.transfer, a.now).Some? {
        EnforceKeepsTotal(before, a);
        WeighedSnoc(Accepted(policy, run));
      }
    }
  }

  /** ... and then the two chains together stay within the period cap and the count cap. */
  lemma {:induction false} SharedWindowsWithinCaps(policy: Policy, run: seq<Attempt>, window: nat)
    requires NativeMeters(run) && NonDecreasing(run) && MeteredOnBoth(policy) && SolanaReadsCap(policy)
    requires AlwaysReadsAlike(policy, run)
    ensures var period, done := policy.periodSeconds.value, Weighed(Accepted(policy, run));
            WithinCap(SumIn(done, period, window), PeriodCap(Yocto, policy)) &&
            WithinCap(CountIn(done, period, window), policy.maxTxCountPerPeriod)
  {
    hide OptionalAmount, Print, TermsAllow, Charge, Window, ReadsAlike, Weigh, Enforce;
    if run != [] {
      var front, a := run[..|run| - 1], run[|run| - 1];
      AlwaysReadsAlikeSnoc(policy, run);
      SharedWindowsWithinCaps(policy, front, window);
      TermsKept(policy, front);
      var before := PolicyAfter(policy, front);
      TermsKeepMeter(Lamports, policy, before);
      TermsKeepMeter(Yocto, policy, before);
      if Enforce(a.meter, before, a.transfer, a.now).Some? {
        EnforceKeepsTotal(before, a);
        WeighedSnoc(Accepted(policy, run));
        SharedRunKeepsTotal(policy, run);
        AcceptedInOrder(policy, run);
        ReplayExact(Total(policy), policy.periodSeconds.value, Weighed(Accepted(policy, run)));
        WindowIs(a.now, policy.periodSeconds.value, window);
      }
    }
  }

  // When the total is kept, exactly.

  /** After every step the stored text reads, in yocto, as the total of both chains. */
  ghost predicate KeepsTotal(policy: Policy, run: seq<Attempt>)
    requires policy.periodSeconds.UnwrapOr(0) > 0
  {
    forall i | 0 <= i <= |run| :: TotalExact(policy, run[..i])
  }

  ghost predicate TotalExact(policy: Policy, run: seq<Attempt>)
    requires policy.periodSeconds.UnwrapOr(0) > 0
  {
    Total(PolicyAfter(policy, run)) == Replay(Total(policy), policy.periodSeconds.value, Weighed(Accepted(policy, run)))
  }

  /** What both chains have spent in a window when a run has been made, the policy's own total included. */
  function WindowTotal(policy: Policy, run: seq<Attempt>, window: nat): nat
    requires policy.periodSeconds.UnwrapOr(0) > 0
  {
    var period, done := policy.periodSeconds.value, Weighed(Accepted(policy, run));
    Carried(Total(policy), period, done, window).spent + SumIn(done, period, window)
  }

  /**
   The next Solana transfer finds a total it can read: whole lamports that fit 64 bits, or, as long as
   nothing has been accepted, a text both enforcers read alike.
   */
  predicate FindsReadable(policy: Policy, run: seq<Attempt>, window: nat)
    requires policy.periodSeconds.UnwrapOr(0) > 0
  {
    if Accepted(policy, run) == [] then ReadsAlike(policy, window)
    else
      var total := WindowTotal(policy, run, window);
      total % YOCTO_PER_LAMPORT == 0 && total / YOCTO_PER_LAMPORT < U64_LIMIT
  }

  /** Every accepted Solana transfer of the run finds a readable total. */
  ghost predicate TotalsReadable(policy: Policy, run: seq<Attempt>)
    requires policy.periodSeconds.UnwrapOr(0) > 0
  {
    forall i | 0 <= i < |run| && run[i].meter.Lamports? &&
        Enforce(Lamports, PolicyAfter(policy, run[..i]), run[i].transfer, run[i].now).Some? ::
      FindsReadable(policy, run[..i], Window(run[i].now, policy.periodSeconds.value))
  }

  lemma TotalsReadableSnoc(policy: Policy, run: seq<Attempt>)
    requires policy.periodSeconds.UnwrapOr(0) > 0 && run != []
    ensures var front, a := run[..|run| - 1], run[|run| - 1];
            TotalsReadable(policy, run) <==>
            TotalsReadable(policy, front) &&
            (a.meter.Lamports? && Enforce(Lamports, PolicyAfter(policy, front), a.transfer, a.now).Some? ==>
               FindsReadable(policy, front, Window(a.now, policy.periodSeconds.value)))
  {
    hide FindsReadable, Enforce, PolicyAfter, Window;
    var front := run[..|run| - 1];
    assert forall i :: 0 <= i < |run| ==> run[..i] == front[..i];
    assert run[..|run| - 1] == front;
    assert forall i :: 0 <= i < |front| ==> run[i] == front[i];
  }

  lemma KeepsTotalSnoc(policy: Policy, run: seq<Attempt>)
    requires policy.periodSeconds.UnwrapOr(0) > 0 && run != []
    ensures KeepsTotal(policy, run) <==> KeepsTotal(policy, run[..|run| - 1]) && TotalExact(policy, run)
  {
    hide TotalExact;
    var front := run[..|run| - 1];
    assert forall i :: 0 <= i <= |front| ==> run[..i] == front[..i];
    assert run[..|run|] == run;
  }

  /** The total is kept through a run exactly when every accepted Solana transfer read it alike. */
  lemma {:induction false} KeepsTotalIff(policy: Policy, run: seq<Attempt>)
    requires NativeMeters(run) && MeteredOnBoth(policy)
    ensures KeepsTotal(policy, run) <==> AlwaysReadsAlike(policy, run)
  {
    hide OptionalAmount, Print, TermsAllow, Charge, Window, ReadsAlike, Weigh, Enforce, KeepsTotal, AlwaysReadsAlike;
    if run == [] {
      NothingYet(policy);
    } else {
      var front, a := run[..|run| - 1], run[|run| - 1];
      KeepsTotalIff(policy, front);
      KeepsTotalSnoc(policy, run);
      AlwaysReadsAlikeSnoc(policy, run);
      if KeepsTotal(policy, front) {
        TotalExactAtFront(policy, front);
        StepExactIff(policy, run);
      }
    }
  }

  lemma NothingYet(policy: Policy)
    requires policy.periodSeconds.UnwrapOr(0) > 0
    ensures KeepsTotal(policy, []) && AlwaysReadsAlike(policy, []) && TotalsReadable(policy, [])
  {
  }

  lemma TotalExactAtFront(policy: Policy, front: seq<Attempt>)
    requires policy.periodSeconds.UnwrapOr(0) > 0 && KeepsTotal(policy, front)
    ensures TotalExact(policy, front)
  {
    hide TotalExact;
    assert front[..|front|] == front;
  }

  lemma StepExactIff(policy: Policy, run: seq<Attempt>)
    requires NativeMeters(run) && MeteredOnBoth(policy) && run != [] && TotalExact(policy, run[..|run| - 1])
    ensures var front, a := run[..|run| - 1], run[|run| - 1];
            TotalExact(policy, run) <==>
            (a.meter.Lamports? && Enforce(Lamports, PolicyAfter(policy, front), a.transfer, a.now).Some? ==>
               ReadsAlike(PolicyAfter(policy, front), Window(a.now, policy.periodSeconds.value)))
  {
    hide OptionalAmount, Print, TermsAllow, Charge, Window, ReadsAlike, Weigh;
    var front, a := run[..|run| - 1], run[|run| - 1];
    var before, w := PolicyAfter(policy, front), Window(a.now, policy.periodSeconds.value);
    TermsKept(policy, front);
    TermsKeepMeter(Lamports, policy, before);
    TermsKeepMeter(Yocto, policy, before);
    FinerReadsCoarser(policy.maxPerPeriodNative);
    if Enforce(a.meter, before, a.transfer, a.now).Some? {
      ChargeKeepsTotalIff(a.meter, before, a.transfer.amount, w);
      WeighedSnoc(Accepted(policy, run));
    }
  }

  /** What the last accepted transfer of a run left: its own window, and its total printed in its own unit. */
  lemma {:induction false} LastCharge(policy: Policy, run: seq<Attempt>)
    requires NativeMeters(run) && MeteredOnBoth(policy) && Accepted(policy, run) != []
    ensures var after, done := PolicyAfter(policy, run), Accepted(policy, run);
            var a := done[|done| - 1];
            var spent := Abstract(a.meter, after).spent;
            !a.meter.TokenUnits? && spent < Limit(a.meter) &&
            after.periodStartUnixSeconds == Some(Window(a.now, policy.periodSeconds.value)) &&
            after.spentThisPeriodNative == Some(Print(a.meter, spent))
  {
    hide OptionalAmount, Print, TermsAllow, Charge, Window, Enforce;
    var front, a := run[..|run| - 1], run[|run| - 1];
    var before := PolicyAfter(policy, front);
    TermsKept(policy, front);
    TermsKeepMeter(Lamports, policy, before);
    TermsKeepMeter(Yocto, policy, before);
    FinerReadsCoarser(policy.maxPerPeriodNative);
    if Enforce(a.meter, before, a.transfer, a.now).Some? {
      EnforceRefinesCounter(a.meter, before, a.transfer, a.now);
    } else {
      LastCharge(policy, front);
    }
  }

  lemma {:induction false} NoneAccepted(policy: Policy, run: seq<Attempt>)
    requires Accepted(policy, run) == []
    ensures PolicyAfter(policy, run) == policy
  {
    hide Enforce;
    if run != [] {
      NoneAccepted(policy, run[..|run| - 1]);
    }
  }

  /** While the total has been kept, whether both enforcers read it alike is a matter of arithmetic. */
  lemma ReadsAlikeIff(policy: Policy, run: seq<Attempt>, now: nat)
    requires NativeMeters(run) && NonDecreasing(run) && MeteredOnBoth(policy) && TotalExact(policy, run)
    requires forall i :: 0 <= i < |run| ==> run[i].now <= now
    ensures var w := Window(now, policy.periodSeconds.value);
            ReadsAlike(PolicyAfter(policy, run), w) <==> FindsReadable(policy, run, w)
  {
    hide OptionalAmount, Print, Window, Enforce, ReadsAlike, WindowTotal, PolicyAfter, Accepted, TotalExact;
    var period, done := policy.periodSeconds.value, Accepted(policy, run);
    if done == [] {
      NoneAccepted(policy, run);
    } else {
      AcceptedInOrder(policy, run);
      assert done[|done| - 1] in run;
      if Window(done[|done| - 1].now, period) == Window(now, period) {
        SameWindowReads(policy, run);
      } else {
        OtherWindowReads(policy, run, now);
      }
    }
  }

  /** In the window of the last accepted transfer. */
  lemma SameWindowReads(policy: Policy, run: seq<Attempt>)
    requires NativeMeters(run) && NonDecreasing(run) && MeteredOnBoth(policy) && TotalExact(policy, run)
    requires Accepted(policy, run) != []
    ensures var done := Accepted(policy, run);
            var w := Window(done[|done| - 1].now, policy.periodSeconds.value);
            var total := WindowTotal(policy, run, w);
            ReadsAlike(PolicyAfter(policy, run), w) <==> total % YOCTO_PER_LAMPORT == 0 && total / YOCTO_PER_LAMPORT < U64_LIMIT
  {
    hide OptionalAmount, Print, Window, Enforce, ReadsAlike, PolicyAfter, Accepted, SumIn, CountIn;
    var period, done, after := policy.periodSeconds.value, Accepted(policy, run), PolicyAfter(policy, run);
    var a := done[|done| - 1];
    AcceptedInOrder(policy, run);
    LastCharge(policy, run);
    ReplayExact(Total(policy), period, Weighed(done));
    assert Total(after).spent == WindowTotal(policy, run, Window(a.now, period));
    SameWindowIff(after, a.meter, Window(a.now, period));
  }

  /** In a later window nothing has been spent, and both read that. */
  lemma OtherWindowReads(policy: Policy, run: seq<Attempt>, now: nat)
    requires NativeMeters(run) && NonDecreasing(run) && MeteredOnBoth(policy) && Accepted(policy, run) != []
    requires var done := Accepted(policy, run);
             done[|done| - 1].now <= now && Window(done[|done| - 1].now, policy.periodSeconds.value) != Window(now, policy.periodSeconds.value)
    ensures var w := Window(now, policy.periodSeconds.value);
            ReadsAlike(PolicyAfter(policy, run), w) && WindowTotal(policy, run, w) == 0
  {
    hide OptionalAmount, Print, Window, Enforce, PolicyAfter, Accepted;
    var period, w, done := policy.periodSeconds.value, Window(now, policy.periodSeconds.value), Accepted(policy, run);
    var a := done[|done| - 1];
    AcceptedInOrder(policy, run);
    LastCharge(policy, run);
    WindowMonotone(a.now, now, period);
    forall i | 0 <= i < |done| ensures Window(done[i].now, period) < w {
      WindowMonotone(done[i].now, a.now, period);
    }
    FutureWindowEmpty(Weighed(done), period, w);
    WindowIs(done[0].now, period, w);
  }

  /** A total printed by either enforcer in its window is read alike exactly when it is whole lamports that fit. */
  lemma SameWindowIff(policy: Policy, meter: Meter, window: nat)
    requires !meter.TokenUnits? && policy.periodStartUnixSeconds == Some(window)
    requires var spent := Abstract(meter, policy).spent;
             spent < Limit(meter) && policy.spentThisPeriodNative == Some(Print(meter, spent))
    ensures var total := Total(policy).spent;
            ReadsAlike(policy, window) <==> total % YOCTO_PER_LAMPORT == 0 && total / YOCTO_PER_LAMPORT < U64_LIMIT
  {
    hide OptionalAmount, Print;
    var spent := Abstract(meter, policy).spent;
    if meter.Yocto? {
      ReadsAlikeAfterNear(policy, spent, window);
    } else {
      ReadsAlikeAfterSolana(policy, spent, window);
      DivModUnique(spent, 0, YOCTO_PER_LAMPORT);
    }
  }

  /** Over any run in block-time order, both enforcers always read alike exactly when the totals are readable. */
  lemma {:induction false} AlwaysReadsAlikeIff(policy: Policy, run: seq<Attempt>)
    requires NativeMeters(run) && NonDecreasing(run) && MeteredOnBoth(policy)
    ensures AlwaysReadsAlike(policy, run) <==> TotalsReadable(policy, run)
  {
    hide OptionalAmount, Print, TermsAllow, Charge, Window, ReadsAlike, Weigh, Enforce, TotalsReadable, AlwaysReadsAlike,
         FindsReadable;
    if run == [] {
      NothingYet(policy);
    } else {
      var front, a := run[..|run| - 1], run[|run| - 1];
      AlwaysReadsAlikeIff(policy, front);
      AlwaysReadsAlikeSnoc(policy, run);
      TotalsReadableSnoc(policy, run);
      if AlwaysReadsAlike(policy, front) {
        SharedRunKeepsTotal(policy, front);
        ReadsAlikeIff(policy, front, a.now);
      }
    }
  }

  /**
   The total of both chains is kept through a run in block-time order if and only if each accepted
   Solana transfer finds a window total that is whole lamports fitting 64 bits.
   */
  lemma TotalKeptIff(policy: Policy, run: seq<Attempt>)
    requires NativeMeters(run) && NonDecreasing(run) && MeteredOnBoth(policy)
    ensures KeepsTotal(policy, run) <==> TotalsReadable(policy, run)
  {
    hide KeepsTotal, TotalsReadable, AlwaysReadsAlike;
    KeepsTotalIff(policy, run);
    AlwaysReadsAlikeIff(policy, run);
  }

  // A condition on the inputs alone.

  /** The counter was never written, or by the Solana enforcer. */
  ghost predicate WholeLamportText(policy: Policy) {
    policy.spentThisPeriodNative.None? ||
    exists lamports: nat :: lamports < U64_LIMIT && policy.spentThisPeriodNative == Some(Print(Lamports, lamports))
  }

  /** Every NEAR amount of the run is whole lamports. */
  predicate WholeLamports(run: seq<Attempt>) {
    forall i :: 0 <= i < |run| && run[i].meter.Yocto? ==> run[i].transfer.amount % YOCTO_PER_LAMPORT == 0
  }

  /** Both enforcers read the stored text as the same amount. */
  predicate SameAmount(policy: Policy) {
    Abstract(Lamports, policy).spent * YOCTO_PER_LAMPORT == Total(policy).spent
  }

  lemma WholeTextSameAmount(policy: Policy)
    requires WholeLamportText(policy)
    ensures SameAmount(policy)
  {
    hide Print, ParseAmount;
    if policy.spentThisPeriodNative.Some? {
      var lamports: nat :| lamports < U64_LIMIT && policy.spentThisPeriodNative == Some(Print(Lamports, lamports));
      CounterRoundTrip(Lamports, lamports);
      FinerReadsCoarser(policy.spentThisPeriodNative);
    }
  }

  lemma EnforceKeepsSameAmount(policy: Policy, a: Attempt)
    requires MeteredOnBoth(policy) && PeriodCap(Lamports, policy).Some? && SameAmount(policy) && !a.meter.TokenUnits?
    requires a.meter.Yocto? ==> a.transfer.amount % YOCTO_PER_LAMPORT == 0
    requires Enforce(a.meter, policy, a.transfer, a.now).Some?
    ensures SameAmount(Enforce(a.meter, policy, a.transfer, a.now).value)
  {
    hide OptionalAmount, Print, Window, TermsAllow;
    var w := Window(a.now, policy.periodSeconds.value);
    var after := Enforce(a.meter, policy, a.transfer, a.now).value;
    FinerReadsCoarser(policy.maxPerPeriodNative);
    EnforceRefinesCounter(a.meter, policy, a.transfer, a.now);
    if a.meter.Lamports? {
      ReadsAlikeAfterSolana(after, Abstract(Lamports, after).spent, w);
    } else {
      WholeTotal(Base(Abstract(Lamports, policy), w).spent, a.transfer.amount, PeriodCap(Lamports, policy).value);
      CapBound(policy);
      ReadsAlikeAfterNear(after, Abstract(Yocto, after).spent, w);
    }
  }

  lemma WholeTotal(lamports: nat, yocto: nat, cap: nat)
    requires yocto % YOCTO_PER_LAMPORT == 0
    ensures var total := lamports * YOCTO_PER_LAMPORT + yocto;
            total % YOCTO_PER_LAMPORT == 0 &&
            (total <= cap * YOCTO_PER_LAMPORT ==> total / YOCTO_PER_LAMPORT <= cap)
  {
    var more := yocto / YOCTO_PER_LAMPORT;
    DivModUnique(lamports + more, 0, YOCTO_PER_LAMPORT);
  }

  lemma CapBound(policy: Policy)
    requires PeriodCap(Lamports, policy).Some?
    ensures PeriodCap(Lamports, policy).value < U64_LIMIT
  {
    hide ParseAmount, Trim;
  }

  /**
   It is enough that the caps can be read on Solana, that the stored text is absent or was written by
   the Solana enforcer, and that every NEAR amount is whole lamports.
   */
  lemma {:induction false} WholeLamportsReadAlike(policy: Policy, run: seq<Attempt>)
    requires NativeMeters(run) && MeteredOnBoth(policy) && PeriodCap(Lamports, policy).Some?
    requires WholeLamportText(policy) && WholeLamports(run)
    ensures AlwaysReadsAlike(policy, run) && SameAmount(PolicyAfter(policy, run))
  {
    hide OptionalAmount, Print, TermsAllow, Charge, Window, Enforce, WholeLamportText, SameAmount, AlwaysReadsAlike;
    if run == [] {
      NothingYet(policy);
      WholeTextSameAmount(policy);
    } else {
      var front, a := run[..|run| - 1], run[|run| - 1];
      var before := PolicyAfter(policy, front);
      WholeLamportsReadAlike(policy, front);
      AlwaysReadsAlikeSnoc(policy, run);
      SameAmountReadsAlike(before, Window(a.now, policy.periodSeconds.value));
      TermsKept(policy, front);
      TermsKeepMeter(Lamports, policy, before);
      TermsKeepMeter(Yocto, policy, before);
      if Enforce(a.meter, before, a.transfer, a.now).Some? {
        EnforceKeepsSameAmount(before, a);
      }
    }
  }

  lemma SameAmountReadsAlike(policy: Policy, window: nat)
    requires SameAmount(policy)
    ensures ReadsAlike(policy, window)
  {
    hide OptionalAmount;
  }
}
