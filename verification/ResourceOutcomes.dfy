/** How starting and closing come out: what a settled start promise means, which waits fail, and how long they last. */
module ResourceOutcomes {
  import opened Wrappers
  import opened ResourceOwner

  // ----- single steps -----

  lemma {:induction false} AdvanceCloseFrame(s: State, k: nat)
    requires k <= |s.registered|
    ensures var s' := AdvanceClose(s, k);
            && s' == s.(closePromise := s'.closePromise, trace := s'.trace)
            && (s'.closePromise == CloseDone(s.now) ||
                (s'.closePromise.ClosingAt? && s'.closePromise.deadline == s.now + CLOSE_TIMEOUT_MS))
  {
    if k == 0 {
    } else {
      AdvanceCloseFrame(s, k - 1);
    }
  }

  /** A first close waits for a start that is under way, and otherwise closes at once. */
  lemma CloseFrame(s: State)
    requires Linked(s)
    ensures var s' := Close(s);
            && s'.starts == s.starts && s'.now == s.now && !s'.closePromise.NoClose?
            && (!s.closePromise.NoClose? ==> s' == s)
            && (s.closePromise.NoClose? ==> !s'.firstError)
            && (s.closePromise.NoClose? && s.starts.work.Some? ==>
                  s'.closePromise == CloseAwaitsStart(s.starts.work.value, s.now + CLOSE_TIMEOUT_MS))
            && (s.closePromise.NoClose? && s.starts.work.None? ==>
                  s'.closePromise == CloseDone(s.now) ||
                  (s'.closePromise.ClosingAt? && s'.closePromise.deadline == s.now + CLOSE_TIMEOUT_MS))
  {
    if s.closePromise.NoClose? {
      AdvanceCloseFrame(Asked(s), |s.registered|);
      hide AdvanceClose;
    }
  }

  /** The wait of the close loop that this step ends, if any, goes by failure or success. */
  predicate EndsWait(step: Step) {
    step.StartupSeen? || step.CloseSettles? || step.TimerFires?
  }

  /** A wait of the close loop failed or ran out of time. */
  predicate Fails(step: Step) {
    step == CloseSettles(false) || step.TimerFires?
  }

  lemma WaitFrame(s: State, step: Step)
    requires Enabled(s, step) && EndsWait(step)
    ensures var s' := Next(s, step);
            && s'.starts == s.starts && s'.now == s.now && (s'.firstError <==> s.firstError || Fails(step))
            && (s'.closePromise == CloseDone(s.now) ||
                (s'.closePromise.ClosingAt? && s'.closePromise.deadline == s.now + CLOSE_TIMEOUT_MS))
  {
    var k := if s.closePromise.ClosingAt? then s.closePromise.index else |s.registered|;
    AdvanceCloseFrame(s.(firstError := s.firstError || Fails(step)), k);
    hide AdvanceClose;
  }

  lemma OtherFrame(s: State, step: Step)
    requires Enabled(s, step) && !EndsWait(step) && !step.CallClose? && !step.StartReacts?
    ensures var s' := Next(s, step);
            && s'.closePromise == s.closePromise && s'.firstError == s.firstError
            && s'.closingRequested == s.closingRequested
            && (step.Tick? || s'.now == s.now)
            && (step.StartRejects? ==> s'.starts.promise == StartSettled(false))
            && (!step.StartRejects? && !s.starts.promise.NoStart? ==> s'.starts.promise == s.starts.promise)
            && !(s.starts.promise.NoStart? && s'.starts.promise.StartSettled?)
  {
    hide FirstOwned;
  }

  // ----- a settled start -----

  ghost predicate Settled(s: State) {
    && (s.starts.promise == StartSettled(false) ==> s.closePromise.CloseDone?)
    && (s.starts.promise == StartSettled(true) && !s.starts.reentered ==> s.starts.loops == [StartDone(true)])
    && (s.closePromise.NoClose? ==> !s.firstError)
  }

  /** Loops that are over stay as they are, and where no start is nested there is no further one. */
  lemma LoopsStay(s: State, step: Step)
    requires Inv(s) && Enabled(s, step) && s.starts.loops == [StartDone(true)] && !s.starts.reentered
    requires !EndsWait(step) && !step.CallClose? && !step.StartReacts?
    ensures Next(s, step).starts.loops == s.starts.loops
  {
    hide StartsOf, ClosesOf, NoLateStart, FirstOwned;
  }

  lemma StepSettled(s: State, step: Step)
    requires Inv(s) && Settled(s) && Enabled(s, step)
    ensures Settled(Next(s, step))
  {
    assert Linked(s);
    assert !s.starts.reentered && s.starts.loops != [] && s.starts.stretch == [] ==> |s.starts.loops| == 1;
    if EndsWait(step) {
      hide Inv, Next, Linked;
      WaitFrame(s, step);
    } else if step.CallClose? || step.StartReacts? {
      hide Inv, AdvanceClose;
      CloseFrame(s);
    } else {
      OtherFrame(s, step);
      if s.starts.loops == [StartDone(true)] && !s.starts.reentered {
        LoopsStay(s, step);
      }
      hide Inv, Next, Linked;
    }
  }

  lemma {:induction false} RunSettled(s: State, steps: seq<Step>)
    requires Inv(s) && Settled(s)
    ensures Inv(Run(s, steps)) && Settled(Run(s, steps))
    decreases |steps|
  {
    hide Inv, Settled, Next, Enabled;
    if steps == [] {
    } else {
      if Enabled(s, steps[0]) {
        NextKeeps(s, steps[0]);
        StepSettled(s, steps[0]);
      }
      RunSettled(if Enabled(s, steps[0]) then Next(s, steps[0]) else s, steps[1..]);
    }
  }

  /**
   * Over every run: a start promise is rejected only when closing was asked for and every owned resource was
   * closed, in reverse order; where no start is nested it is fulfilled only when every owned one was started.
   */
  lemma StartPromiseExact(steps: seq<Step>)
    ensures var s := Run(INITIAL, steps);
            && (s.starts.promise == StartSettled(false) ==>
                  && CloseAsked in s.trace && s.closePromise.CloseDone?
                  && ClosesOf(s.trace) == CloseOrder(s.registered, |s.registered|))
            && (s.starts.promise == StartSettled(true) && !s.starts.reentered ==>
                  StartsOf(s.trace) == StartOrder(s.registered, |s.registered|))
  {
    assert Inv(INITIAL) && Settled(INITIAL);
    RunSettled(INITIAL, steps);
    hide Run, StartsOf, ClosesOf, StartOrder, CloseOrder, NoLateStart;
  }

  // ----- a failed start -----

  /** The start loop that the start promise waits for has failed. */
  predicate StartFailed(s: State) {
    s.starts.stretch == [] && s.starts.promise.StartPending? && LoopOver(s, s.starts.promise.loop)
    && !s.starts.loops[s.starts.promise.loop].ok
  }

  lemma {:induction false} RunAppends(s: State, a: seq<Step>, b: seq<Step>)
    ensures Run(s, a + b) == Run(Run(s, a), b)
    decreases |a|
  {
    hide Next, Enabled;
    if a == [] {
      assert a + b == b;
    } else {
      assert (a + b)[0] == a[0] && (a + b)[1..] == a[1..] + b;
      RunAppends(if Enabled(s, a[0]) then Next(s, a[0]) else s, a[1..], b);
    }
  }

  /** A failed start asks for closing, and then time alone closes everything and rejects the start promise. */
  lemma FailedStartCloses(s: State)
    requires Inv(s) && StartFailed(s)
    ensures Enabled(s, StartReacts)
    ensures var s1 := Next(s, StartReacts);
            && CloseAsked in s1.trace && s1.starts.promise == StartAwaitsClose
            && exists timers ::
                 var s2 := Run(s1, timers + [StartRejects]);
                 && s2.starts.promise == StartSettled(false) && s2.closePromise.CloseDone?
                 && ClosesOf(s2.trace) == CloseOrder(s2.registered, |s2.registered|)
  {
    CloseFrame(s);
    NextKeeps(s, StartReacts);
    var s1 := Next(s, StartReacts);
    assert s1.starts == s.starts.(promise := StartAwaitsClose) && Linked(s1) && !s1.closePromise.NoClose?;
    hide Next, Inv, Run;
    var timers := Timers(s1);
    TimersFinish(s1);
    RunAppends(s1, timers, [StartRejects]);
    RunKeeps(s1, timers);
    RejectsNow(Run(s1, timers));
  }

  lemma RejectsNow(s: State)
    requires Inv(s) && s.starts.promise.StartAwaitsClose? && s.starts.stretch == [] && s.closePromise.CloseDone?
    ensures var s2 := Run(s, [StartRejects]);
            && s2.starts.promise == StartSettled(false) && s2.closePromise.CloseDone?
            && ClosesOf(s2.trace) == CloseOrder(s2.registered, |s2.registered|)
  {
    assert [StartRejects][1..] == [] && Enabled(s, StartRejects);
    assert Run(s, [StartRejects]) == Run(Next(s, StartRejects), []);
    hide ClosesOf, CloseOrder, StartSide, Linked, NoLateStart;
  }

  /** Every start loop is over, and none can begin. */
  ghost predicate Over(s: State) {
    && s.starts.stretch == [] && s.starts.work.Some?
    && forall k | 0 <= k < |s.starts.loops| :: s.starts.loops[k].StartDone?
  }

  lemma StepOver(s: State, step: Step)
    requires Inv(s) && Over(s) && Enabled(s, step)
    ensures Over(Next(s, step)) && StartsOf(Next(s, step).trace) == StartsOf(s.trace)
  {
    if EndsWait(step) {
      WaitFrame(s, step);
      hide Inv, StartsOf, AdvanceClose;
      ClosesStartNothing(s.(firstError := s.firstError || Fails(step)),
                         if s.closePromise.ClosingAt? then s.closePromise.index else |s.registered|);
    } else if step.CallClose? || step.StartReacts? {
      CloseFrame(s);
      CloseStartsNothing(s);
      hide Inv, StartsOf, Close;
    } else {
      hide Inv, StartsOf, FirstOwned;
    }
  }

  lemma CloseStartsNothing(s: State)
    requires Linked(s)
    ensures StartsOf(Close(s).trace) == StartsOf(s.trace)
  {
    hide StartsOf, AdvanceClose;
    TraceStep(s.trace, CloseAsked);
    if s.closePromise.NoClose? {
      ClosesStartNothing(Asked(s), |s.registered|);
    }
  }

  lemma {:induction false} ClosesStartNothing(s: State, k: nat)
    requires k <= |s.registered|
    ensures StartsOf(AdvanceClose(s, k).trace) == StartsOf(s.trace)
  {
    if k == 0 {
    } else {
      TraceStep(s.trace, Closed(k - 1));
      ClosesStartNothing(s, k - 1);
    }
  }

  lemma {:induction false} RunOver(s: State, steps: seq<Step>)
    requires Inv(s) && Over(s)
    ensures StartsOf(Run(s, steps).trace) == StartsOf(s.trace)
    decreases |steps|
  {
    hide Inv, Over, Next, Enabled, StartsOf;
    if steps == [] {
    } else {
      if Enabled(s, steps[0]) {
        NextKeeps(s, steps[0]);
        StepOver(s, steps[0]);
      }
      RunOver(if Enabled(s, steps[0]) then Next(s, steps[0]) else s, steps[1..]);
    }
  }

  /** Once a start has failed, by throwing or by rejecting, nothing is started ever again (where none was nested). */
  lemma NothingStartsAfterFailure(before: seq<Step>, k: nat, later: seq<Step>)
    ensures var s := Run(INITIAL, before);
            !s.starts.reentered ==>
              forall failing | failing in [StartSettles(k, false), StartReturns(true)] && Enabled(s, failing) ::
                StartsOf(Run(Next(s, failing), later).trace) == StartsOf(s.trace)
  {
    RunKeeps(INITIAL, before);
    var s := Run(INITIAL, before);
    hide Run, StartsOf, ClosesOf, NoLateStart, StartOrder, CloseOrder;
    forall failing |
      failing in [StartSettles(k, false), StartReturns(true)] && !s.starts.reentered && Enabled(s, failing)
      ensures StartsOf(Run(Next(s, failing), later).trace) == StartsOf(s.trace)
    {
      NextKeeps(s, failing);
      assert Over(Next(s, failing)) && Next(s, failing).trace == s.trace;
      RunOver(Next(s, failing), later);
    }
  }

  // ----- the waits of closing -----

  /** Such a step happens in this run. */
  predicate SomeWaitFails(s: State, steps: seq<Step>)
    decreases |steps|
  {
    steps != [] &&
    var happens := Enabled(s, steps[0]);
    (happens && Fails(steps[0])) || SomeWaitFails(if happens then Next(s, steps[0]) else s, steps[1..])
  }

  lemma StepError(s: State, step: Step)
    requires Inv(s) && Settled(s) && Enabled(s, step)
    ensures Next(s, step).firstError <==> s.firstError || Fails(step)
  {
    if EndsWait(step) {
      WaitFrame(s, step);
      hide Next;
    } else if step.CallClose? || step.StartReacts? {
      CloseFrame(s);
      hide Close;
    } else {
      OtherFrame(s, step);
      hide Next;
    }
  }

  lemma {:induction false} ErrorOfRun(s: State, steps: seq<Step>)
    requires Inv(s) && Settled(s)
    ensures Run(s, steps).firstError <==> s.firstError || SomeWaitFails(s, steps)
    decreases |steps|
  {
    hide Inv, Settled, Next, Enabled, Fails;
    if steps == [] {
    } else {
      if Enabled(s, steps[0]) {
        NextKeeps(s, steps[0]);
        StepSettled(s, steps[0]);
        StepError(s, steps[0]);
      }
      ErrorOfRun(if Enabled(s, steps[0]) then Next(s, steps[0]) else s, steps[1..]);
    }
  }

  /** Closing reports an error exactly when a wait for startup or for a close timed out, or a close failed. */
  lemma ErrorExact(steps: seq<Step>)
    ensures Run(INITIAL, steps).firstError <==> SomeWaitFails(INITIAL, steps)
  {
    assert Inv(INITIAL) && Settled(INITIAL);
    ErrorOfRun(INITIAL, steps);
  }

  /** What the close loop waits for is over, or its time is up. */
  ghost predicate WaitOver(s: State, step: Step) {
    match s.closePromise
    case CloseAwaitsStart(k, d) => LoopOver(s, k) || s.now == d
    case ClosingAt(_, d) => step.CloseSettles? || s.now == d
    case _ => false
  }

  /**
   * A first close waits for a start that is under way. Each wait lasts until what it waits for is over or 5000 ms
   * have passed, and nothing else ends it; the next one begins at once.
   */
  lemma EachWaitInFull(s: State, step: Step)
    requires Inv(s) && Enabled(s, step)
    ensures var s' := Next(s, step);
            && (s'.closePromise != s.closePromise && Deadline(s').Some? ==> Deadline(s').value == s'.now + 5000)
            && (s.closePromise.NoClose? && !s'.closePromise.NoClose? && s.starts.work.Some? ==>
                  s'.closePromise == CloseAwaitsStart(s.starts.work.value, s.now + 5000))
            && (s'.closePromise != s.closePromise && !s.closePromise.NoClose? ==> WaitOver(s, step))
  {
    if EndsWait(step) {
      WaitFrame(s, step);
      hide Inv, Next;
    } else if step.CallClose? || step.StartReacts? {
      CloseFrame(s);
      hide Inv, Close;
    } else {
      OtherFrame(s, step);
      hide Inv, Next;
    }
  }
}
