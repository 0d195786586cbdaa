/**
 * The lifecycle of owned and borrowed resources. Every await is a step boundary: between two steps anyone may
 * register, start or close, and a start or close may succeed, fail or hang.
 *
 * A start call runs its loop up to the first await before it is remembered. In that stretch the first owned
 * resource's own start may call the owner again, and only it can.
 */
module ResourceOwner {
  import opened Wrappers

  const CLOSE_TIMEOUT_MS := 5000

  datatype Resource = Resource(name: string, owned: bool, hasStart: bool)

  /** One run of the start loop, past its first stretch. */
  datatype Loop = StartingAt(index: nat) | StartDone(ok: bool)

  datatype StartPromise = NoStart | StartPending(loop: nat) | StartAwaitsClose | StartSettled(ok: bool)

  datatype ClosePromise =
    | NoClose
    | CloseAwaitsStart(loop: nat, deadline: nat)
    | ClosingAt(index: nat, deadline: nat)
    | CloseDone(at: nat)

  /** What the outside world sees. */
  datatype Event = Started(index: nat) | CloseAsked | Closed(index: nat)

  /** The start loops, the one remembered as the start work, and the resources whose start has not returned yet. */
  datatype Starts = Starts(
    loops: seq<Loop>, work: Option<nat>, promise: StartPromise, stretch: seq<nat>,
    reentered: bool)  // a start call began a loop inside the stretch of another

  datatype State = State(
    registered: seq<Resource>, closingRequested: bool, starts: Starts,
    closePromise: ClosePromise, firstError: bool, now: nat, askedAt: nat, trace: seq<Event>)

  function FirstOwned(registered: seq<Resource>, i: nat): (j: nat)
    requires i <= |registered|
    ensures i <= j <= |registered| && (j < |registered| ==> registered[j].owned)
    ensures forall k | i <= k < j :: !registered[k].owned
    decreases |registered| - i
  {
    if i == |registered| || registered[i].owned then i else FirstOwned(registered, i + 1)
  }

  function WithStart(trace: seq<Event>, registered: seq<Resource>, i: nat): seq<Event>
    requires i < |registered|
  {
    if registered[i].hasStart then trace + [Started(i)] else trace
  }

  /** Loop k goes on at resource i, up to its next await. */
  function AdvanceStart(s: State, k: nat, i: nat): State
    requires i <= |s.registered| && k < |s.starts.loops|
  {
    var j := FirstOwned(s.registered, i);
    if j == |s.registered| then s.(starts := s.starts.(loops := s.starts.loops[k := StartDone(true)]))
    else s.(starts := s.starts.(loops := s.starts.loops[k := StartingAt(j)]),
            trace := WithStart(s.trace, s.registered, j))
  }

  /** A loop has come to its first await: it becomes the start work, and the start promise if there is none. */
  function Remember(s: State, loop: Loop): State {
    var id := |s.starts.loops|;
    s.(starts := s.starts.(
       loops := s.starts.loops + [loop], work := Some(id),
       promise := if s.starts.promise.NoStart? then StartPending(id) else s.starts.promise))
  }

  /** Close the next owned resource below k, giving it five seconds. */
  function AdvanceClose(s: State, k: nat): State
    requires k <= |s.registered|
  {
    if k == 0 then s.(closePromise := CloseDone(s.now))
    else if !s.registered[k - 1].owned then AdvanceClose(s, k - 1)
    else s.(closePromise := ClosingAt(k - 1, s.now + CLOSE_TIMEOUT_MS), trace := s.trace + [Closed(k - 1)])
  }

  // ----- the three public calls -----

  function Register(s: State, r: Resource): (State, bool) {
    if s.starts.promise.NoStart? && s.closePromise.NoClose? then (s.(registered := s.registered + [r]), true)
    else (s, false)
  }

  /** The first stretch of a new loop. */
  function BeginStart(s: State): State {
    var j := FirstOwned(s.registered, 0);
    if s.registered != [] && s.closingRequested then Remember(s, StartDone(false))
    else if j == |s.registered| then Remember(s, StartDone(true))
    else if !s.registered[j].hasStart then Remember(s, StartingAt(j))
    else s.(trace := s.trace + [Started(j)],
            starts := s.starts.(stretch := s.starts.stretch + [j],
                                reentered := s.starts.reentered || s.starts.stretch != []))
  }

  function Start(s: State): State {
    if !s.closePromise.NoClose? || s.starts.work.Some? then s else BeginStart(s)
  }

  /** The start of the resource on top of the stretch returns a promise or throws. */
  function ReturnFromStart(s: State, threw: bool): State
    requires s.starts.stretch != []
  {
    var n := |s.starts.stretch| - 1;
    Remember(s.(starts := s.starts.(stretch := s.starts.stretch[..n])),
             if threw then StartDone(false) else StartingAt(s.starts.stretch[n]))
  }

  function Close(s: State): State {
    var s1 := if s.closingRequested then s else s.(closingRequested := true, trace := s.trace + [CloseAsked]);
    if !s1.closePromise.NoClose? then s1
    else
      var s2 := s1.(askedAt := s1.now, firstError := false);
      if s2.starts.work.Some? then
        s2.(closePromise := CloseAwaitsStart(s2.starts.work.value, s2.now + CLOSE_TIMEOUT_MS))
      else AdvanceClose(s2, |s2.registered|)
  }

  // ----- continuations -----

  predicate InLoop(s: State, k: nat) {
    k < |s.starts.loops| && s.starts.loops[k].StartingAt? && s.starts.loops[k].index < |s.registered|
  }

  predicate LoopOver(s: State, k: nat) {
    k < |s.starts.loops| && s.starts.loops[k].StartDone?
  }

  /** The awaited start of loop k settles and the loop resumes. */
  function ResumeStart(s: State, k: nat, ok: bool): State
    requires InLoop(s, k)
  {
    if !ok || s.closingRequested then s.(starts := s.starts.(loops := s.starts.loops[k := StartDone(false)]))
    else AdvanceStart(s, k, s.starts.loops[k].index + 1)
  }

  /** The start promise reacts to its loop's end: a failure closes everything first. */
  function SettleStart(s: State): State
    requires s.starts.promise.StartPending? && LoopOver(s, s.starts.promise.loop)
  {
    if s.starts.loops[s.starts.promise.loop].ok then s.(starts := s.starts.(promise := StartSettled(true)))
    else
      var s1 := Close(s);
      s1.(starts := s1.starts.(promise := StartAwaitsClose))
  }

  function RejectStart(s: State): State
    requires s.starts.promise.StartAwaitsClose? && s.closePromise.CloseDone?
  {
    s.(starts := s.starts.(promise := StartSettled(false)))
  }

  /** The wait for startup ends, by itself or by its timer. */
  function EndStartWait(s: State, timedOut: bool): State
    requires s.closePromise.CloseAwaitsStart?
  {
    AdvanceClose(s.(firstError := s.firstError || timedOut), |s.registered|)
  }

  /** The wait for one close ends: it succeeded, failed, or ran out of time. */
  function EndCloseWait(s: State, failed: bool): State
    requires s.closePromise.ClosingAt? && s.closePromise.index <= |s.registered|
  {
    AdvanceClose(s.(firstError := s.firstError || failed), s.closePromise.index)
  }

  datatype Step =
    | CallRegister(r: Resource)
    | CallStart
    | CallClose
    | StartReturns(threw: bool)
    | StartSettles(k: nat, ok: bool)
    | StartReacts
    | StartRejects
    | StartupSeen
    | CloseSettles(ok: bool)
    | TimerFires
    | Tick(ms: nat)

  function Deadline(s: State): Option<nat> {
    match s.closePromise
    case CloseAwaitsStart(_, d) => Some(d)
    case ClosingAt(_, d) => Some(d)
    case _ => None
  }

  predicate IsCall(step: Step) {
    step.CallRegister? || step.CallStart? || step.CallClose?
  }

  predicate Enabled(s: State, step: Step) {
    // while a start is on the call stack nothing else runs but the calls it makes
    && (s.starts.stretch != [] ==> IsCall(step) || step.StartReturns?)
    && match step
       case StartReturns(_) => s.starts.stretch != []
       case StartSettles(k, _) => InLoop(s, k)
       case StartReacts => s.starts.promise.StartPending? && LoopOver(s, s.starts.promise.loop)
       case StartRejects => s.starts.promise.StartAwaitsClose? && s.closePromise.CloseDone?
       case StartupSeen => s.closePromise.CloseAwaitsStart? && LoopOver(s, s.closePromise.loop)
       case CloseSettles(_) => s.closePromise.ClosingAt? && s.closePromise.index < |s.registered|
       case TimerFires =>
         Deadline(s) == Some(s.now) && (s.closePromise.ClosingAt? ==> s.closePromise.index < |s.registered|)
       case Tick(ms) => Deadline(s).Some? ==> s.now + ms <= Deadline(s).value
       case _ => true
  }

  function Next(s: State, step: Step): State
    requires Enabled(s, step)
  {
    match step
    case CallRegister(r) => Register(s, r).0
    case CallStart => Start(s)
    case CallClose => Close(s)
    case StartReturns(threw) => ReturnFromStart(s, threw)
    case StartSettles(k, ok) => ResumeStart(s, k, ok)
    case StartReacts => SettleStart(s)
    case StartRejects => RejectStart(s)
    case StartupSeen => EndStartWait(s, false)
    case CloseSettles(ok) => EndCloseWait(s, !ok)
    case TimerFires => if s.closePromise.CloseAwaitsStart? then EndStartWait(s, true) else EndCloseWait(s, true)
    case Tick(ms) => s.(now := s.now + ms)
  }

  const NO_STARTS := Starts([], None, NoStart, [], false)
  const INITIAL := State([], false, NO_STARTS, NoClose, false, 0, 0, [])

  /** Steps that are not enabled do not happen. */
  function Run(s: State, steps: seq<Step>): State
    decreases |steps|
  {
    if steps == [] then s else Run(if Enabled(s, steps[0]) then Next(s, steps[0]) else s, steps[1..])
  }

  // ----- what a trace must look like -----

  function StartsOf(trace: seq<Event>): seq<nat> {
    if trace == [] then []
    else
      var e := trace[|trace| - 1];
      if e.Started? then StartsOf(trace[..|trace| - 1]) + [e.index] else StartsOf(trace[..|trace| - 1])
  }

  function ClosesOf(trace: seq<Event>): seq<nat> {
    if trace == [] then []
    else
      var e := trace[|trace| - 1];
      if e.Closed? then ClosesOf(trace[..|trace| - 1]) + [e.index] else ClosesOf(trace[..|trace| - 1])
  }

  /** The owned resources below n that have a start, in registration order. */
  function StartOrder(registered: seq<Resource>, n: nat): seq<nat>
    requires n <= |registered|
  {
    if n == 0 then []
    else
      var r := registered[n - 1];
      if r.owned && r.hasStart then StartOrder(registered, n - 1) + [n - 1] else StartOrder(registered, n - 1)
  }

  /** The owned resources below n, in reverse registration order. */
  function CloseOrder(registered: seq<Resource>, n: nat): seq<nat>
    requires n <= |registered|
  {
    if n == 0 then []
    else if registered[n - 1].owned then [n - 1] + CloseOrder(registered, n - 1)
    else CloseOrder(registered, n - 1)
  }

  /** No start is invoked once closing was asked for. */
  ghost predicate NoLateStart(trace: seq<Event>) {
    forall i, j | 0 <= i < j < |trace| && trace[i] == CloseAsked :: !trace[j].Started?
  }

  lemma TraceStep(trace: seq<Event>, e: Event)
    ensures StartsOf(trace + [e]) == if e.Started? then StartsOf(trace) + [e.index] else StartsOf(trace)
    ensures ClosesOf(trace + [e]) == if e.Closed? then ClosesOf(trace) + [e.index] else ClosesOf(trace)
    ensures NoLateStart(trace) && (CloseAsked in trace ==> !e.Started?) ==> NoLateStart(trace + [e])
  {
    assert (trace + [e])[..|trace|] == trace;
  }

  /** Resources that are not owned add nothing. */
  lemma {:induction false} StartOrderSkips(registered: seq<Resource>, n: nat, m: nat)
    requires n <= m <= |registered| && forall k | n <= k < m :: !registered[k].owned
    ensures StartOrder(registered, n) == StartOrder(registered, m)
  {
    if n == m {
    } else {
      StartOrderSkips(registered, n, m - 1);
    }
  }

  // ----- the invariant -----

  /** The first owned resource, and it has a start. */
  ghost predicate FirstStart(registered: seq<Resource>, i: nat) {
    && i < |registered| && registered[i].owned && registered[i].hasStart
    && forall k | 0 <= k < i :: !registered[k].owned
  }

  /** The loops, where nobody has called start inside a first stretch: there is at most one. */
  ghost predicate StartSide(s: State) {
    var st := s.starts;
    if st.reentered then Repeated(StartsOf(s.trace))
    else if st.stretch != [] then |st.stretch| == 1 && st.loops == [] && StartsOf(s.trace) == [st.stretch[0]]
    else
      |st.loops| <= 1 &&
      (if st.loops == [] then StartsOf(s.trace) == []
       else
         match st.loops[0]
         case StartingAt(i) =>
           i < |s.registered| && s.registered[i].owned && StartsOf(s.trace) == StartOrder(s.registered, i + 1)
         case StartDone(ok) =>
           if ok then StartsOf(s.trace) == StartOrder(s.registered, |s.registered|)
           else exists n :: 0 <= n <= |s.registered| && StartsOf(s.trace) == StartOrder(s.registered, n))
  }

  ghost predicate Repeated(starts: seq<nat>) {
    exists i, j :: 0 <= i < j < |starts| && starts[i] == starts[j]
  }

  ghost predicate CloseSide(s: State) {
    var all := CloseOrder(s.registered, |s.registered|);
    match s.closePromise
    case NoClose => ClosesOf(s.trace) == []
    case CloseAwaitsStart(_, d) => ClosesOf(s.trace) == [] && d == s.askedAt + CLOSE_TIMEOUT_MS && s.now <= d
    case ClosingAt(j, d) =>
      && j < |s.registered| && ClosesOf(s.trace) + CloseOrder(s.registered, j) == all
      && s.now <= d <= s.askedAt + CLOSE_TIMEOUT_MS * (|ClosesOf(s.trace)| + 1)
    case CloseDone(at) =>
      ClosesOf(s.trace) == all && at <= s.now && at <= s.askedAt + CLOSE_TIMEOUT_MS * (|all| + 1)
  }

  ghost predicate Linked(s: State) {
    var st := s.starts;
    && (s.closingRequested <==> CloseAsked in s.trace)
    && (s.closingRequested <==> !s.closePromise.NoClose?)
    && (st.work.None? <==> st.loops == []) && (st.work.Some? ==> st.work.value < |st.loops|)
    && (st.promise.NoStart? <==> st.loops == [])
    && (st.promise.StartPending? ==> st.promise.loop < |st.loops|)
    && (st.promise.StartAwaitsClose? ==> !s.closePromise.NoClose?)
    && (st.stretch != [] ==> st.promise.NoStart? || st.promise.StartPending?)
    && (s.closePromise.CloseAwaitsStart? ==> s.closePromise.loop < |st.loops|)
    && (forall k | 0 <= k < |st.stretch| :: FirstStart(s.registered, st.stretch[k]))
    && (!st.reentered && st.promise.StartAwaitsClose? ==> |st.loops| == 1 && st.loops[0] == StartDone(false))
    && s.askedAt <= s.now
  }

  ghost predicate Inv(s: State) {
    StartSide(s) && CloseSide(s) && Linked(s) && NoLateStart(s.trace)
  }

  lemma RepeatedGrows(starts: seq<nat>, i: nat)
    requires Repeated(starts)
    ensures Repeated(starts + [i])
  {
    var a, b :| 0 <= a < b < |starts| && starts[a] == starts[b];
    assert (starts + [i])[a] == (starts + [i])[b];
  }

  lemma {:induction false} AdvanceCloseKeeps(s: State, k: nat)
    requires k <= |s.registered|
    requires ClosesOf(s.trace) + CloseOrder(s.registered, k) == CloseOrder(s.registered, |s.registered|)
    requires s.askedAt <= s.now <= s.askedAt + CLOSE_TIMEOUT_MS * (|ClosesOf(s.trace)| + 1)
    requires NoLateStart(s.trace) && CloseAsked in s.trace
    ensures var s' := AdvanceClose(s, k);
            && s' == s.(closePromise := s'.closePromise, trace := s'.trace)
            && (s'.closePromise.ClosingAt? || s'.closePromise.CloseDone?)
            && CloseSide(s') && NoLateStart(s'.trace) && CloseAsked in s'.trace
            && StartsOf(s'.trace) == StartsOf(s.trace)
  {
    hide ClosesOf, StartsOf, NoLateStart;
    if k == 0 {
      assert ClosesOf(s.trace) + [] == ClosesOf(s.trace);
    } else if !s.registered[k - 1].owned {
      AdvanceCloseKeeps(s, k - 1);
    } else {
      TraceStep(s.trace, Closed(k - 1));
      assert ClosesOf(s.trace) + ([k - 1] + CloseOrder(s.registered, k - 1))
          == ClosesOf(s.trace) + [k - 1] + CloseOrder(s.registered, k - 1);
    }
  }

  lemma {:induction false} OrdersExtend(registered: seq<Resource>, r: Resource, n: nat)
    requires n <= |registered|
    ensures StartOrder(registered + [r], n) == StartOrder(registered, n)
    ensures CloseOrder(registered + [r], n) == CloseOrder(registered, n)
  {
    if n == 0 {
    } else {
      OrdersExtend(registered, r, n - 1);
    }
  }

  lemma RegisterKeeps(s: State, r: Resource)
    requires Inv(s)
    ensures Inv(Register(s, r).0)
  {
    OrdersExtend(s.registered, r, |s.registered|);
    hide StartsOf, ClosesOf, NoLateStart;
  }

  /** The state in which the body of the first close runs. */
  function Asked(s: State): State {
    s.(closingRequested := true, trace := s.trace + [CloseAsked], askedAt := s.now, firstError := false)
  }

  lemma AskedKeeps(s: State)
    requires Inv(s) && s.closePromise.NoClose?
    ensures var s1 := Asked(s);
            && StartSide(s1) && ClosesOf(s1.trace) == [] && NoLateStart(s1.trace) && CloseAsked in s1.trace
            && StartsOf(s1.trace) == StartsOf(s.trace)
    ensures Close(s) == if s.starts.work.None? then AdvanceClose(Asked(s), |s.registered|)
                        else Asked(s).(closePromise := CloseAwaitsStart(s.starts.work.value, s.now + CLOSE_TIMEOUT_MS))
  {
    hide ClosesOf, StartsOf, NoLateStart, StartOrder, CloseOrder, Repeated;
    TraceStep(s.trace, CloseAsked);
    assert CloseAsked == Asked(s).trace[|s.trace|];
  }

  lemma CloseKeeps(s: State)
    requires Inv(s)
    ensures Inv(Close(s)) && !Close(s).closePromise.NoClose? && Close(s).starts == s.starts
  {
    if s.closePromise.NoClose? {
      AskedKeeps(s);
      hide Close, ClosesOf, StartsOf, CloseOrder, StartOrder, AdvanceClose, NoLateStart;
      if s.starts.work.None? {
        assert [] + CloseOrder(s.registered, |s.registered|) == CloseOrder(s.registered, |s.registered|);
        AdvanceCloseKeeps(Asked(s), |s.registered|);
      }
    }
  }

  /** The resource that is started next comes right after those started so far. */
  lemma NextStarted(registered: seq<Resource>, i: nat)
    requires i <= |registered|
    ensures var j := FirstOwned(registered, i);
            if j == |registered| then StartOrder(registered, j) == StartOrder(registered, i)
            else StartOrder(registered, j + 1) ==
                 if registered[j].hasStart then StartOrder(registered, i) + [j] else StartOrder(registered, i)
  {
    StartOrderSkips(registered, i, FirstOwned(registered, i));
  }

  /** The part of the invariant that does not look at the starts. */
  lemma OtherSides(s: State, starts: Starts, trace: seq<Event>)
    requires CloseSide(s) && NoLateStart(s.trace)
    requires ClosesOf(trace) == ClosesOf(s.trace) && NoLateStart(trace)
    ensures CloseSide(s.(starts := starts, trace := trace))
  {
    hide ClosesOf, CloseOrder, NoLateStart;
  }

  lemma FirstOwnedIsFirst(registered: seq<Resource>, i: nat)
    requires FirstStart(registered, i)
    ensures FirstOwned(registered, 0) == i
  {
  }

  /** The state after the first stretch has called the start of resource j. */
  function Called(s: State, j: nat): State {
    s.(trace := s.trace + [Started(j)],
       starts := s.starts.(stretch := s.starts.stretch + [j],
                           reentered := s.starts.reentered || s.starts.stretch != []))
  }

  lemma CalledStartSide(s: State, j: nat)
    requires StartSide(s) && Linked(s) && s.starts.work.None? && FirstStart(s.registered, j)
    ensures StartSide(Called(s, j))
  {
    hide StartsOf, ClosesOf, Repeated, StartOrder, NoLateStart, FirstStart;
    TraceStep(s.trace, Started(j));
    if s.starts.stretch != [] {
      SecondStart(s, j);
    } else if s.starts.reentered {
      RepeatedGrows(StartsOf(s.trace), j);
    } else {
      assert StartsOf(s.trace) == [] && [] + [j] == [j];
    }
  }

  lemma CalledLinked(s: State, j: nat)
    requires Linked(s) && s.starts.work.None? && FirstStart(s.registered, j)
    ensures Linked(Called(s, j))
  {
    hide FirstStart;
  }

  lemma BeginWithStart(s: State, j: nat)
    requires Inv(s) && s.closePromise.NoClose? && s.starts.work.None? && FirstStart(s.registered, j)
    ensures Inv(Called(s, j))
  {
    TraceStep(s.trace, Started(j));
    CalledStartSide(s, j);
    CalledLinked(s, j);
    assert CloseAsked !in s.trace;
    hide StartSide, ClosesOf, NoLateStart;
    OtherSides(s, Called(s, j).starts, s.trace + [Started(j)]);
    hide Linked, CloseSide;
  }

  lemma RememberKeeps(s: State, loop: Loop)
    requires Inv(s) && s.starts.loops == [] && s.starts.stretch == [] && s.closePromise.NoClose?
    requires loop == StartDone(true) ==> StartOrder(s.registered, |s.registered|) == []
    requires loop.StartingAt? ==>
               loop.index < |s.registered| && s.registered[loop.index].owned
               && StartOrder(s.registered, loop.index + 1) == []
    ensures Inv(Remember(s, loop))
  {
    OtherSides(s, Remember(s, loop).starts, s.trace);
    assert loop == StartDone(false) ==> StartOrder(s.registered, 0) == [];
    hide ClosesOf, NoLateStart, StartsOf, StartOrder, CloseSide, Repeated;
  }

  lemma BeginKeeps(s: State)
    requires Inv(s) && s.closePromise.NoClose? && s.starts.work.None?
    ensures Inv(BeginStart(s))
  {
    var j := FirstOwned(s.registered, 0);
    NextStarted(s.registered, 0);
    assert Linked(s);
    if j < |s.registered| && s.registered[j].hasStart {
      hide Inv;
      BeginWithStart(s, j);
    } else {
      NoStretch(s);
      hide CloseSide, StartSide, NoLateStart, StartOrder;
      RememberKeeps(s, if j == |s.registered| then StartDone(true) else StartingAt(j));
    }
  }

  /** A stretch means that the first owned resource has a start. */
  lemma NoStretch(s: State)
    requires Linked(s)
    requires var j := FirstOwned(s.registered, 0); j == |s.registered| || !s.registered[j].hasStart
    ensures s.starts.stretch == []
  {
    if s.starts.stretch != [] {
      FirstOwnedIsFirst(s.registered, s.starts.stretch[0]);
    }
  }

  /** A start call inside the first stretch starts the same resource again. */
  lemma SecondStart(s: State, j: nat)
    requires StartSide(s) && Linked(s) && s.starts.stretch != [] && FirstStart(s.registered, j)
    ensures Repeated(StartsOf(s.trace) + [j])
  {
    if s.starts.reentered {
      RepeatedGrows(StartsOf(s.trace), j);
    } else {
      var starts := StartsOf(s.trace) + [j];
      FirstOwnedIsFirst(s.registered, j);
      FirstOwnedIsFirst(s.registered, s.starts.stretch[0]);
      assert starts[0] == starts[1];
    }
  }

  lemma StartKeeps(s: State)
    requires Inv(s)
    ensures Inv(Start(s))
  {
    hide Inv, BeginStart;
    if s.closePromise.NoClose? && s.starts.work.None? {
      BeginKeeps(s);
    }
  }

  lemma ReturnKeeps(s: State, threw: bool)
    requires Inv(s) && s.starts.stretch != []
    ensures Inv(ReturnFromStart(s, threw))
  {
    hide ClosesOf, NoLateStart, StartsOf;
    if !s.starts.reentered {
      var i := s.starts.stretch[0];
      StartOrderSkips(s.registered, 0, i);
      assert StartOrder(s.registered, i + 1) == [i];
    }
  }

  lemma AdvanceStartSide(s: State, k: nat)
    requires StartSide(s) && InLoop(s, k) && s.starts.stretch == []
    ensures StartSide(AdvanceStart(s, k, s.starts.loops[k].index + 1))
  {
    hide ClosesOf, NoLateStart, StartsOf, StartOrder, Repeated;
    var i := s.starts.loops[k].index + 1;
    var j := FirstOwned(s.registered, i);
    NextStarted(s.registered, i);
    if j < |s.registered| {
      TraceStep(s.trace, Started(j));
      if s.starts.reentered {
        RepeatedGrows(StartsOf(s.trace), j);
      }
    }
  }

  lemma AdvanceLinked(s: State, k: nat)
    requires Linked(s) && InLoop(s, k) && s.starts.stretch == [] && !s.closingRequested
    ensures Linked(AdvanceStart(s, k, s.starts.loops[k].index + 1))
  {
  }

  /** Going on touches only the starts and, before closing was asked for, the trace. */
  lemma AdvanceStartFrame(s: State, k: nat, i: nat)
    requires k < |s.starts.loops| && i <= |s.registered| && NoLateStart(s.trace) && CloseAsked !in s.trace
    ensures var s' := AdvanceStart(s, k, i);
            && s' == s.(starts := s'.starts, trace := s'.trace)
            && ClosesOf(s'.trace) == ClosesOf(s.trace) && NoLateStart(s'.trace)
  {
    hide ClosesOf, NoLateStart, FirstOwned;
    var j := FirstOwned(s.registered, i);
    if j < |s.registered| {
      TraceStep(s.trace, Started(j));
    }
  }

  lemma AdvanceStartKeeps(s: State, k: nat)
    requires Inv(s) && InLoop(s, k) && s.starts.stretch == [] && !s.closingRequested
    ensures Inv(AdvanceStart(s, k, s.starts.loops[k].index + 1))
  {
    var i := s.starts.loops[k].index + 1;
    var s' := AdvanceStart(s, k, i);
    AdvanceStartSide(s, k);
    AdvanceLinked(s, k);
    assert CloseAsked !in s.trace;
    hide StartSide, ClosesOf, NoLateStart, Linked, CloseSide, AdvanceStart, InLoop;
    AdvanceStartFrame(s, k, i);
    OtherSides(s, s'.starts, s'.trace);
  }

  lemma ResumeKeeps(s: State, k: nat, ok: bool)
    requires Inv(s) && InLoop(s, k) && s.starts.stretch == []
    ensures Inv(ResumeStart(s, k, ok))
  {
    if ok && !s.closingRequested {
      hide Inv, AdvanceStart;
      AdvanceStartKeeps(s, k);
    } else {
      hide ClosesOf, NoLateStart, StartsOf, StartOrder, Repeated;
    }
  }

  lemma PromiseKeeps(s: State, promise: StartPromise)
    requires Inv(s) && s.starts.loops != [] && s.starts.stretch == []
    requires promise.StartSettled? || (promise.StartAwaitsClose? && !s.closePromise.NoClose?)
    requires promise.StartAwaitsClose? && !s.starts.reentered ==> s.starts.loops[0] == StartDone(false)
    ensures Inv(s.(starts := s.starts.(promise := promise)))
  {
    OtherSides(s, s.starts.(promise := promise), s.trace);
    hide ClosesOf, NoLateStart, StartsOf, StartOrder, Repeated, CloseSide, FirstStart;
  }

  lemma SettleKeeps(s: State)
    requires Inv(s) && Enabled(s, StartReacts)
    ensures Inv(SettleStart(s))
  {
    assert Linked(s) && (!s.starts.reentered ==> |s.starts.loops| == 1);
    hide Inv, Close;
    if s.starts.loops[s.starts.promise.loop].ok {
      PromiseKeeps(s, StartSettled(true));
    } else {
      CloseKeeps(s);
      PromiseKeeps(Close(s), StartAwaitsClose);
    }
  }

  lemma EndWaitKeeps(s: State, k: nat, error: bool)
    requires Inv(s) && k <= |s.registered|
    requires k == if s.closePromise.ClosingAt? then s.closePromise.index else |s.registered|
    requires Deadline(s).Some?
    ensures Inv(AdvanceClose(s.(firstError := error), k))
  {
    assert [] + CloseOrder(s.registered, |s.registered|) == CloseOrder(s.registered, |s.registered|);
    AdvanceCloseKeeps(s.(firstError := error), k);
    hide ClosesOf, NoLateStart, StartsOf, StartOrder, CloseOrder, Repeated, AdvanceClose;
  }

  lemma NextKeeps(s: State, step: Step)
    requires Inv(s) && Enabled(s, step)
    ensures Inv(Next(s, step))
  {
    hide Register, Start, Close, ReturnFromStart, ResumeStart, SettleStart, AdvanceClose, StartsOf, ClosesOf, Repeated;
    match step {
      case CallRegister(r) => hide Inv; RegisterKeeps(s, r);
      case CallStart => hide Inv; StartKeeps(s);
      case CallClose => hide Inv; CloseKeeps(s);
      case StartReturns(threw) => hide Inv; ReturnKeeps(s, threw);
      case StartSettles(k, ok) => hide Inv; ResumeKeeps(s, k, ok);
      case StartReacts => hide Inv; SettleKeeps(s);
      case StartupSeen => EndWaitKeeps(s, |s.registered|, s.firstError);
      case CloseSettles(ok) => EndWaitKeeps(s, s.closePromise.index, s.firstError || !ok);
      case TimerFires =>
        EndWaitKeeps(s, if s.closePromise.ClosingAt? then s.closePromise.index else |s.registered|, true);
      case _ =>
    }
  }

  lemma {:induction false} RunKeeps(s: State, steps: seq<Step>)
    requires Inv(s)
    ensures Inv(Run(s, steps))
    decreases |steps|
  {
    hide Inv, Next;
    if steps == [] {
    } else {
      if Enabled(s, steps[0]) {
        NextKeeps(s, steps[0]);
      }
      RunKeeps(if Enabled(s, steps[0]) then Next(s, steps[0]) else s, steps[1..]);
    }
  }

  // ----- what holds over every interleaving -----

  lemma {:induction false} StartOrderGrows(registered: seq<Resource>, n: nat, m: nat)
    requires n <= m <= |registered|
    ensures StartOrder(registered, n) <= StartOrder(registered, m)
  {
    if n == m {
    } else {
      StartOrderGrows(registered, n, m - 1);
    }
  }

  lemma {:induction false} StartOrderAscends(registered: seq<Resource>, n: nat)
    requires n <= |registered|
    ensures forall a, b | 0 <= a < b < |StartOrder(registered, n)| ::
              StartOrder(registered, n)[a] < StartOrder(registered, n)[b]
    ensures forall a | 0 <= a < |StartOrder(registered, n)| :: StartOrder(registered, n)[a] < n
  {
    if n == 0 {
    } else {
      StartOrderAscends(registered, n - 1);
    }
  }

  /** Owned resources are started in registration order, each at most once. */
  ghost predicate StartsInOrder(s: State) {
    StartsOf(s.trace) <= StartOrder(s.registered, |s.registered|)
  }

  lemma CalmStarts(s: State)
    requires Inv(s) && !s.starts.reentered
    ensures StartsInOrder(s)
  {
    hide NoLateStart, ClosesOf, CloseOrder;
    var n := |s.registered|;
    var st := s.starts;
    if st.stretch != [] {
      StartOrderSkips(s.registered, 0, st.stretch[0]);
      assert StartOrder(s.registered, st.stretch[0] + 1) == [st.stretch[0]];
      StartOrderGrows(s.registered, st.stretch[0] + 1, n);
    } else if st.loops != [] {
      var m :| 0 <= m <= n && StartsOf(s.trace) == StartOrder(s.registered, m);
      StartOrderGrows(s.registered, m, n);
    }
  }

  lemma PrefixRepeats(starts: seq<nat>, order: seq<nat>)
    requires Repeated(starts) && starts <= order
    ensures Repeated(order)
  {
    var a, b :| 0 <= a < b < |starts| && starts[a] == starts[b];
    assert order[a] == order[b];
  }

  lemma RepeatedIsNotInOrder(s: State)
    requires Repeated(StartsOf(s.trace))
    ensures !StartsInOrder(s)
  {
    StartOrderAscends(s.registered, |s.registered|);
    assert !Repeated(StartOrder(s.registered, |s.registered|));
    if StartsInOrder(s) {
      PrefixRepeats(StartsOf(s.trace), StartOrder(s.registered, |s.registered|));
    }
  }

  /**
   * Over every interleaving: none starts after closing was asked for; closes run in reverse order of registration,
   * and when closing is done every owned resource was closed exactly once, whatever started. Owned resources start
   * at most once and in registration order exactly in the runs in which no start calls the owner's start before
   * its own first await. Borrowed resources appear in neither list.
   */
  lemma LifecycleOrder(steps: seq<Step>)
    ensures var s := Run(INITIAL, steps);
            && (StartsInOrder(s) <==> !s.starts.reentered)
            && NoLateStart(s.trace)
            && ClosesOf(s.trace) <= CloseOrder(s.registered, |s.registered|)
            && (s.closePromise.CloseDone? ==> ClosesOf(s.trace) == CloseOrder(s.registered, |s.registered|))
            && (!s.starts.reentered && s.starts.loops == [StartDone(true)] ==>
                  StartsOf(s.trace) == StartOrder(s.registered, |s.registered|))
  {
    RunKeeps(INITIAL, steps);
    hide Run;
    var s := Run(INITIAL, steps);
    if s.starts.reentered {
      RepeatedIsNotInOrder(s);
    } else {
      CalmStarts(s);
    }
  }

  /** The three steps: register the resource, start, and start again inside its start. */
  lemma ReentrantSteps(r: Resource, s1: State)
    requires r.owned && r.hasStart && s1 == INITIAL.(registered := [r])
    ensures Register(INITIAL, r).0 == s1
    ensures Start(s1).starts == NO_STARTS.(stretch := [0]) && Start(Start(s1)).trace == [Started(0), Started(0)]
  {
    var none, one := NO_STARTS, NO_STARTS.(stretch := [0]);
    assert FirstOwned([r], 0) == 0;
    hide FirstOwned;
    assert [] + [r] == [r] && none.stretch + [0] == one.stretch && [] + [Started(0)] == [Started(0)];
    assert Start(s1) == s1.(trace := [Started(0)], starts := one);
    assert [Started(0)] + [Started(0)] == [Started(0), Started(0)];
  }

  lemma TwoStarts(i: nat)
    ensures StartsOf([Started(i), Started(i)]) == [i, i]
  {
    TraceStep([], Started(i));
    TraceStep([Started(i)], Started(i));
    assert [Started(i)] + [Started(i)] == [Started(i), Started(i)] && [] + [Started(i)] == [Started(i)];
  }

  lemma RunThree(s: State, a: Step, b: Step, c: Step)
    requires Enabled(s, a) && Enabled(Next(s, a), b) && Enabled(Next(Next(s, a), b), c)
    ensures Run(s, [a, b, c]) == Next(Next(Next(s, a), b), c)
  {
    hide Next, Enabled;
    RunTwo(s, a, b, [c]);
    assert [a, b] + [c] == [a, b, c];
    assert Run(Next(Next(s, a), b), [c]) == Run(Next(Next(Next(s, a), b), c), [c][1..]);
  }

  /** Such a run: the start of the only resource calls the owner's start, and runs twice. */
  lemma ReentrantStartRunsTwice()
    ensures StartsOf(Run(INITIAL, [CallRegister(Resource("r", true, true)), CallStart, CallStart]).trace) == [0, 0]
  {
    hide Start, Register, StartsOf, Run;
    var r := Resource("r", true, true);
    ReentrantSteps(r, INITIAL.(registered := [r]));
    RunThree(INITIAL, CallRegister(r), CallStart, CallStart);
    TwoStarts(0);
  }

  lemma {:induction false} OrdersAreSets(registered: seq<Resource>, n: nat, i: nat)
    requires n <= |registered|
    ensures i in CloseOrder(registered, n) <==> i < n && registered[i].owned
    ensures i in StartOrder(registered, n) <==> i < n && registered[i].owned && registered[i].hasStart
    ensures forall a, b | 0 <= a < b < |CloseOrder(registered, n)| ::
              CloseOrder(registered, n)[a] > CloseOrder(registered, n)[b]
    ensures forall a | 0 <= a < |CloseOrder(registered, n)| :: CloseOrder(registered, n)[a] < n
  {
    if n == 0 {
    } else {
      OrdersAreSets(registered, n - 1, i);
    }
  }

  /** Closing settles at most 5000 ms * (owned + 1) after it was asked for. */
  lemma CloseInTime(steps: seq<Step>)
    ensures var s := Run(INITIAL, steps);
            var limit := s.askedAt + 5000 * (|CloseOrder(s.registered, |s.registered|)| + 1);
            && (s.closePromise.CloseDone? ==> s.closePromise.at <= limit)
            && (Deadline(s).Some? ==> s.now <= Deadline(s).value <= limit)
  {
    RunKeeps(INITIAL, steps);
    hide Run;
    var s := Run(INITIAL, steps);
    if s.closePromise.ClosingAt? {
      var j := s.closePromise.index;
      assert |ClosesOf(s.trace)| + |CloseOrder(s.registered, j)| == |CloseOrder(s.registered, |s.registered|)|;
    }
  }

  /** How many waits closing still has ahead of it. */
  function WaitsLeft(s: State): nat {
    match s.closePromise
    case NoClose => 0
    case CloseAwaitsStart(_, _) => |s.registered| + 1
    case ClosingAt(j, _) => if j < |s.registered| then j + 1 else 0
    case CloseDone(_) => 0
  }

  lemma {:induction false} AdvanceCloseProgress(s: State, k: nat)
    requires k <= |s.registered|
    ensures var s' := AdvanceClose(s, k);
            && WaitsLeft(s') <= k && s'.registered == s.registered && s'.starts == s.starts
            && (s'.closePromise.CloseDone? || s'.closePromise.ClosingAt?)
  {
    if k > 0 && !s.registered[k - 1].owned {
      AdvanceCloseProgress(s, k - 1);
    }
  }

  /** Wait until the timer and let it fire. */
  function Wait(s: State): Step
    requires Inv(s) && Deadline(s).Some?
  {
    Tick(Deadline(s).value - s.now)
  }

  function AfterTimer(s: State): State
    requires Inv(s) && Deadline(s).Some? && s.starts.stretch == []
  {
    Next(Next(s, Wait(s)), TimerFires)
  }

  lemma TimerProgress(s: State)
    requires Inv(s) && Deadline(s).Some? && s.starts.stretch == []
    ensures Inv(AfterTimer(s)) && AfterTimer(s).starts == s.starts && WaitsLeft(AfterTimer(s)) < WaitsLeft(s)
    ensures !AfterTimer(s).closePromise.NoClose?
  {
    NextKeeps(s, Wait(s));
    var s1 := Next(s, Wait(s));
    NextKeeps(s1, TimerFires);
    AdvanceCloseProgress(s1.(firstError := true),
                         if s.closePromise.ClosingAt? then s.closePromise.index else |s.registered|);
    hide Inv, AdvanceClose;
  }

  /** The steps of time alone: wait until the next timer, let it fire, and so on. */
  function Timers(s: State): seq<Step>
    requires Inv(s) && s.starts.stretch == []
    decreases WaitsLeft(s)
  {
    if Deadline(s).None? then []
    else
      TimerProgress(s);
      [Wait(s), TimerFires] + Timers(AfterTimer(s))
  }

  /** Whatever starts and closes hang, timers alone finish a close that was asked for. */
  lemma {:induction false} TimersFinish(s: State)
    requires Inv(s) && s.starts.stretch == []
    ensures var s' := Run(s, Timers(s));
            s'.starts == s.starts && (!s.closePromise.NoClose? ==> s'.closePromise.CloseDone?)
    decreases WaitsLeft(s)
  {
    if Deadline(s).Some? {
      TimerProgress(s);
      var s2 := AfterTimer(s);
      TimersFinish(s2);
      RunTwo(s, Wait(s), TimerFires, Timers(s2));
    }
  }

  lemma RunTwo(s: State, a: Step, b: Step, rest: seq<Step>)
    requires Enabled(s, a) && Enabled(Next(s, a), b)
    ensures Run(s, [a, b] + rest) == Run(Next(Next(s, a), b), rest)
  {
    hide Next, Enabled;
    var steps := [a, b] + rest;
    assert steps[0] == a && steps[1..][0] == b && steps[1..][1..] == rest;
    assert Run(s, steps) == Run(Next(s, a), steps[1..]);
  }

  lemma WaitIsOver(s: State)
    requires Inv(s) && s.starts.promise.StartAwaitsClose?
    ensures s.starts.stretch == [] && !s.closePromise.NoClose?
    ensures !s.starts.reentered && s.closePromise.CloseAwaitsStart? ==> Enabled(s, StartupSeen)
  {
    hide StartSide, CloseSide, NoLateStart, FirstStart;
  }

  lemma TimersRelease(s: State)
    requires Inv(s) && s.starts.promise.StartAwaitsClose?
    ensures exists timers :: Run(s, timers).starts.promise.StartAwaitsClose? && Enabled(Run(s, timers), StartRejects)
  {
    WaitIsOver(s);
    hide Run, Inv;
    TimersFinish(s);
    assert Enabled(Run(s, Timers(s)), StartRejects);
  }

  /**
   * Start and close never wait on each other: while closing waits for startup, no start waits for closing unless
   * startup is already over (where no start was called inside another); and a start that waits for closing is
   * always released, by time alone.
   */
  lemma NoWaitCycle(steps: seq<Step>)
    ensures var s := Run(INITIAL, steps);
            && (!s.starts.reentered && s.closePromise.CloseAwaitsStart? && s.starts.promise.StartAwaitsClose? ==>
                  Enabled(s, StartupSeen))
            && (s.starts.promise.StartAwaitsClose? ==>
                  exists timers ::
                    Run(s, timers).starts.promise.StartAwaitsClose? && Enabled(Run(s, timers), StartRejects))
  {
    RunKeeps(INITIAL, steps);
    hide Run, Inv;
    var s := Run(INITIAL, steps);
    if s.starts.promise.StartAwaitsClose? {
      WaitIsOver(s);
      TimersRelease(s);
    }
  }
}
