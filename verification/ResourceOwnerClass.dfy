/** The owner as an object: each method is one synchronous stretch of its code between awaits. */
module ResourceOwnerClass {
  import opened Wrappers
  import opened ResourceOwner

  class BackendResourceOwner {
    var registered: seq<Resource>
    var closingRequested: bool
    var starts: Starts  // the running start loops, with startWork and startPromise
    var closePromise: ClosePromise
    var firstError: bool
    var now: nat
    ghost var askedAt: nat
    ghost var trace: seq<Event>

    constructor ()
      ensures Abs() == INITIAL && Inv(Abs())
    {
      registered, closingRequested, starts, closePromise := [], false, NO_STARTS, NoClose;
      firstError, now, askedAt, trace := false, 0, 0, [];
    }

    ghost function Abs(): State
      reads this
    {
      State(registered, closingRequested, starts, closePromise, firstError, now, askedAt, trace)
    }

    /** Refused once start or close was called, and then nothing changes. */
    method RegisterResource(r: Resource) returns (ok: bool)
      requires Inv(Abs())
      modifies this`registered
      ensures (Abs(), ok) == Register(old(Abs()), r) && Inv(Abs())
      ensures ok <==> old(starts.promise.NoStart? && closePromise.NoClose?)
      ensures registered == if ok then old(registered) + [r] else old(registered)
    {
      RegisterKeeps(Abs(), r);
      if !starts.promise.NoStart? || !closePromise.NoClose? {
        return false;
      }
      registered := registered + [r];
      return true;
    }

    /** Loop k from resource `index` to its next await. */
    method RunStartLoop(k: nat, index: nat)
      requires index <= |registered| && k < |starts.loops|
      modifies this`starts, this`trace
      ensures Abs() == AdvanceStart(old(Abs()), k, index)
    {
      for i := index to |registered|
        invariant Abs() == old(Abs()) && FirstOwned(registered, index) == FirstOwned(registered, i)
      {
        if registered[i].owned {
          starts := starts.(loops := starts.loops[k := StartingAt(i)]);
          if registered[i].hasStart {
            trace := trace + [Started(i)];
          }
          return;
        }
      }
      starts := starts.(loops := starts.loops[k := StartDone(true)]);
    }

    method RememberLoop(loop: Loop)
      modifies this`starts
      ensures Abs() == Remember(old(Abs()), loop)
    {
      var id := |starts.loops|;
      starts := starts.(loops := starts.loops + [loop], work := Some(id));
      if starts.promise.NoStart? {
        starts := starts.(promise := StartPending(id));
      }
    }

    /** Rejected after close, shared while a start is remembered; otherwise the first stretch of a new loop. */
    method StartAll()
      requires Inv(Abs())
      modifies this`starts, this`trace
      ensures Abs() == Start(old(Abs())) && Inv(Abs())
      ensures !old(closePromise).NoClose? || old(starts).work.Some? ==> starts == old(starts) && trace == old(trace)
      ensures trace != old(trace) ==>
                trace == old(trace) + [Started(FirstOwned(registered, 0))] && !closingRequested
    {
      StartKeeps(Abs());
      if !closePromise.NoClose? || starts.work.Some? {
        return;
      }
      assert !closingRequested;  // so the loop's own checks pass until its first await
      for i := 0 to |registered|
        invariant Abs() == old(Abs()) && FirstOwned(registered, 0) == FirstOwned(registered, i)
      {
        if registered[i].owned {
          if registered[i].hasStart {
            trace := trace + [Started(i)];
            starts := starts.(stretch := starts.stretch + [i], reentered := starts.reentered || starts.stretch != []);
          } else {
            RememberLoop(StartingAt(i));
          }
          return;
        }
      }
      RememberLoop(StartDone(true));
    }

    /** The resource's start returns its promise, or throws, and the loop that called it is remembered. */
    method OnStartReturned(threw: bool)
      requires Inv(Abs()) && Enabled(Abs(), StartReturns(threw))
      modifies this`starts
      ensures Abs() == ReturnFromStart(old(Abs()), threw) && Inv(Abs())
      ensures starts.work.Some? && !starts.promise.NoStart?
    {
      ReturnKeeps(Abs(), threw);
      var n := |starts.stretch| - 1;
      var i := starts.stretch[n];
      starts := starts.(stretch := starts.stretch[..n]);
      RememberLoop(if threw then StartDone(false) else StartingAt(i));
    }

    /** The close loop over the resources below `count`, last first, to its next await. */
    method RunCloseLoop(count: nat)
      requires count <= |registered|
      modifies this`closePromise, this`trace
      ensures Abs() == AdvanceClose(old(Abs()), count)
    {
      var k := count;
      while k > 0
        invariant 0 <= k <= count && Abs() == old(Abs()) && AdvanceClose(Abs(), count) == AdvanceClose(Abs(), k)
      {
        if registered[k - 1].owned {
          closePromise := ClosingAt(k - 1, now + CLOSE_TIMEOUT_MS);
          trace := trace + [Closed(k - 1)];
          return;
        }
        k := k - 1;
      }
      closePromise := CloseDone(now);
    }

    /** Asks once; a second call finds the close promise and changes nothing. */
    method CloseAll()
      requires Inv(Abs())
      modifies this`closingRequested, this`closePromise, this`firstError, this`askedAt, this`trace
      ensures Abs() == Close(old(Abs())) && Inv(Abs())
      ensures closingRequested && !closePromise.NoClose?
      ensures !old(closePromise).NoClose? ==> closePromise == old(closePromise) && trace == old(trace)
    {
      CloseKeeps(Abs());
      if !closingRequested {
        trace := trace + [CloseAsked];
      }
      closingRequested := true;
      if !closePromise.NoClose? {
        return;
      }
      askedAt, firstError := now, false;
      if starts.work.Some? {
        closePromise := CloseAwaitsStart(starts.work.value, now + CLOSE_TIMEOUT_MS);
      } else {
        RunCloseLoop(|registered|);
      }
    }

    /** An awaited start settles: nothing more is started after a failure or once close was asked for. */
    method OnStartSettled(k: nat, ok: bool)
      requires Inv(Abs()) && Enabled(Abs(), StartSettles(k, ok))
      modifies this`starts, this`trace
      ensures Abs() == ResumeStart(old(Abs()), k, ok) && Inv(Abs())
      ensures !ok || closingRequested ==> trace == old(trace) && LoopOver(Abs(), k)
    {
      ResumeKeeps(Abs(), k, ok);
      if !ok || closingRequested {
        starts := starts.(loops := starts.loops[k := StartDone(false)]);
      } else {
        RunStartLoop(k, starts.loops[k].index + 1);
      }
    }

    /** The loop of the start promise is over: a failure closes everything before the caller hears of it. */
    method OnStartWorkOver()
      requires Inv(Abs()) && Enabled(Abs(), StartReacts)
      modifies this
      ensures Abs() == SettleStart(old(Abs())) && Inv(Abs())
      ensures old(starts.loops[starts.promise.loop].ok) ==>
                starts == old(starts).(promise := StartSettled(true)) && trace == old(trace)
      ensures !old(starts.loops[starts.promise.loop].ok) ==>
                starts == old(starts).(promise := StartAwaitsClose) && closingRequested && CloseAsked in trace
    {
      SettleKeeps(Abs());
      if starts.loops[starts.promise.loop].ok {
        starts := starts.(promise := StartSettled(true));
      } else {
        CloseAll();
        starts := starts.(promise := StartAwaitsClose);
      }
    }

    /** The close loop's wait for startup or for one close is over, and the next owned resource below is closed. */
    method OnCloseWaitOver(failed: bool)
      requires Inv(Abs()) && Deadline(Abs()).Some?
      modifies this`firstError, this`closePromise, this`trace
      ensures Abs() == if old(closePromise).ClosingAt? then EndCloseWait(old(Abs()), failed)
                       else EndStartWait(old(Abs()), failed)
      ensures Inv(Abs()) && (closePromise.ClosingAt? || closePromise.CloseDone?)
      ensures firstError == (old(firstError) || failed)
      ensures old(closePromise).ClosingAt? && closePromise.ClosingAt? ==> closePromise.index < old(closePromise).index
    {
      var count := if closePromise.ClosingAt? then closePromise.index else |registered|;
      EndWaitKeeps(Abs(), count, firstError || failed);
      firstError := firstError || failed;
      AdvanceCloseGoesDown(Abs(), count);
      RunCloseLoop(count);
    }
  }

  lemma {:induction false} AdvanceCloseGoesDown(s: State, k: nat)
    requires k <= |s.registered|
    ensures var s' := AdvanceClose(s, k);
            && s'.firstError == s.firstError
            && (s'.closePromise.CloseDone? || (s'.closePromise.ClosingAt? && s'.closePromise.index < k))
  {
    if k == 0 {
    } else if !s.registered[k - 1].owned {
      AdvanceCloseGoesDown(s, k - 1);
    }
  }
}
