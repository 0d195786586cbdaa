/** The fixed-window limiter of authenticated control requests, which counts one request against one or two buckets. */
module ControlLimiter {

  // ----- one bucket, explained by the times it admitted -----

  /** A window in the limiter's map. */
  datatype Window = Window(startedAtMs: int, count: int)

  predicate Running(w: Window, now: int, windowMs: int) {
    now - w.startedAtMs < windowMs
  }

  function Last(log: seq<int>): int
    requires log != []
  {
    log[|log| - 1]
  }

  function Front(log: seq<int>): seq<int>
    requires log != []
  {
    log[..|log| - 1]
  }

  /** The window in which the last admitted request was counted, found by replaying all of them. */
  function Current(log: seq<int>, windowMs: int): Window
    requires log != []
  {
    if |log| == 1 then Window(log[0], 1)
    else
      var w := Current(Front(log), windowMs);
      if Running(w, Last(log), windowMs) then Window(w.startedAtMs, w.count + 1) else Window(Last(log), 1)
  }

  /** The rule the limiter stands for: the window running at `now` has reached its maximum. */
  predicate Full(log: seq<int>, now: int, windowMs: int, max: int) {
    log != [] && Running(Current(log, windowMs), now, windowMs) && Current(log, windowMs).count >= max
  }

  /** Every request in the log came no earlier than the one before and was let in by the rule. */
  predicate Granted(log: seq<int>, windowMs: int, max: int) {
    log != [] ==>
      && Granted(Front(log), windowMs, max)
      && !Full(Front(log), Last(log), windowMs, max)
      && (|log| > 1 ==> Last(Front(log)) <= Last(log))
  }

  /** A window always takes at least its first request, whatever the configured maximum. */
  function Cap(max: int): int {
    if max < 1 then 1 else max
  }

  lemma {:induction false} GrantedPrefix(log: seq<int>, windowMs: int, max: int, n: nat)
    requires Granted(log, windowMs, max) && n <= |log|
    ensures Granted(log[..n], windowMs, max)
    decreases |log|
  {
    if n < |log| {
      GrantedPrefix(Front(log), windowMs, max, n);
      assert Front(log)[..n] == log[..n];
    } else {
      assert log[..n] == log;
    }
  }

  lemma {:induction false} GrantedOrdered(log: seq<int>, windowMs: int, max: int, i: nat)
    requires Granted(log, windowMs, max) && i < |log|
    ensures log[i] <= Last(log)
    decreases |log|
  {
    if i < |log| - 1 {
      GrantedOrdered(Front(log), windowMs, max, i);
    }
  }

  /** The current window counts the last `count` requests, at most the cap, and opened with the first of them. */
  lemma {:induction false} CurrentCounts(log: seq<int>, windowMs: int, max: int)
    requires log != [] && Granted(log, windowMs, max)
    ensures var w := Current(log, windowMs);
            1 <= w.count <= Cap(max) && w.count <= |log| && log[|log| - w.count] == w.startedAtMs
  {
    if |log| > 1 {
      CurrentCounts(Front(log), windowMs, max);
    }
  }

  // ----- the windows of a log, found from its beginning -----

  /** The request that opened the last window: from the one at `open`, always the next that is a window behind it. */
  function LastOpening(log: seq<int>, windowMs: int, open: nat, k: nat): (m: nat)
    requires open < k <= |log|
    ensures open <= m < |log|
    decreases |log| - k
  {
    if k == |log| then open
    else LastOpening(log, windowMs, if log[k] - log[open] >= windowMs then k else open, k + 1)
  }

  /** The window a request at `now` would count in has taken its maximum. */
  ghost predicate Exhausted(log: seq<int>, now: int, windowMs: int, max: int) {
    log != [] &&
    var m := LastOpening(log, windowMs, 0, 1);
    now - log[m] < windowMs && |log| - m >= max
  }

  /** The whole seconds until the last window of the log has run out. */
  ghost predicate RunsOutIn(log: seq<int>, now: int, windowMs: int, seconds: int) {
    log != [] &&
    var left := log[LastOpening(log, windowMs, 0, 1)] + windowMs - now;
    (seconds - 1) * 1000 < left <= seconds * 1000
  }

  lemma {:induction false} OneRequestMore(log: seq<int>, windowMs: int, open: nat, k: nat)
    requires open < k < |log|
    ensures var m := LastOpening(Front(log), windowMs, open, k);
            LastOpening(log, windowMs, open, k) == if Last(log) - log[m] >= windowMs then |log| - 1 else m
    decreases |log| - k
  {
    if k < |log| - 1 {
      OneRequestMore(log, windowMs, if log[k] - log[open] >= windowMs then k else open, k + 1);
    }
  }

  /** Replaying the requests finds the same window as going through them once. */
  lemma {:induction false} CurrentExact(log: seq<int>, windowMs: int)
    requires log != []
    ensures var m := LastOpening(log, windowMs, 0, 1); Current(log, windowMs) == Window(log[m], |log| - m)
    decreases |log|
  {
    if |log| > 1 {
      CurrentExact(Front(log), windowMs);
      OneRequestMore(log, windowMs, 0, 1);
      hide LastOpening;
    }
  }

  lemma FullExact(log: seq<int>, now: int, windowMs: int, max: int)
    ensures Full(log, now, windowMs, max) <==> Exhausted(log, now, windowMs, max)
    ensures Full(log, now, windowMs, max) ==>
              RunsOutIn(log, now, windowMs, RetryAfterSec(Current(log, windowMs), now, windowMs))
  {
    if log != [] {
      CurrentExact(log, windowMs);
      CeilDivBounds(Current(log, windowMs).startedAtMs + windowMs - now, 1000);
      hide Current, LastOpening, CeilDiv;
    }
  }

  /** Consecutive windows open at least one length apart. */
  lemma {:induction false} WindowsApart(log: seq<int>, windowMs: int, max: int)
    requires log != [] && Granted(log, windowMs, max) && Current(log, windowMs).count < |log|
    ensures Current(log, windowMs).count >= 1
    ensures var w := Current(log, windowMs);
            w.startedAtMs - Current(log[..|log| - w.count], windowMs).startedAtMs >= windowMs
    decreases |log|
  {
    CurrentCounts(log, windowMs, max);
    var front := Front(log);
    if Running(Current(front, windowMs), Last(log), windowMs) {
      WindowsApart(front, windowMs, max);
      var n := |front| - Current(front, windowMs).count;
      assert front[..n] == log[..n];
    }
  }

  /** The last request lies within the current window. */
  lemma LastWithin(log: seq<int>, windowMs: int)
    requires log != [] && windowMs > 0
    ensures Running(Current(log, windowMs), Last(log), windowMs)
  {
    hide Front;
  }

  /** A later window opens strictly after the last request of the one before it. */
  lemma {:induction false} OpensLater(log: seq<int>, windowMs: int, max: int)
    requires windowMs > 0 && log != [] && Granted(log, windowMs, max) && Current(log, windowMs).count < |log|
    ensures var m := |log| - Current(log, windowMs).count; 0 < m < |log| && log[m - 1] < log[m]
    decreases |log|
  {
    CurrentCounts(log, windowMs, max);
    var front := Front(log);
    if Running(Current(front, windowMs), Last(log), windowMs) {
      OpensLater(front, windowMs, max);
    } else {
      LastWithin(front, windowMs);
    }
  }

  /**
   * Any closed interval of a window's length holds at most two windows' worth of admitted requests. (A length
   * of zero or less would open a new window for every request.)
   */
  lemma TwiceTheMaximum(log: seq<int>, windowMs: int, max: int, i: nat, j: nat)
    requires windowMs > 0 && Granted(log, windowMs, max) && i < j <= |log|
    requires log[j - 1] - log[i] <= windowMs
    ensures j - i <= 2 * Cap(max)
  {
    hide Granted, Current, Cap;
    var upto := log[..j];
    GrantedPrefix(log, windowMs, max, j);
    CurrentCounts(upto, windowMs, max);
    var n := j - Current(upto, windowMs).count;
    if i < n {
      WindowsApart(upto, windowMs, max);
      GrantedOrdered(upto, windowMs, max, n);
      var before := upto[..n];
      GrantedPrefix(upto, windowMs, max, n);
      CurrentCounts(before, windowMs, max);
      var m := n - Current(before, windowMs).count;
      if i < m {
        OpensLater(before, windowMs, max);
        GrantedOrderedBetween(before, windowMs, max, i, m - 1);
      }
    }
  }

  lemma GrantedOrderedBetween(log: seq<int>, windowMs: int, max: int, i: nat, m: nat)
    requires Granted(log, windowMs, max) && i < |log| && m < |log|
    ensures i <= m ==> log[i] <= log[m]
  {
    if i <= m {
      GrantedPrefix(log, windowMs, max, m + 1);
      GrantedOrdered(log[..m + 1], windowMs, max, i);
    }
  }

  /**
   * With no further requests the bucket is no longer full after the advertised wait, and full until the last second
   * of it.
   */
  lemma RetrySuffices(log: seq<int>, now: int, later: int, windowMs: int, max: int)
    requires Full(log, now, windowMs, max)
    ensures later >= now + 1000 * RetryAfterSec(Current(log, windowMs), now, windowMs) ==>
              !Full(log, later, windowMs, max)
    ensures later <= now + 1000 * (RetryAfterSec(Current(log, windowMs), now, windowMs) - 1) ==>
              Full(log, later, windowMs, max)
  {
    hide Current;
    CeilDivBounds(Current(log, windowMs).startedAtMs + windowMs - now, 1000);
  }

  lemma CeilDivBounds(a: int, b: int)
    requires b > 0
    ensures b * (CeilDiv(a, b) - 1) < a <= b * CeilDiv(a, b)
  {
    var n := a + b - 1;
    assert n == b * (n / b) + n % b;
  }

  // ----- the map of windows -----

  datatype Key = Actor(actorId: int) | Session(actorId: int, sessionId: string)

  function Keys(actorId: int, sessionId: string): seq<Key> {
    if sessionId == "" then [Actor(actorId)] else [Actor(actorId), Session(actorId, sessionId)]
  }

  function CeilDiv(a: int, b: int): int
    requires b > 0
  {
    (a + b - 1) / b
  }

  function RetryAfterSec(w: Window, now: int, windowMs: int): int {
    var s := CeilDiv(w.startedAtMs + windowMs - now, 1000);
    if s < 1 then 1 else s
  }

  predicate Live(m: map<Key, Window>, key: Key, now: int, windowMs: int) {
    key in m && Running(m[key], now, windowMs)
  }

  function Counted(m: map<Key, Window>, key: Key, now: int, windowMs: int): map<Key, Window> {
    if Live(m, key, now, windowMs) then m[key := Window(m[key].startedAtMs, m[key].count + 1)]
    else m[key := Window(now, 1)]
  }

  function At(logs: map<Key, seq<int>>, key: Key): seq<int> {
    if key in logs then logs[key] else []
  }

  function Logged(logs: map<Key, seq<int>>, key: Key, now: int): map<Key, seq<int>> {
    logs[key := At(logs, key) + [now]]
  }

  /** A stored window is the current one; a missing window was never opened or has run out. */
  predicate Explains(log: seq<int>, m: map<Key, Window>, key: Key, now: int, windowMs: int) {
    if key in m then log != [] && m[key] == Current(log, windowMs)
    else log != [] ==> !Running(Current(log, windowMs), now, windowMs)
  }

  predicate Sane(log: seq<int>, now: int, windowMs: int, max: int) {
    Granted(log, windowMs, max) && (log != [] ==> Last(log) <= now)
  }

  datatype Limits = Limits(windowMs: int, actorMax: int, sessionMax: int) {
    function For(key: Key): int {
      if key.Actor? then actorMax else sessionMax
    }
  }

  /** The map of windows says no more and no less than the logs, as far as the present and the future are concerned. */
  ghost predicate Sound(m: map<Key, Window>, logs: map<Key, seq<int>>, now: int, limits: Limits) {
    forall key: Key ::
      Explains(At(logs, key), m, key, now, limits.windowMs)
      && Sane(At(logs, key), now, limits.windowMs, limits.For(key))
  }

  lemma SoundLater(m: map<Key, Window>, logs: map<Key, seq<int>>, now: int, later: int, limits: Limits)
    requires Sound(m, logs, now, limits) && now <= later
    ensures Sound(m, logs, later, limits)
  {
    hide Granted, Current, At;
  }

  lemma BlockedExact(m: map<Key, Window>, logs: map<Key, seq<int>>, now: int, limits: Limits, key: Key)
    requires Sound(m, logs, now, limits)
    ensures Live(m, key, now, limits.windowMs) && m[key].count >= limits.For(key)
            <==> Full(At(logs, key), now, limits.windowMs, limits.For(key))
    ensures key in m ==> At(logs, key) != [] && m[key] == Current(At(logs, key), limits.windowMs)
  {
    hide Granted, Current, At;
  }

  lemma LogGrows(log: seq<int>, m: map<Key, Window>, key: Key, now: int, windowMs: int, max: int)
    requires Explains(log, m, key, now, windowMs) && Sane(log, now, windowMs, max) && !Full(log, now, windowMs, max)
    ensures Explains(log + [now], Counted(m, key, now, windowMs), key, now, windowMs)
            && Sane(log + [now], now, windowMs, max)
  {
    assert Front(log + [now]) == log;
    CurrentGrows(log, now, windowMs);
  }

  lemma CurrentGrows(log: seq<int>, now: int, windowMs: int)
    ensures Current(log + [now], windowMs) ==
            if log != [] && Running(Current(log, windowMs), now, windowMs)
              then Window(Current(log, windowMs).startedAtMs, Current(log, windowMs).count + 1) else Window(now, 1)
  {
    assert Front(log + [now]) == log;
  }

  lemma CountKeepsSound(m: map<Key, Window>, logs: map<Key, seq<int>>, now: int, limits: Limits, key: Key)
    requires Sound(m, logs, now, limits) && !Full(At(logs, key), now, limits.windowMs, limits.For(key))
    ensures Sound(Counted(m, key, now, limits.windowMs), Logged(logs, key, now), now, limits)
  {
    hide Granted, Current, Full;
    var m', logs' := Counted(m, key, now, limits.windowMs), Logged(logs, key, now);
    LogGrows(At(logs, key), m, key, now, limits.windowMs, limits.For(key));
    forall k: Key
      ensures Explains(At(logs', k), m', k, now, limits.windowMs)
              && Sane(At(logs', k), now, limits.windowMs, limits.For(k))
    {
      assert k != key ==> At(logs', k) == At(logs, k);
    }
  }

  lemma DropKeepsSound(m: map<Key, Window>, logs: map<Key, seq<int>>, now: int, limits: Limits, key: Key)
    requires Sound(m, logs, now, limits) && !Live(m, key, now, limits.windowMs)
    ensures Sound(m - {key}, logs, now, limits)
  {
    hide Granted, Current, Sane, At;
  }

  // ----- the limiter -----

  datatype Verdict = Allowed | Denied(retryAfterSec: int)

  function LoggedAll(logs: map<Key, seq<int>>, keys: seq<Key>, now: int): map<Key, seq<int>> {
    if keys == [] then logs else Logged(LoggedAll(logs, keys[..|keys| - 1], now), keys[|keys| - 1], now)
  }

  /** The requests on record for a bucket. */
  ghost function LogAt(logs: map<Key, seq<int>>, key: Key): seq<int> {
    if key in logs then logs[key] else []
  }

  /** The actor's bucket is full. */
  ghost predicate ActorFull(logs: map<Key, seq<int>>, actorId: int, now: int, limits: Limits) {
    Exhausted(LogAt(logs, Actor(actorId)), now, limits.windowMs, limits.actorMax)
  }

  /** The request names a session, and its bucket is full. */
  ghost predicate SessionFull(logs: map<Key, seq<int>>, actorId: int, sessionId: string, now: int, limits: Limits) {
    sessionId != "" && Exhausted(LogAt(logs, Session(actorId, sessionId)), now, limits.windowMs, limits.sessionMax)
  }

  /** One request more of the actor and, if there is one, of the session, and of nothing else. */
  ghost predicate RecordedFor(before: map<Key, seq<int>>, after: map<Key, seq<int>>, actorId: int, sessionId: string,
                              now: int) {
    forall key: Key ::
      LogAt(after, key) == LogAt(before, key) +
        if key == Actor(actorId) || (sessionId != "" && key == Session(actorId, sessionId)) then [now] else []
  }

  lemma KeysExact(actorId: int, sessionId: string)
    ensures Keys(actorId, sessionId) ==
            if sessionId == "" then [Actor(actorId)] else [Actor(actorId), Session(actorId, sessionId)]
  {
  }

  lemma DeniedExact(logs: map<Key, seq<int>>, actorId: int, sessionId: string, now: int, limits: Limits, i: nat)
    requires var keys := Keys(actorId, sessionId);
             && i < |keys| && Full(At(logs, keys[i]), now, limits.windowMs, limits.For(keys[i]))
             && forall j | 0 <= j < i :: !Full(At(logs, keys[j]), now, limits.windowMs, limits.For(keys[j]))
    ensures ActorFull(logs, actorId, now, limits) || SessionFull(logs, actorId, sessionId, now, limits)
    ensures var key := if ActorFull(logs, actorId, now, limits) then Actor(actorId) else Session(actorId, sessionId);
            RunsOutIn(LogAt(logs, key), now, limits.windowMs,
                      RetryAfterSec(Current(At(logs, Keys(actorId, sessionId)[i]), limits.windowMs),
                                    now, limits.windowMs))
  {
    KeysExact(actorId, sessionId);
    FullExact(At(logs, Actor(actorId)), now, limits.windowMs, limits.actorMax);
    FullExact(At(logs, Session(actorId, sessionId)), now, limits.windowMs, limits.sessionMax);
    var actor, session := Actor(actorId), Session(actorId, sessionId);
    assert At(logs, actor) == LogAt(logs, actor) && At(logs, session) == LogAt(logs, session);
    assert limits.For(actor) == limits.actorMax && limits.For(session) == limits.sessionMax;
    var keys := Keys(actorId, sessionId);
    assert keys[0] == actor && (i == 1 ==> sessionId != "" && keys[1] == session);
    hide Full, Current, Exhausted, RunsOutIn, RetryAfterSec, At, LogAt, Keys;
    if i == 0 {
      assert ActorFull(logs, actorId, now, limits);
    } else {
      assert !Full(At(logs, keys[0]), now, limits.windowMs, limits.For(keys[0]));
      assert !ActorFull(logs, actorId, now, limits) && keys[i] == session;
    }
  }

  lemma AllowedExact(logs: map<Key, seq<int>>, actorId: int, sessionId: string, now: int, limits: Limits)
    requires var keys := Keys(actorId, sessionId);
             forall j | 0 <= j < |keys| :: !Full(At(logs, keys[j]), now, limits.windowMs, limits.For(keys[j]))
    ensures !ActorFull(logs, actorId, now, limits) && !SessionFull(logs, actorId, sessionId, now, limits)
    ensures RecordedFor(logs, LoggedAll(logs, Keys(actorId, sessionId), now), actorId, sessionId, now)
  {
    RecordsAll(logs, actorId, sessionId, now);
    hide RecordedFor, LoggedAll;
    var keys := Keys(actorId, sessionId);
    assert keys[0] == Actor(actorId) && (sessionId != "" ==> keys[1] == Session(actorId, sessionId));
    FullExact(At(logs, Actor(actorId)), now, limits.windowMs, limits.actorMax);
    FullExact(At(logs, Session(actorId, sessionId)), now, limits.windowMs, limits.sessionMax);
    hide Full, Current, Exhausted, Keys;
  }

  lemma RecordsAll(logs: map<Key, seq<int>>, actorId: int, sessionId: string, now: int)
    ensures RecordedFor(logs, LoggedAll(logs, Keys(actorId, sessionId), now), actorId, sessionId, now)
  {
    var keys := Keys(actorId, sessionId);
    assert keys[..|keys| - 1] == if |keys| == 1 then [] else [keys[0]];
    assert LoggedAll(logs, [keys[0]], now) == Logged(logs, keys[0], now) by {
      assert [keys[0]][..0] == [];
    }
  }

  class DirectControlPrincipalLimiter {
    const limits: Limits
    var windows: map<Key, Window>
    ghost var admitted: map<Key, seq<int>>  // every request counted so far, per bucket
    ghost var last: int                     // the latest reading of the clock

    constructor (limits: Limits, ghost now: int)
      ensures Valid() && admitted == map[] && last == now && this.limits == limits
    {
      this.limits, windows := limits, map[];
      admitted, last := map[], now;
    }

    ghost predicate Valid()
      reads this
    {
      Sound(windows, admitted, last, limits)
    }

    /**
     * The answer depends on the admitted requests alone, so a purge never shows. A request is let in when none
     * of its buckets is full, and is then counted in all of them; otherwise it is counted in none.
     */
    method Check(actorId: int, sessionId: string, now: int) returns (r: Verdict)
      requires Valid() && now >= last
      modifies this
      ensures Valid() && last == now
      ensures r == Allowed <==>
                && !ActorFull(old(admitted), actorId, now, limits)
                && !SessionFull(old(admitted), actorId, sessionId, now, limits)
      ensures if r == Allowed then RecordedFor(old(admitted), admitted, actorId, sessionId, now)
              else admitted == old(admitted) && windows == old(windows)
      ensures r.Denied? ==>
                var key := if ActorFull(admitted, actorId, now, limits) then Actor(actorId)
                           else Session(actorId, sessionId);
                RunsOutIn(LogAt(admitted, key), now, limits.windowMs, r.retryAfterSec)
    {
      var keys := Keys(actorId, sessionId);
      assert Distinct(keys);
      hide Sound, Current, Full, Counted, Logged, LoggedAll, At, LogAt, ActorFull, SessionFull, RunsOutIn;
      hide RecordedFor, Keys;
      SoundLater(windows, admitted, last, now, limits);
      last := now;
      for i := 0 to |keys|
        invariant windows == old(windows) && admitted == old(admitted) && last == now
        invariant forall j | 0 <= j < i :: !Full(At(admitted, keys[j]), now, limits.windowMs, limits.For(keys[j]))
      {
        BlockedExact(windows, admitted, now, limits, keys[i]);
        if Live(windows, keys[i], now, limits.windowMs) && windows[keys[i]].count >= limits.For(keys[i]) {
          DeniedExact(admitted, actorId, sessionId, now, limits, i);
          return Denied(RetryAfterSec(windows[keys[i]], now, limits.windowMs));
        }
      }
      AllowedExact(admitted, actorId, sessionId, now, limits);
      CountAll(keys, now);
      if |windows| > 10000 {
        Purge(now);
      }
      return Allowed;
    }

    /** At any moment, no closed interval of a window's length holds more than twice a bucket's maximum. */
    lemma NeverOverTwice(key: Key, i: nat, j: nat)
      requires Valid() && limits.windowMs > 0 && key in admitted && i < j <= |admitted[key]|
      requires admitted[key][j - 1] - admitted[key][i] <= limits.windowMs
      ensures var max := if key.Actor? then limits.actorMax else limits.sessionMax;
              j - i <= 2 * (if max < 1 then 1 else max)
    {
      hide Granted, Explains;
      assert At(admitted, key) == admitted[key];
      TwiceTheMaximum(admitted[key], limits.windowMs, limits.For(key), i, j);
    }

    method CountAll(keys: seq<Key>, now: int)
      requires Valid() && last == now && Distinct(keys)
      requires forall j | 0 <= j < |keys| :: !Full(At(admitted, keys[j]), now, limits.windowMs, limits.For(keys[j]))
      modifies this`windows, this`admitted
      ensures Valid() && admitted == LoggedAll(old(admitted), keys, now)
    {
      hide Sound, Current, Full, Counted, Logged, At;
      for i := 0 to |keys|
        invariant Valid() && admitted == LoggedAll(old(admitted), keys[..i], now)
        invariant forall j | i <= j < |keys| :: !Full(At(admitted, keys[j]), now, limits.windowMs, limits.For(keys[j]))
      {
        CountKeepsSound(windows, admitted, now, limits, keys[i]);
        OthersKept(admitted, keys, i, now);
        windows := Counted(windows, keys[i], now, limits.windowMs);
        admitted := Logged(admitted, keys[i], now);
        assert keys[..i + 1][..i] == keys[..i];
      }
      assert keys[..|keys|] == keys;
    }

    /** Forgets the windows that have run out. */
    method Purge(now: int)
      requires Valid() && last == now
      modifies this`windows
      ensures Valid()
      ensures forall key :: key in windows <==> Live(old(windows), key, now, limits.windowMs)
    {
      hide Sound;
      var todo := windows.Keys;
      while todo != {}
        invariant Valid() && todo <= windows.Keys
        invariant forall key | key in windows :: key in old(windows) && windows[key] == old(windows)[key]
        invariant forall key | key in old(windows) :: key in windows || !Live(old(windows), key, now, limits.windowMs)
        invariant forall key | key in windows && key !in todo :: Live(windows, key, now, limits.windowMs)
        decreases todo
      {
        var key :| key in todo;
        todo := todo - {key};
        if !Live(windows, key, now, limits.windowMs) {
          DropKeepsSound(windows, admitted, now, limits, key);
          windows := windows - {key};
        }
      }
    }
  }

  predicate Distinct(keys: seq<Key>) {
    forall i, j | 0 <= i < j < |keys| :: keys[i] != keys[j]
  }

  lemma OthersKept(logs: map<Key, seq<int>>, keys: seq<Key>, i: nat, now: int)
    requires i < |keys| && Distinct(keys)
    ensures forall j | i < j < |keys| :: At(Logged(logs, keys[i], now), keys[j]) == At(logs, keys[j])
  {
  }
}
