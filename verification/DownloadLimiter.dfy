/** The sliding-log download limiter: buckets are pruned, but its answers depend on the full history only. */
module DownloadLimiter {
  import opened Wrappers

  // ----- logs of timestamps -----

  /** The hits after a cutoff. */
  function Live(ts: seq<int>, cutoff: int): seq<int> {
    if ts == [] then []
    else if ts[0] > cutoff then [ts[0]] + Live(ts[1..], cutoff)
    else Live(ts[1..], cutoff)
  }

  predicate Ordered(ts: seq<int>) {
    forall i, j | 0 <= i < j < |ts| :: ts[i] <= ts[j]
  }

  /** Any hit and the one `max` places before it are a whole window apart. */
  predicate Spaced(ts: seq<int>, max: nat, window: int) {
    forall i | max <= i < |ts| :: ts[i] - ts[i - max] >= window
  }

  lemma {:induction false} LiveAppend(a: seq<int>, b: seq<int>, cutoff: int)
    ensures Live(a + b, cutoff) == Live(a, cutoff) + Live(b, cutoff)
  {
    if a == [] {
      assert a + b == b;
    } else {
      assert (a + b)[1..] == a[1..] + b;
      LiveAppend(a[1..], b, cutoff);
    }
  }

  /** Pruning at an earlier cutoff does not change what a later one sees. */
  lemma {:induction false} LiveTwice(ts: seq<int>, early: int, late: int)
    requires early <= late
    ensures Live(Live(ts, early), late) == Live(ts, late)
  {
    if ts == [] {
    } else {
      LiveTwice(ts[1..], early, late);
      if ts[0] > early {
        assert Live(ts, early)[1..] == Live(ts[1..], early);
      }
    }
  }

  lemma {:induction false} AllLive(ts: seq<int>, cutoff: int)
    requires forall i | 0 <= i < |ts| :: ts[i] > cutoff
    ensures Live(ts, cutoff) == ts
  {
    if ts == [] {
    } else {
      AllLive(ts[1..], cutoff);
      assert [ts[0]] + ts[1..] == ts;
    }
  }

  /** The first live hit of an ordered log: everything before it is stale, everything from it on is live. */
  predicate Splits(ts: seq<int>, cutoff: int, k: nat) {
    k <= |ts| && (forall i | 0 <= i < k :: ts[i] <= cutoff) && (forall i | k <= i < |ts| :: ts[i] > cutoff)
  }

  /** In an ordered log the live hits are the last ones. */
  lemma {:induction false} LiveIsSuffix(ts: seq<int>, cutoff: int) returns (k: nat)
    requires Ordered(ts)
    ensures Splits(ts, cutoff, k) && Live(ts, cutoff) == ts[k..]
  {
    if ts == [] {
      k := 0;
    } else if ts[0] > cutoff {
      k := 0;
      AllLive(ts, cutoff);
    } else {
      var rest := ts[1..];
      assert forall i | 0 <= i < |rest| :: rest[i] == ts[i + 1];
      var j := LiveIsSuffix(rest, cutoff);
      k := j + 1;
      SplitsTail(ts, cutoff, k);
    }
  }

  lemma SplitsTail(ts: seq<int>, cutoff: int, k: nat)
    requires ts != [] && k >= 1 && ts[0] <= cutoff && Splits(ts[1..], cutoff, k - 1)
    ensures Splits(ts, cutoff, k) && ts[k..] == ts[1..][k - 1..]
  {
    assert forall i | 1 <= i < |ts| :: ts[i] == ts[1..][i - 1];
  }

  /** No log entry is later than `now`. */
  predicate Past(ts: seq<int>, now: int) {
    forall i | 0 <= i < |ts| :: ts[i] <= now
  }

  /** How far the hit at `i` lies behind the one `max` places before it. */
  function Gap(ts: seq<int>, max: nat, i: int): int {
    if max <= i < |ts| then ts[i] - ts[i - max] else 0
  }

  lemma SpacedGap(ts: seq<int>, max: nat, window: int, i: nat)
    requires Spaced(ts, max, window)
    ensures max <= i < |ts| ==> Gap(ts, max, i) >= window
  {
  }

  /** A spaced log holds at most `max` hits in any interval of one window's length, wherever the interval lies. */
  lemma {:induction false} IntervalBound(ts: seq<int>, max: nat, window: int, from: int, i: nat, j: nat)
    requires Spaced(ts, max, window) && i <= j <= |ts|
    requires forall k | i <= k < j :: from < ts[k] <= from + window
    ensures j - i <= max
  {
    SpacedGap(ts, max, window, i + max);
  }

  /** In particular the window that ends now is never over-full. */
  lemma WindowBound(ts: seq<int>, max: nat, window: int, now: int)
    requires Ordered(ts) && Spaced(ts, max, window) && Past(ts, now)
    ensures |Live(ts, now - window)| <= max
  {
    var k := LiveIsSuffix(ts, now - window);
    IntervalBound(ts, max, window, now - window, k, |ts|);
  }

  lemma AdmitKeepsSpacing(ts: seq<int>, max: nat, window: int, now: int)
    requires Ordered(ts) && Spaced(ts, max, window) && Past(ts, now) && |Live(ts, now - window)| < max
    ensures Ordered(ts + [now]) && Spaced(ts + [now], max, window) && Past(ts + [now], now)
  {
    var k := LiveIsSuffix(ts, now - window);
  }

  // ----- buckets -----

  function At(m: map<string, seq<int>>, key: string): seq<int> {
    if key in m then m[key] else []
  }

  function LiveBucket(m: map<string, seq<int>>, key: string, cutoff: int): map<string, seq<int>> {
    m[key := Live(At(m, key), cutoff)]
  }

  /** The pruned buckets agree with the full logs on everything after the cutoff. */
  ghost predicate Agrees(buckets: map<string, seq<int>>, logs: map<string, seq<int>>, cutoff: int) {
    forall key, late | late >= cutoff :: Live(At(buckets, key), late) == Live(At(logs, key), late)
  }

  /** Full logs are ordered, spaced, and not in the future. */
  ghost predicate ValidLogs(logs: map<string, seq<int>>, max: nat, window: int, now: int) {
    forall key | key in logs :: Ordered(logs[key]) && Spaced(logs[key], max, window) && Past(logs[key], now)
  }

  /** Buckets and logs as they stand at clock reading `now`. */
  ghost predicate Sound(buckets: map<string, seq<int>>, logs: map<string, seq<int>>, max: nat, window: int, now: int) {
    Agrees(buckets, logs, now - window) && ValidLogs(logs, max, window, now)
  }

  lemma PastLater(ts: seq<int>, now: int, later: int)
    requires Past(ts, now) && now <= later
    ensures Past(ts, later)
  {
  }

  lemma LogsLater(logs: map<string, seq<int>>, max: nat, window: int, now: int, later: int)
    requires ValidLogs(logs, max, window, now) && now <= later
    ensures ValidLogs(logs, max, window, later)
  {
    hide Ordered, Spaced, Past;
    forall key | key in logs ensures Past(logs[key], later) {
      PastLater(logs[key], now, later);
    }
  }

  lemma AgreesAt(buckets: map<string, seq<int>>, logs: map<string, seq<int>>, cutoff: int, key: string, late: int)
    requires Agrees(buckets, logs, cutoff) && late >= cutoff
    ensures Live(At(buckets, key), late) == Live(At(logs, key), late)
  {
  }

  lemma AgreesLater(buckets: map<string, seq<int>>, logs: map<string, seq<int>>, early: int, cutoff: int)
    requires Agrees(buckets, logs, early) && early <= cutoff
    ensures Agrees(buckets, logs, cutoff)
  {
    hide Live, At;
  }

  lemma SoundLater(buckets: map<string, seq<int>>, logs: map<string, seq<int>>, max: nat, window: int, now: int,
                   later: int)
    requires Sound(buckets, logs, max, window, now) && now <= later
    ensures Sound(buckets, logs, max, window, later)
  {
    hide Agrees, ValidLogs;
    AgreesLater(buckets, logs, now - window, later - window);
    LogsLater(logs, max, window, now, later);
  }

  lemma PruneAgrees(buckets: map<string, seq<int>>, logs: map<string, seq<int>>, early: int, key: string, cutoff: int)
    requires early <= cutoff && Agrees(buckets, logs, early)
    ensures Agrees(LiveBucket(buckets, key, cutoff), logs, cutoff)
    ensures At(LiveBucket(buckets, key, cutoff), key) == Live(At(logs, key), cutoff)
  {
    hide Live;
    var pruned := LiveBucket(buckets, key, cutoff);
    forall k, late | late >= cutoff ensures Live(At(pruned, k), late) == Live(At(logs, k), late) {
      AgreesAt(buckets, logs, early, k, late);
      LiveTwice(At(buckets, key), cutoff, late);
      assert At(pruned, k) == if k == key then Live(At(buckets, key), cutoff) else At(buckets, k);
    }
    AgreesAt(buckets, logs, early, key, cutoff);
  }

  function Push(m: map<string, seq<int>>, key: string, now: int): map<string, seq<int>> {
    m[key := At(m, key) + [now]]
  }

  lemma PushAgrees(buckets: map<string, seq<int>>, logs: map<string, seq<int>>, cutoff: int, key: string, now: int)
    requires Agrees(buckets, logs, cutoff)
    ensures Agrees(Push(buckets, key, now), Push(logs, key, now), cutoff)
  {
    hide Live;
    var b, l := Push(buckets, key, now), Push(logs, key, now);
    forall k, late | late >= cutoff ensures Live(At(b, k), late) == Live(At(l, k), late) {
      AgreesAt(buckets, logs, cutoff, k, late);
      LiveAppend(At(buckets, key), [now], late);
      LiveAppend(At(logs, key), [now], late);
      assert At(b, k) == if k == key then At(buckets, key) + [now] else At(buckets, k);
      assert At(l, k) == if k == key then At(logs, key) + [now] else At(logs, k);
    }
  }

  lemma PushValid(logs: map<string, seq<int>>, max: nat, window: int, key: string, now: int)
    requires ValidLogs(logs, max, window, now) && |Live(At(logs, key), now - window)| < max
    ensures ValidLogs(Push(logs, key, now), max, window, now)
  {
    hide Live;
    var before := At(logs, key);
    assert Ordered(before) && Spaced(before, max, window) && Past(before, now);
    hide Ordered, Spaced, Past;
    AdmitKeepsSpacing(before, max, window, now);
    var after := Push(logs, key, now);
    assert forall k | k in after :: k == key || (k in logs && after[k] == logs[k]);
  }

  // ----- the limiter -----

  datatype Verdict = Ok | RateLimited(retryAfterSec: int) | AbuseCeiling | Banned

  function SecondsFor(ms: int): int {
    if ms < 1 then 1 else (ms + 999) / 1000
  }

  /** The rule the limiter stands for: fewer than `max` hits in the window that ends now. */
  predicate Allows(log: seq<int>, max: nat, window: int, now: int) {
    |Live(log, now - window)| < max
  }

  /** Of an ordered log at least `max` hits are later than the cutoff. */
  ghost predicate Full(log: seq<int>, max: nat, cutoff: int) {
    exists k: nat :: Splits(log, cutoff, k) && |log| - k >= max
  }

  /** The time until the first hit after the cutoff has become a window old, in whole seconds, at least one. */
  ghost predicate RetryAt(log: seq<int>, window: int, now: int, seconds: int) {
    exists k: nat ::
      && Splits(log, now - window, k) && k < |log|
      && seconds >= 1 && (seconds - 1) * 1000 < log[k] + window - now <= seconds * 1000
  }

  lemma AllowsExact(log: seq<int>, max: nat, window: int, now: int)
    requires Ordered(log)
    ensures Allows(log, max, window, now) <==> !Full(log, max, now - window)
  {
    var cutoff := now - window;
    var k := LiveIsSuffix(log, cutoff);
    hide Live;
    forall j: nat | Splits(log, cutoff, j) ensures j == k {
      OneSplit(log, cutoff, j, k);
    }
  }

  lemma OneSplit(log: seq<int>, cutoff: int, j: nat, k: nat)
    requires Splits(log, cutoff, j) && Splits(log, cutoff, k)
    ensures j == k
  {
    var a := if j < |log| then log[j] else cutoff;
    var b := if k < |log| then log[k] else cutoff;
  }

  lemma RetryExact(log: seq<int>, max: nat, window: int, now: int)
    requires Ordered(log) && max > 0 && !Allows(log, max, window, now)
    ensures Live(log, now - window) != []
    ensures RetryAt(log, window, now, SecondsFor(Live(log, now - window)[0] + window - now))
  {
    var k := LiveIsSuffix(log, now - window);
    hide Live;
    assert Live(log, now - window)[0] == log[k];
  }

  /** One more hit of this key, and of no other. */
  ghost predicate Recorded(before: map<string, seq<int>>, after: map<string, seq<int>>, key: string, now: int) {
    && key in after && after[key] == (if key in before then before[key] else []) + [now]
    && forall k | k != key :: (k in after <==> k in before) && (k in before ==> after[k] == before[k])
  }

  lemma PushRecords(m: map<string, seq<int>>, key: string, now: int)
    ensures Recorded(m, Push(m, key, now), key, now)
  {
  }

  lemma LogOf(logs: map<string, seq<int>>, max: nat, window: int, now: int, key: string)
    requires ValidLogs(logs, max, window, now)
    ensures Ordered(LogAt(logs, key)) && At(logs, key) == LogAt(logs, key)
  {
  }

  /** The hits on record for a key. */
  ghost function LogAt(logs: map<string, seq<int>>, key: string): seq<int> {
    if key in logs then logs[key] else []
  }

  /** With no further hits the principal is within its limit after the advertised wait, and not a second before. */
  lemma RetrySuffices(log: seq<int>, max: nat, window: int, now: int, later: int)
    requires max > 0 && Ordered(log) && Spaced(log, max, window) && Past(log, now)
    requires !Allows(log, max, window, now)
    ensures Live(log, now - window) != []
    ensures later >= now + 1000 * SecondsFor(Live(log, now - window)[0] + window - now) ==>
              Allows(log, max, window, later)
    ensures now <= later <= now + 1000 * (SecondsFor(Live(log, now - window)[0] + window - now) - 1) ==>
              !Allows(log, max, window, later)
  {
    WindowBound(log, max, window, now);
    var k := LiveIsSuffix(log, now - window);
    var j := LiveIsSuffix(log, later - window);
    assert Live(log, now - window)[0] == log[k];
    assert later >= log[k] + window ==> j > k;
    assert log[k] > now - window;
    assert now <= later < log[k] + window ==> j <= k;
  }

  /** Looking at a bucket when the request is turned away. */
  lemma TurnedAway(buckets: map<string, seq<int>>, logs: map<string, seq<int>>, max: nat, window: int, last: int,
                   key: string, now: int)
    requires Sound(buckets, logs, max, window, last) && last <= now
    ensures Sound(LiveBucket(buckets, key, now - window), logs, max, window, now)
    ensures At(LiveBucket(buckets, key, now - window), key) == Live(At(logs, key), now - window)
  {
    hide Agrees, ValidLogs, Live, LiveBucket;
    PruneAgrees(buckets, logs, last - window, key, now - window);
    LogsLater(logs, max, window, last, now);
  }

  lemma LetThrough(buckets: map<string, seq<int>>, logs: map<string, seq<int>>, max: nat, window: int, key: string,
                   now: int)
    requires Sound(buckets, logs, max, window, now) && Allows(At(logs, key), max, window, now)
    ensures Sound(Push(buckets, key, now), Push(logs, key, now), max, window, now)
  {
    hide Agrees, ValidLogs, Live, Push;
    PushAgrees(buckets, logs, now - window, key, now);
    PushValid(logs, max, window, key, now);
  }

  /** The limiter's rule for one key, in terms of its log. */
  lemma RuleOf(buckets: map<string, seq<int>>, logs: map<string, seq<int>>, max: nat, window: int, key: string,
               now: int)
    requires Sound(buckets, logs, max, window, now) && max > 0
    ensures Allows(At(logs, key), max, window, now) <==> !Full(LogAt(logs, key), max, now - window)
    ensures !Allows(At(logs, key), max, window, now) ==>
              var live := Live(At(logs, key), now - window);
              live != [] && RetryAt(LogAt(logs, key), window, now, SecondsFor(live[0] + window - now))
    ensures Recorded(logs, Push(logs, key, now), key, now)
    ensures Allows(At(logs, key), max, window, now) <==> |Live(At(logs, key), now - window)| < max
  {
    LogOf(logs, max, window, now, key);
    PushRecords(logs, key, now);
    AllowsExact(At(logs, key), max, window, now);
    if !Allows(At(logs, key), max, window, now) {
      RetryExact(At(logs, key), max, window, now);
    }
  }

  class DownloadRateLimiter {
    const autoIpBanEnabled: bool
    const windowMs: nat
    const maxHits: nat
    const maxIpHits: nat
    var principalBuckets: map<string, seq<int>>
    var ipBuckets: map<string, seq<int>>
    var bannedIps: map<string, string -> bool>
    ghost var hits: map<string, seq<int>>    // every ok result, per principal
    ghost var ipHits: map<string, seq<int>>  // every hit counted against an address since its last ban
    ghost var last: int                      // the latest reading of the clock

    constructor (autoIpBanEnabled: bool, windowMs: nat, maxHits: nat, maxIpHits: nat, ghost now: int)
      requires maxHits >= 1 && maxIpHits >= 1
      ensures Valid() && hits == map[] && ipHits == map[] && last == now
      ensures this.autoIpBanEnabled == autoIpBanEnabled && this.windowMs == windowMs
      ensures this.maxHits == maxHits && this.maxIpHits == maxIpHits && bannedIps == map[]
    {
      this.autoIpBanEnabled, this.windowMs, this.maxHits, this.maxIpHits :=
        autoIpBanEnabled, windowMs, maxHits, maxIpHits;
      principalBuckets, ipBuckets, bannedIps := map[], map[], map[];
      hits, ipHits, last := map[], map[], now;
    }

    ghost predicate Valid()
      reads this
    {
      && maxHits >= 1 && maxIpHits >= 1
      && Sound(principalBuckets, hits, maxHits, windowMs, last)
      && Sound(ipBuckets, ipHits, maxIpHits, windowMs, last)
    }

    predicate IsBanned(ip: string)
      reads this
    {
      exists key :: key in bannedIps && bannedIps[key](ip)
    }

    /** Counts one request; `ip` is the normalised client address and `now` the clock reading. */
    method Check(ip: string, principalScope: Option<string>, now: int) returns (r: Verdict)
      requires Valid() && now >= last
      modifies this
      ensures Valid() && bannedIps == old(bannedIps)
      ensures r == Banned <==> exists key :: key in bannedIps && bannedIps[key](ip)
      ensures r == Banned ==> unchanged(this)
      ensures r != Banned ==>
                && last == now
                && (r == AbuseCeiling <==> autoIpBanEnabled && Full(LogAt(old(ipHits), ip), maxIpHits, now - windowMs))
                && (if autoIpBanEnabled && r != AbuseCeiling then Recorded(old(ipHits), ipHits, ip, now)
                    else ipHits == old(ipHits))
      ensures var principal := if principalScope.Some? then principalScope.value else "anonymous:" + ip;
              && (r == Ok ==> Recorded(old(hits), hits, principal, now)) && (r != Ok ==> hits == old(hits))
              && (r == Ok ==> !Full(LogAt(old(hits), principal), maxHits, now - windowMs))
              && (r.RateLimited? ==>
                    && Full(LogAt(old(hits), principal), maxHits, now - windowMs)
                    && RetryAt(LogAt(old(hits), principal), windowMs, now, r.retryAfterSec))
    {
      hide Sound, Live, LiveBucket, Push, Full, RetryAt, Recorded, ValidLogs, Splits, Ordered, Allows;
      var principal := if principalScope.Some? then principalScope.value else "anonymous:" + ip;
      if IsBanned(ip) {
        return Banned;
      }
      SoundLater(ipBuckets, ipHits, maxIpHits, windowMs, last, now);
      SoundLater(principalBuckets, hits, maxHits, windowMs, last, now);
      last := now;
      if autoIpBanEnabled {
        var over := CountAddress(ip, now);
        if over {
          return AbuseCeiling;
        }
      }
      r := CountPrincipal(principal, now);
    }

    /** One hit more against the address, unless its ceiling is reached. */
    method CountAddress(ip: string, now: int) returns (over: bool)
      requires Valid() && last == now
      modifies this`ipBuckets, this`ipHits
      ensures Valid() && (over <==> Full(LogAt(old(ipHits), ip), maxIpHits, now - windowMs))
      ensures if over then ipHits == old(ipHits) else Recorded(old(ipHits), ipHits, ip, now)
    {
      hide Sound, Live, LiveBucket, Push, Full, RetryAt, Recorded, Allows;
      RuleOf(ipBuckets, ipHits, maxIpHits, windowMs, ip, now);
      TurnedAway(ipBuckets, ipHits, maxIpHits, windowMs, now, ip, now);
      ipBuckets := LiveBucket(ipBuckets, ip, now - windowMs);
      if |At(ipBuckets, ip)| >= maxIpHits {
        return true;
      }
      LetThrough(ipBuckets, ipHits, maxIpHits, windowMs, ip, now);
      ipBuckets, ipHits := Push(ipBuckets, ip, now), Push(ipHits, ip, now);
      return false;
    }

    method CountPrincipal(principal: string, now: int) returns (r: Verdict)
      requires Valid() && last == now
      modifies this`principalBuckets, this`hits
      ensures Valid() && (r.Ok? || r.RateLimited?)
      ensures r.Ok? <==> !Full(LogAt(old(hits), principal), maxHits, now - windowMs)
      ensures if r.Ok? then Recorded(old(hits), hits, principal, now) else hits == old(hits)
      ensures r.RateLimited? ==> RetryAt(LogAt(old(hits), principal), windowMs, now, r.retryAfterSec)
    {
      hide Sound, Live, LiveBucket, Push, Full, RetryAt, Recorded, Allows;
      RuleOf(principalBuckets, hits, maxHits, windowMs, principal, now);
      TurnedAway(principalBuckets, hits, maxHits, windowMs, now, principal, now);
      principalBuckets := LiveBucket(principalBuckets, principal, now - windowMs);
      if |At(principalBuckets, principal)| >= maxHits {
        return RateLimited(SecondsFor(At(principalBuckets, principal)[0] + windowMs - now));
      }
      LetThrough(principalBuckets, hits, maxHits, windowMs, principal, now);
      principalBuckets, hits := Push(principalBuckets, principal, now), Push(hits, principal, now);
      return Ok;
    }

    /** At any moment, no interval of one window's length holds more than `maxHits` ok results of a principal. */
    lemma NeverOverLimit(key: string, from: int, i: nat, j: nat)
      requires Valid() && key in hits && i <= j <= |hits[key]|
      requires forall k | i <= k < j :: from < hits[key][k] <= from + windowMs
      ensures j - i <= maxHits
    {
      hide Agrees, Ordered, Spaced, Past;
      IntervalBound(hits[key], maxHits, windowMs, from, i, j);
    }

    /** Dropping stale hits and empty buckets changes no log, and so no later answer. */
    method Sweep(now: int)
      requires Valid() && now >= last
      modifies this`principalBuckets, this`ipBuckets, this`last
      ensures Valid() && last == now
      ensures forall key :: key in principalBuckets ==> principalBuckets[key] != []
      ensures forall key :: key in ipBuckets ==> ipBuckets[key] != []
      // and no stale hit is kept
      ensures forall key, i | key in principalBuckets && 0 <= i < |principalBuckets[key]| ::
                principalBuckets[key][i] > now - windowMs
      ensures forall key, i | key in ipBuckets && 0 <= i < |ipBuckets[key]| :: ipBuckets[key][i] > now - windowMs
    {
      SweptIsLive(principalBuckets, now - windowMs);
      SweptIsLive(ipBuckets, now - windowMs);
      hide Sound, Live, Swept;
      SweptSound(principalBuckets, hits, maxHits, windowMs, last, now);
      SweptSound(ipBuckets, ipHits, maxIpHits, windowMs, last, now);
      principalBuckets, ipBuckets := Swept(principalBuckets, now - windowMs), Swept(ipBuckets, now - windowMs);
      last := now;
    }

    method AddBan(ip: string, matches: string -> bool)
      requires Valid()
      modifies this`bannedIps, this`ipBuckets, this`ipHits
      ensures Valid() && bannedIps == old(bannedIps)[ip := matches] && ipHits == old(ipHits) - {ip}
    {
      bannedIps, ipBuckets := bannedIps[ip := matches], ipBuckets - {ip};
      ipHits := ipHits - {ip};
      assert forall key :: At(ipBuckets, key) == (if key == ip then [] else At(old(ipBuckets), key));
      assert forall key :: At(ipHits, key) == (if key == ip then [] else At(old(ipHits), key));
    }

    method RemoveBan(ip: string)
      requires Valid()
      modifies this`bannedIps
      ensures Valid() && bannedIps == old(bannedIps) - {ip}
    {
      bannedIps := bannedIps - {ip};
    }
  }

  function Swept(m: map<string, seq<int>>, cutoff: int): (r: map<string, seq<int>>)
    ensures forall key :: key in r ==> r[key] != []
  {
    map key | key in m && Live(m[key], cutoff) != [] :: Live(m[key], cutoff)
  }

  lemma {:induction false} LiveIsLater(ts: seq<int>, cutoff: int)
    ensures forall i | 0 <= i < |Live(ts, cutoff)| :: Live(ts, cutoff)[i] > cutoff
  {
    if ts == [] {
    } else {
      LiveIsLater(ts[1..], cutoff);
    }
  }

  lemma SweptIsLive(m: map<string, seq<int>>, cutoff: int)
    ensures var r := Swept(m, cutoff); forall key, i | key in r && 0 <= i < |r[key]| :: r[key][i] > cutoff
  {
    forall key | key in m ensures forall i | 0 <= i < |Live(m[key], cutoff)| :: Live(m[key], cutoff)[i] > cutoff {
      LiveIsLater(m[key], cutoff);
    }
    hide Live;
  }

  lemma SweptAgrees(buckets: map<string, seq<int>>, logs: map<string, seq<int>>, early: int, cutoff: int)
    requires early <= cutoff && Agrees(buckets, logs, early)
    ensures Agrees(Swept(buckets, cutoff), logs, cutoff)
  {
    forall key, late | late >= cutoff
      ensures Live(At(Swept(buckets, cutoff), key), late) == Live(At(logs, key), late)
    {
      assert At(Swept(buckets, cutoff), key) == Live(At(buckets, key), cutoff);
      hide Live, Swept;
      AgreesAt(buckets, logs, early, key, late);
      LiveTwice(At(buckets, key), cutoff, late);
    }
  }

  lemma SweptSound(buckets: map<string, seq<int>>, logs: map<string, seq<int>>, max: nat, window: int, last: int,
                   now: int)
    requires Sound(buckets, logs, max, window, last) && last <= now
    ensures Sound(Swept(buckets, now - window), logs, max, window, now)
  {
    hide Agrees, ValidLogs, Live, Swept;
    SweptAgrees(buckets, logs, last - window, now - window);
    LogsLater(logs, max, window, last, now);
  }
}
