/** What a log of storage events says about one prefix deletion. */
module PrefixHistory {
  import opened Wrappers
  import opened StringOrder
  import opened ObjectStorage
  import opened Bucket

  // ----- the contribution of one event -----

  ghost predicate AcceptedListing(e: Event) {
    e.Listed? && e.answer.Success? && !e.aborted
  }

  ghost predicate AcceptedDelete(e: Event) {
    e.Deleted? && e.outcome.Success? && !e.aborted
  }

  ghost predicate ReportsFailure(e: Event) {
    AcceptedDelete(e) && e.outcome.value.failures != []
  }

  ghost predicate GoodEvent(e: Event, prefix: string, pageSize: nat) {
    && !e.Rejected?
    && (e.Deleted? ==> 1 <= |e.batch| <= pageSize && ValidKeys(e.batch, prefix, None))
    && (e.Deleted? ==> e.before - Elements(e.batch) <= e.after <= e.before)
    && (AcceptedDelete(e) ==> Splits(e.outcome.value, e.batch))
    && (e.Listed? ==> e.maxKeys == if e.verifying then 1 else pageSize)
  }

  /** A listing from the head of the prefix that saw no key and no continuation. */
  ghost predicate SawEmpty(e: Event) {
    e.Listed? && e.startAfter.None? && !e.aborted && e.answer == Success(KeyPage([], false))
  }

  ghost function Under(keys: set<Key>, prefix: string): set<Key> {
    set k | k in keys && prefix <= k
  }

  /** The page is an initial segment of the keys after the cursor and says whether more follow. */
  ghost predicate Truthful(page: KeyPage, startAfter: Option<Key>, present: set<Key>, prefix: string) {
    && (forall k | k in page.keys :: k in present)
    && (forall k | k in Under(present, prefix) && PastCursor(k, startAfter) && k !in page.keys ::
          page.isTruncated && page.keys != [] && Less(page.keys[|page.keys| - 1], k))
    && (page.isTruncated ==> exists k :: k in Under(present, prefix) && PastCursor(k, startAfter) && k !in page.keys)
  }

  /** Something went wrong other than that single keys could not be deleted. */
  ghost predicate Troubled(e: Event) {
    match e
    case Hooked(ok, _, aborted) => !ok || aborted
    case Listed(_, _, _, _, _, answer, aborted) => answer.Failure? || aborted || EmptyTruncated(answer.value)
    case Deleted(_, _, _, _, outcome, aborted) => outcome.Failure? || aborted
    case Recorded(ok, _) => !ok
    case Rejected => true
  }

  ghost predicate EmptyTruncated(page: KeyPage) {
    page.keys == [] && page.isTruncated
  }

  /** The keys that an accepted bulk delete did not report as failed. */
  ghost function Removed(e: Event): set<Key>
    requires AcceptedDelete(e)
  {
    Elements(e.batch) - Elements(e.outcome.value.failures)
  }

  /** Nobody interferes, nothing but single deletions fails, and the request does what it says. */
  ghost predicate HonestEvent(e: Event, prefix: string) {
    match e
    case Hooked(ok, quiet, aborted) => ok && quiet && !aborted
    case Listed(_, startAfter, _, present, quiet, answer, aborted) =>
      quiet && !aborted && answer.Success? && Truthful(answer.value, startAfter, present, prefix)
    case Deleted(batch, before, after, quiet, outcome, aborted) =>
      quiet && AcceptedDelete(e) && after == before - Removed(e)
    case Recorded(ok, quiet) => ok && quiet
    case Rejected => true
  }

  // ----- whole logs -----

  /** What a log adds up to. */
  datatype Summary = Summary(
    listed: seq<Key>,      // keys of accepted enumerating listings, in order
    submitted: seq<Key>,   // keys of accepted bulk deletes, in order
    removed: set<Key>,     // keys of accepted bulk deletes not reported as failed
    kept: set<Key>,        // keys of accepted bulk deletes reported as failed
    deletes: nat,          // accepted bulk deletes
    listings: nat,         // accepted listings of either kind
    more: bool,            // the last accepted listing said that more keys follow
    records: seq<bool>,    // outcomes of the attempts to record the prefix
    failed: bool,          // some accepted bulk delete reported a failed key
    good: bool,            // every event is a good one
    honest: bool)          // every event is an honest one

  const NOTHING := Summary([], [], {}, {}, 0, 0, false, [], false, true, true)

  ghost function Add(s: Summary, e: Event, prefix: string, pageSize: nat): Summary {
    Summary(
      if AcceptedListing(e) && !e.verifying then s.listed + e.answer.value.keys else s.listed,
      if AcceptedDelete(e) then s.submitted + e.batch else s.submitted,
      if AcceptedDelete(e) then s.removed + Removed(e) else s.removed,
      if AcceptedDelete(e) then s.kept + Elements(e.outcome.value.failures) else s.kept,
      if AcceptedDelete(e) then s.deletes + 1 else s.deletes,
      if AcceptedListing(e) then s.listings + 1 else s.listings,
      if AcceptedListing(e) then e.answer.value.isTruncated else s.more,
      if e.Recorded? then s.records + [e.ok] else s.records,
      s.failed || ReportsFailure(e),
      s.good && GoodEvent(e, prefix, pageSize),
      s.honest && HonestEvent(e, prefix))
  }

  ghost function Summarise(log: seq<Event>, prefix: string, pageSize: nat): Summary {
    if log == [] then NOTHING
    else Add(Summarise(log[..|log| - 1], prefix, pageSize), log[|log| - 1], prefix, pageSize)
  }

  lemma Extend(log: seq<Event>, e: Event, prefix: string, pageSize: nat)
    ensures Summarise(log + [e], prefix, pageSize) == Add(Summarise(log, prefix, pageSize), e, prefix, pageSize)
  {
    assert (log + [e])[..|log|] == log;
  }

  lemma {:induction false} RecordsAreInLog(log: seq<Event>, prefix: string, pageSize: nat)
    ensures forall ok :: ok in Summarise(log, prefix, pageSize).records <==> exists quiet :: Recorded(ok, quiet) in log
  {
    if log == [] {
    } else {
      var front, last := log[..|log| - 1], log[|log| - 1];
      RecordsAreInLog(front, prefix, pageSize);
      assert log == front + [last];
    }
  }

  ghost predicate Ready(log: seq<Event>) {
    log != [] && log[|log| - 1].Hooked? && !Troubled(log[|log| - 1])
  }

  /** Directly before every request the caller's hook has returned, and the signal was not aborted by then. */
  ghost predicate RequestsHooked(log: seq<Event>) {
    forall i | 0 <= i < |log| && (log[i].Listed? || log[i].Deleted?) :: Ready(log[..i])
  }

  lemma HookedExtend(log: seq<Event>, e: Event)
    requires RequestsHooked(log) && (e.Listed? || e.Deleted? ==> Ready(log))
    ensures RequestsHooked(log + [e])
  {
    var longer := log + [e];
    hide Ready;
    forall i | 0 <= i < |longer| && (longer[i].Listed? || longer[i].Deleted?) ensures Ready(longer[..i]) {
      assert longer[..i] == log[..i] && (i == |log| ==> log[..i] == log);
    }
  }

  /** The summary flags speak about every event of the log. */
  lemma {:induction false} FlagsSpeakOfAll(log: seq<Event>, prefix: string, pageSize: nat)
    ensures var s := Summarise(log, prefix, pageSize);
            && (s.good <==> forall e | e in log :: GoodEvent(e, prefix, pageSize))
            && (s.honest <==> forall e | e in log :: HonestEvent(e, prefix))
            && (s.failed <==> exists e | e in log :: ReportsFailure(e))
            && (forall ok :: ok in s.records <==> exists quiet :: Recorded(ok, quiet) in log)
  {
    hide GoodEvent, HonestEvent, ReportsFailure;
    RecordsAreInLog(log, prefix, pageSize);
    if log == [] {
    } else {
      var front, last := log[..|log| - 1], log[|log| - 1];
      FlagsSpeakOfAll(front, prefix, pageSize);
      assert log == front + [last];
      assert forall e :: e in log <==> e in front || e == last;
    }
  }

  /** Submitted keys are removed or kept, and not both if each was submitted once. */
  lemma {:induction false} KeptOrRemoved(log: seq<Event>, prefix: string, pageSize: nat)
    requires Summarise(log, prefix, pageSize).good
    ensures var s := Summarise(log, prefix, pageSize);
            && s.kept + s.removed == Elements(s.submitted)
            && (Distinct(s.submitted) ==> s.kept !! s.removed)
            && (s.failed <==> s.kept != {})
  {
    if log == [] {
    } else {
      var front, e := log[..|log| - 1], log[|log| - 1];
      KeptOrRemoved(front, prefix, pageSize);
      var s := Summarise(front, prefix, pageSize);
      if AcceptedDelete(e) {
        SplitSets(e.outcome.value, e.batch);
        if Distinct(s.submitted + e.batch) {
          DistinctParts(s.submitted, e.batch);
        }
        assert Elements(s.submitted + e.batch) == Elements(s.submitted) + Elements(e.batch);
      }
    }
  }

  lemma SplitSets(outcome: DeleteOutcome, batch: seq<Key>)
    requires Splits(outcome, batch)
    ensures Elements(outcome.failures) <= Elements(batch)
    ensures outcome.failures != [] <==> Elements(outcome.failures) != {}
  {
    forall k | k in outcome.failures ensures k in batch {
      assert k in multiset(outcome.deleted) + multiset(outcome.failures);
    }
    if outcome.failures != [] {
      assert outcome.failures[0] in Elements(outcome.failures);
    }
  }

  lemma DistinctParts(a: seq<Key>, b: seq<Key>)
    requires Distinct(a + b)
    ensures Distinct(a) && Elements(a) !! Elements(b)
  {
    forall i, j | 0 <= i < j < |a| ensures a[i] != a[j] {
      assert (a + b)[i] != (a + b)[j];
    }
    forall i, j | 0 <= i < |a| && 0 <= j < |b| ensures a[i] != b[j] {
      assert (a + b)[i] == a[i] && (a + b)[|a| + j] == b[j];
    }
  }
}
