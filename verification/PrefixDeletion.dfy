/**
 * Bounded, self-verifying deletion of every key under a prefix: a paging cursor, a batch carried
 * across pages, a page budget, and a listing from the head before success is reported.
 */
module PrefixDeletion {
  import opened Wrappers
  import opened StringOrder
  import opened ObjectStorage
  import opened Bucket
  import opened PrefixHistory

  const DEFAULT_PAGE_SIZE := 1000
  const DEFAULT_MAX_LIST_PAGES := 1000

  datatype Operation = List | Delete

  datatype Stop =
    | StorageFailed(operation: Operation, processed: nat)
    | PageBudget(processed: nat)
    | HookThrew
    | QueueFailed

  datatype Outcome = Done(processed: nat, pages: nat) | Stopped(stop: Stop) | InvalidArguments

  datatype Step = Again | Verify | Finish(outcome: Outcome)

  /** The failure callback of the coordinator: it records the prefix once. */
  class FailureSink {
    const store: Storage
    var prefixRecorded: bool

    constructor (store: Storage)
      ensures this.store == store && !prefixRecorded
    {
      this.store, prefixRecorded := store, false;
    }

    method OnFailures() returns (ok: bool, ghost event: Event)
      modifies this, store
      ensures old(prefixRecorded) ==> ok && prefixRecorded && unchanged(store)
      ensures !old(prefixRecorded) ==>
                && prefixRecorded == ok && event.Recorded? && event.ok == ok && store.log == old(store.log) + [event]
                && (event.quiet ==> store.present == old(store.present))
      ensures old(store.aborted) ==> store.aborted
    {
      if prefixRecorded {
        return true, Rejected;
      }
      ok, event := store.RecordOrphan();
      prefixRecorded := ok;
    }
  }

  class PrefixRun {
    const store: Storage
    const sink: FailureSink
    const prefix: string
    const pageSize: nat
    const maxListPages: nat
    ghost const initial: set<Key>

    var startAfter: Option<Key>
    var pages: nat
    var processed: nat
    var hadRecordedPartialFailure: bool
    var pendingBatch: seq<Key>
    ghost var account: Summary

    constructor (store: Storage, sink: FailureSink, prefix: string, pageSize: nat, maxListPages: nat)
      requires sink.store == store && store.log == [] && !sink.prefixRecorded
      requires 1 <= pageSize <= DEFAULT_PAGE_SIZE && pageSize <= maxListPages
      ensures Valid() && startAfter == None && pages == 0 && pendingBatch == []
      ensures this.store == store && this.sink == sink && this.prefix == prefix && account == NOTHING
      ensures this.pageSize == pageSize && this.maxListPages == maxListPages && initial == store.present
    {
      this.store, this.sink, this.prefix := store, sink, prefix;
      this.pageSize, this.maxListPages, initial := pageSize, maxListPages, store.present;
      startAfter, pages, processed, hadRecordedPartialFailure, pendingBatch := None, 0, 0, false, [];
      account := NOTHING;
    }

    /** The account is the summary of the log, and every event so far is a good one. */
    ghost predicate Logged()
      reads this, store, sink
    {
      && sink.store == store
      && 1 <= pageSize <= DEFAULT_PAGE_SIZE && pages <= maxListPages
      && account == Summarise(store.log, prefix, pageSize)
      && account.good && RequestsHooked(store.log)
    }

    ghost predicate Calm()
      reads this, store
    {
      account.honest && !store.aborted
    }

    /** Everything known between requests, when `extra` has been listed but is not yet pending. */
    ghost predicate ValidWith(extra: seq<Key>)
      reads this, store, sink
    {
      && Logged()
      && ValidKeys(pendingBatch, prefix, None)
      && account.listed == account.submitted + pendingBatch + extra
      && processed == |account.submitted| && pages == account.listings
      && hadRecordedPartialFailure == account.failed == sink.prefixRecorded
      && account.records == (if sink.prefixRecorded then [true] else [])
      && (Calm() ==> store.present == initial - account.removed)
    }

    ghost predicate Valid()
      reads this, store, sink
    {
      ValidWith([])
    }

    /** The last thing that happened is what made the run throw; a failed key alone never does. */
    ghost predicate Caused(stop: Stop)
      reads this, store
    {
      match stop
      case PageBudget(_) => true
      case HookThrew => store.log != [] && var e := store.log[|store.log| - 1]; e.Hooked? && !e.ok
      case QueueFailed => store.log != [] && var e := store.log[|store.log| - 1]; e.Recorded? && !e.ok
      case StorageFailed(operation, _) =>
        store.log != [] && var e := store.log[|store.log| - 1];
        Troubled(e) && ((e.Hooked? && e.ok) || if operation.List? then e.Listed? else e.Deleted?)
    }

    /** What is still true when the run throws. */
    ghost predicate Halted(stop: Stop)
      reads this, store, sink
    {
      && Logged()
      && account.submitted <= account.listed
      && account.records == (if stop.QueueFailed? then [false] else if sink.prefixRecorded then [true] else [])
      && (stop.StorageFailed? || stop.PageBudget? ==> stop.processed == |account.submitted|)
      && Caused(stop)
      && (if stop.PageBudget? then account.submitted == account.listed && account.listings == pages == maxListPages
          else !Calm())
    }

    /** The caller's hook, and a look at the signal. */
    method BeforeRequest(operation: Operation) returns (stop: Option<Stop>)
      requires Logged()
      modifies this`account, store
      ensures Logged() && account == old(account).(honest := account.honest)
      ensures stop.None? ==> Ready(store.log) && (Calm() ==> old(Calm()) && store.present == old(store.present))
      ensures stop.Some? ==>
                && (stop.value == HookThrew || stop.value == StorageFailed(operation, processed))
                && Caused(stop.value) && !Calm()
    {
      hide Summarise;
      var ok, e := store.Hook();
      Extend(old(store.log), e, prefix, pageSize);
      HookedExtend(old(store.log), e);
      account := Add(account, e, prefix, pageSize);
      if !ok {
        return Some(HookThrew);
      }
      if store.aborted {
        return Some(StorageFailed(operation, processed));
      }
      return None;
    }

    /** The hook, then one bulk delete; the keys reported as failed come back. */
    method Submit(batch: seq<Key>) returns (r: Result<seq<Key>, Stop>)
      requires Logged() && 1 <= |batch| <= pageSize && ValidKeys(batch, prefix, None)
      modifies this`account, store
      ensures Logged()
      ensures account.listed == old(account.listed) && account.records == old(account.records)
      ensures account.listings == old(account.listings)
      ensures r.Success? ==>
                && account.submitted == old(account.submitted) + batch
                && account.failed == (old(account.failed) || r.value != [])
                && account.deletes == old(account.deletes) + 1 && account.more == old(account.more)
                && (Calm() ==> old(Calm()) && (old(store.present == initial - account.removed) ==>
                                                 store.present == initial - account.removed))
      ensures r.Failure? ==>
                && account.submitted == old(account.submitted) && !Calm()
                && (r.error == HookThrew || r.error == StorageFailed(Delete, processed)) && Caused(r.error)
    {
      var stop := BeforeRequest(Delete);
      if stop.Some? {
        return Failure(stop.value);
      }
      AscendingDistinct(batch);
      hide Summarise, RequestsHooked, Ready, Ascending, Distinct;
      label Sent:
      assert ValidBatch(batch);
      var outcome, e := store.DeleteKeys(batch);
      Extend(old@Sent(store.log), e, prefix, pageSize);
      HookedExtend(old@Sent(store.log), e);
      account := Add(account, e, prefix, pageSize);
      if outcome.Failure? || store.aborted {
        return Failure(StorageFailed(Delete, processed));
      }
      return Success(outcome.value.failures);
    }

    /** Hand reported failures to the sink. */
    method Report() returns (ok: bool)
      requires Logged() && sink.prefixRecorded == hadRecordedPartialFailure
      requires account.records == if sink.prefixRecorded then [true] else []
      modifies this`account, this`hadRecordedPartialFailure, store, sink
      ensures Logged()
      ensures account == old(account).(records := if ok then [true] else [false], honest := account.honest)
      ensures if ok then sink.prefixRecorded && hadRecordedPartialFailure else Caused(QueueFailed) && !Calm()
      ensures Calm() ==> old(Calm()) && store.present == old(store.present)
    {
      label Asked:
      var before := sink.prefixRecorded;
      ghost var e;
      ok, e := sink.OnFailures();
      if !before {
        Extend(old@Asked(store.log), e, prefix, pageSize);
        HookedExtend(old@Asked(store.log), e);
        account := Add(account, e, prefix, pageSize);
      }
      if ok {
        hadRecordedPartialFailure := true;
      }
    }

    /** Everything known when a batch has been cut off the pending keys and is not yet submitted. */
    ghost predicate Cut(batch: seq<Key>)
      reads this, store, sink
    {
      && Logged()
      && 1 <= |batch| <= pageSize && ValidKeys(batch, prefix, None) && ValidKeys(pendingBatch, prefix, None)
      && account.listed == account.submitted + batch + pendingBatch
      && processed == |account.submitted| && pages == account.listings
      && hadRecordedPartialFailure == account.failed == sink.prefixRecorded
      && account.records == (if sink.prefixRecorded then [true] else [])
      && (Calm() ==> store.present == initial - account.removed)
    }

    /** Cut the next batch off the front of the pending keys. */
    method CutBatch() returns (batch: seq<Key>)
      requires Valid() && pendingBatch != []
      modifies this`pendingBatch
      ensures Cut(batch) && IsSuffix(pendingBatch, old(pendingBatch)) && |pendingBatch| == |old(pendingBatch)| - |batch|
      ensures |batch| == pageSize || pendingBatch == []
    {
      var size := if pageSize < |pendingBatch| then pageSize else |pendingBatch|;
      CutKeys(pendingBatch, size, prefix, account.submitted);
      hide RequestsHooked, Summarise, Elements, ValidKeys;
      batch := pendingBatch[..size];
      pendingBatch := pendingBatch[size..];
    }

    /** Delete a cut batch and hand on what failed. */
    method SubmitBatch(batch: seq<Key>) returns (stop: Option<Stop>)
      requires Cut(batch)
      modifies this`processed, this`hadRecordedPartialFailure, this`account, store, sink
      ensures account.listed == old(account.listed)
      ensures stop.None? ==>
                && Valid() && account.more == old(account.more) && (old(FullBatches()) ==> EnoughBatches())
                && (old(FullBatches()) && |batch| == pageSize ==> FullBatches())
      ensures stop.Some? ==> Halted(stop.value) && !stop.value.PageBudget?
      ensures Calm() ==> old(Calm())
    {
      hide RequestsHooked, Summarise, Elements, ValidKeys;
      var failures := Submit(batch);
      if failures.Failure? {
        return Some(failures.error);
      }
      processed := processed + |batch|;
      if failures.value != [] {
        var ok := Report();
        if !ok {
          return Some(QueueFailed);
        }
      }
      assert account.listed == account.submitted + pendingBatch + [];
      if old(FullBatches()) {
        OneMoreBatch(old(account.deletes), |old(account.submitted)|, |batch|, pageSize);
      }
      return None;
    }

    /** Delete the first keys of the pending batch. */
    method SubmitPending() returns (stop: Option<Stop>)
      requires Valid() && pendingBatch != []
      modifies this`pendingBatch, this`processed, this`hadRecordedPartialFailure, this`account, store, sink
      ensures account.listed == old(account.listed)
      ensures stop.None? ==>
                && Valid() && IsSuffix(pendingBatch, old(pendingBatch)) && |pendingBatch| < |old(pendingBatch)|
                && account.more == old(account.more) && (old(FullBatches()) ==> EnoughBatches())
                && (old(FullBatches()) && (pendingBatch != [] || |old(pendingBatch)| >= pageSize) ==> FullBatches())
      ensures stop.Some? ==> Halted(stop.value) && !stop.value.PageBudget?
      ensures Calm() ==> old(Calm())
    {
      hide RequestsHooked, Summarise, Elements, ValidKeys, IsSuffix;
      var batch := CutBatch();
      stop := SubmitBatch(batch);
    }

    /** So far every bulk delete was a full one, however the listing was cut into pages. */
    ghost predicate FullBatches()
      reads this
    {
      Full(account.deletes, |account.submitted|, pageSize)
    }

    /** Every bulk delete but the last was a full one. */
    ghost predicate EnoughBatches()
      reads this
    {
      Enough(account.deletes, |account.submitted|, pageSize)
    }

    method Flush(all: bool) returns (stop: Option<Stop>)
      requires Valid()
      modifies this`pendingBatch, this`processed, this`hadRecordedPartialFailure, this`account, store, sink
      ensures account.listed == old(account.listed)
      ensures stop.None? ==>
                && Valid() && |pendingBatch| < pageSize && (all ==> pendingBatch == [])
                && IsSuffix(pendingBatch, old(pendingBatch)) && account.more == old(account.more)
                && (old(FullBatches()) ==> EnoughBatches() && (!all ==> FullBatches()))
      ensures old(pendingBatch) == [] ==> stop.None? && store.log == old(store.log)
      ensures stop.Some? ==> Halted(stop.value) && !stop.value.PageBudget?
      ensures Calm() ==> old(Calm())
    {
      hide RequestsHooked, Summarise, Elements, ValidKeys, Full, Enough, Halted, IsSuffix;
      FullIsEnough(account.deletes, |account.submitted|, pageSize);
      SuffixOfSuffix(pendingBatch, pendingBatch, pendingBatch);
      while |pendingBatch| >= pageSize || (all && |pendingBatch| > 0)
        invariant Valid() && account.listed == old(account.listed)
        invariant IsSuffix(pendingBatch, old(pendingBatch))
        invariant old(pendingBatch) == [] ==> store.log == old(store.log)
        invariant account.more == old(account.more)
        invariant old(FullBatches()) ==> EnoughBatches() && (!all || pendingBatch != [] ==> FullBatches())
        invariant Calm() ==> old(Calm())
        decreases |pendingBatch|
      {
        ghost var before := pendingBatch;
        stop := SubmitPending();
        if stop.Some? {
          return;
        }
        SuffixOfSuffix(pendingBatch, before, old(pendingBatch));
      }
      stop := None;
    }

    /** The hook, then one listing. */
    method Fetch(ghost verifying: bool, after: Option<Key>, maxKeys: int) returns (r: Result<KeyPage, Stop>)
      requires Logged() && pages < maxListPages && maxKeys == if verifying then 1 else pageSize
      modifies this`account, this`pages, store
      ensures Logged()
      ensures account.submitted == old(account.submitted) && account.failed == old(account.failed)
      ensures account.records == old(account.records) && account.deletes == old(account.deletes)
      ensures account.removed == old(account.removed)
      ensures r.Success? ==>
                && account.more == r.value.isTruncated
                && pages == old(pages) + 1 && account.listings == old(account.listings) + 1
                && ValidKeys(r.value.keys, prefix, after)
                && account.listed == (if verifying then old(account.listed) else old(account.listed) + r.value.keys)
                && LastSaw(after, r.value)
                && (Calm() ==> old(Calm()) && store.present == old(store.present)
                               && Truthful(r.value, after, store.present, prefix))
      ensures r.Failure? ==>
                && account.listed == old(account.listed) && !Calm()
                && (r.error == HookThrew || r.error == StorageFailed(Operation.List, processed)) && Caused(r.error)
    {
      hide RequestsHooked, Ready, Summarise, Elements, Under, Splits, PastCursor, Ascending;
      var stop := BeforeRequest(Operation.List);
      if stop.Some? {
        return Failure(stop.value);
      }
      label Sent:
      var page, e := store.ListKeyPage(verifying, prefix, after, maxKeys);
      Extend(old@Sent(store.log), e, prefix, pageSize);
      HookedExtend(old@Sent(store.log), e);
      account := Add(account, e, prefix, pageSize);
      if page.Failure? || store.aborted {
        return Failure(StorageFailed(Operation.List, processed));
      }
      pages := pages + 1;
      return Success(page.value);
    }

    /** The last event is an accepted listing from this cursor with this answer. */
    ghost predicate LastSaw(after: Option<Key>, page: KeyPage)
      reads this, store
    {
      store.log != [] &&
      var e := store.log[|store.log| - 1];
      e.Listed? && e.startAfter == after && e.answer == Success(page) && !e.aborted && e.present == store.present
    }

    method List(ghost verifying: bool, after: Option<Key>, maxKeys: int) returns (r: Result<KeyPage, Stop>)
      requires Valid() && maxKeys == if verifying then 1 else pageSize
      modifies this`pages, this`pendingBatch, this`processed, this`hadRecordedPartialFailure, this`account, store, sink
      ensures r.Success? ==>
                && ValidWith(if verifying then [] else r.value.keys) && ValidKeys(r.value.keys, prefix, after)
                && pages == old(pages) + 1 && pendingBatch == old(pendingBatch)
                && account.submitted == old(account.submitted) && account.deletes == old(account.deletes)
                && account.more == r.value.isTruncated && account.removed == old(account.removed)
                && account.failed == old(account.failed)
                && account.listed == (if verifying then old(account.listed) else old(account.listed) + r.value.keys)
                && LastSaw(after, r.value)
                && (Calm() ==> old(Calm()) && Truthful(r.value, after, store.present, prefix))
      ensures r.Failure? ==> Halted(r.error) && account.listed == old(account.listed)
      ensures r.Failure? && r.error.PageBudget? ==> pages == old(pages) && (Calm() ==> old(Calm()))
    {
      if pages >= maxListPages {
        var stop := Flush(true);
        if stop.Some? {
          return Failure(stop.value);
        }
        assert account.listed == account.submitted;
        return Failure(PageBudget(processed));
      }
      assert account.listed == account.submitted + pendingBatch;
      r := Fetch(verifying, after, maxKeys);
    }

    /** The run is over and reported success. */
    ghost predicate Completed(processed: nat, pages: nat)
      reads this, store, sink
    {
      && Logged()
      && account.submitted == account.listed
      && processed == |account.listed| && pages == account.listings && !account.more
      && if account.failed then account.records == [true]
         else account.records == [] && store.log != [] && SawEmpty(store.log[|store.log| - 1])
    }

    /** What the outcome of the run promises. */
    ghost predicate Ends(r: Outcome)
      reads this, store, sink
    {
      && (match r
          case Done(processed, pages) => Completed(processed, pages)
          case Stopped(stop) => Halted(stop)
          case InvalidArguments => false)
      && (r.Stopped? && r.stop.PageBudget? ==> maxListPages <= 3 * r.stop.processed)
      && (Calm() && |Under(initial, prefix)| < maxListPages ==>
            && r.Done? && r.processed == |Under(initial, prefix)| && r.pages <= |Under(initial, prefix)| + 1
            && Elements(account.submitted) == Under(initial, prefix) && (account.failed <==> account.kept != {})
            && store.present == initial - (Under(initial, prefix) - account.kept)
            && Enough(account.deletes, |Under(initial, prefix)|, pageSize))
    }

    /** The loop head: every non-empty page pays for itself, a closing empty page and one verification. */
    ghost predicate Enumerating()
      reads this, store, sink
    {
      && Valid() && |pendingBatch| < pageSize
      && (startAfter.None? ==> pendingBatch == [])
      && pages <= 3 * |account.listed| - (if startAfter.None? then 0 else 2)
      && (pendingBatch != [] ==> startAfter == Some(pendingBatch[|pendingBatch| - 1]))
      && (Calm() ==> OnTrack(initial, prefix, account.listed, startAfter, pages) && FullBatches())
    }

    /** Everything listed is deleted and the head of the prefix is to be looked at again. */
    ghost predicate Verifying()
      reads this, store, sink
    {
      && Valid() && pendingBatch == [] && !hadRecordedPartialFailure
      && pages <= 3 * |account.listed| - 1
      && (Calm() ==> Covers(initial, prefix, account.listed) && pages <= |Under(initial, prefix)|)
      && (Calm() ==> EnoughBatches())
    }

    lemma StopEnds(stop: Stop)
      requires Halted(stop) && !stop.PageBudget?
      ensures Ends(Stopped(stop))
    {
    }

    lemma ListEnds(stop: Stop)
      requires Halted(stop)
      requires stop.PageBudget? ==>
                 maxListPages <= 3 * stop.processed && (Calm() ==> maxListPages <= |Under(initial, prefix)|)
      ensures Ends(Stopped(stop))
    {
    }

    lemma Finished()
      requires Valid() && pendingBatch == [] && pages <= maxListPages && !account.more
      requires Calm() ==> EnoughBatches()
      requires hadRecordedPartialFailure || (store.log != [] && SawEmpty(store.log[|store.log| - 1]))
      requires Calm() ==> Covers(initial, prefix, account.listed) && pages <= |Under(initial, prefix)| + 1
      ensures Ends(Done(processed, pages))
    {
      hide RequestsHooked, Summarise, Under, Covers, Distinct, Elements, Enough, ValidKeys, Ascending;
      assert account.listed == account.submitted;
      if Calm() {
        AllAccountedFor(initial, store.log, prefix, pageSize);
      }
    }

    /** A page has just been listed from the cursor and is not yet pending. */
    ghost predicate Received(page: KeyPage)
      reads this, store, sink
    {
      && ValidWith(page.keys) && |pendingBatch| < pageSize
      && ValidKeys(page.keys, prefix, startAfter) && LastSaw(startAfter, page) && account.more == page.isTruncated
      && (Calm() ==> FullBatches())
      && (startAfter.None? ==> pendingBatch == [])
      && (pendingBatch != [] ==> startAfter == Some(pendingBatch[|pendingBatch| - 1]))
      && pages <= 3 * (|account.listed| - |page.keys|) + (if startAfter.None? then 1 else -1)
      && (Calm() && page.keys == [] ==> startAfter.None? && Under(initial, prefix) == {} && !page.isTruncated)
      && (Calm() && page.isTruncated ==>
            page.keys != [] && OnTrack(initial, prefix, account.listed, Some(page.keys[|page.keys| - 1]), pages))
      && (Calm() && !page.isTruncated ==> Covers(initial, prefix, account.listed))
      && (Calm() && page.keys != [] ==> pages <= |account.listed|)
      && (Calm() && page.keys == [] ==> pages == 1)
    }

    method TakeEmptyPage(page: KeyPage) returns (step: Step)
      requires Received(page) && page.keys == []
      modifies this`pendingBatch, this`processed, this`hadRecordedPartialFailure, this`account, store, sink
      ensures !step.Again?
      ensures step.Verify? ==> Verifying()
      ensures step.Finish? ==> Ends(step.outcome)
    {
      if page.isTruncated {
        return Finish(Stopped(StorageFailed(Operation.List, processed)));
      }
      assert account.listed == account.submitted + pendingBatch;
      var stop := Flush(true);
      if stop.Some? {
        return Finish(Stopped(stop.value));
      }
      if hadRecordedPartialFailure || startAfter.None? {
        Finished();
        return Finish(Done(processed, pages));
      }
      return Verify;
    }

    /** The listed keys join the pending batch and the cursor moves to the last of them. */
    method Push(page: KeyPage)
      requires Received(page) && page.keys != []
      modifies this`startAfter, this`pendingBatch
      ensures Pushed(page.isTruncated)
    {
      hide RequestsHooked, Summarise, Full, Under, LastSaw;
      assert account.submitted + pendingBatch + page.keys == account.submitted + (pendingBatch + page.keys) + [];
      assert PastCursor(page.keys[0], startAfter) by { assert page.keys[0] in page.keys; }
      AscendingAppend(pendingBatch, page.keys);
      pendingBatch := pendingBatch + page.keys;
      startAfter := Some(page.keys[|page.keys| - 1]);
      if Calm() && !page.isTruncated {
        CoversSize(initial, prefix, account.listed);
      }
    }

    ghost predicate Pushed(more: bool)
      reads this, store, sink
    {
      && Valid() && startAfter.Some? && pendingBatch != [] && startAfter.value == pendingBatch[|pendingBatch| - 1]
      && pages <= 3 * |account.listed| - 2
      && (Calm() && more ==> OnTrack(initial, prefix, account.listed, startAfter, pages))
      && (Calm() && !more ==> Covers(initial, prefix, account.listed) && pages <= |Under(initial, prefix)|)
      && account.more == more && (Calm() ==> FullBatches())
    }

    method TakeKeys(page: KeyPage) returns (step: Step)
      requires Received(page) && page.keys != []
      modifies this`startAfter, this`pendingBatch, this`processed, this`hadRecordedPartialFailure, this`account,
               store, sink
      ensures step.Again? ==> Enumerating()
      ensures step.Verify? ==> Verifying()
      ensures step.Finish? ==> Ends(step.outcome)
    {
      Push(page);
      hide RequestsHooked, Summarise, Under, OnTrack, Covers, ValidKeys, SawEmpty, Elements, Full, Enough, Halted, Ends;
      FullIsEnough(account.deletes, |account.submitted|, pageSize);
      if |pendingBatch| >= pageSize || !page.isTruncated {
        var stop := Flush(!page.isTruncated);
        if stop.Some? {
          StopEnds(stop.value);
          return Finish(Stopped(stop.value));
        }
      }
      if page.isTruncated {
        return Again;
      }
      if hadRecordedPartialFailure {
        Finished();
        return Finish(Done(processed, pages));
      }
      return Verify;
    }

    /** Where nobody else is at work and no key failed, nothing is left to be seen. */
    lemma HeadIsEmpty(page: KeyPage)
      requires Logged() && account.submitted == account.listed && !account.failed
      requires Covers(initial, prefix, account.listed) && store.present == initial - account.removed
      requires Truthful(page, None, store.present, prefix) && ValidKeys(page.keys, prefix, None)
      ensures forall k :: k !in page.keys
    {
      AllAccountedFor(initial, store.log, prefix, pageSize);
    }

    /** A terminal page is only an observation: verify the head of the prefix before success. */
    method VerifyHead() returns (step: Step)
      requires Verifying()
      modifies this`startAfter, this`pages, this`pendingBatch, this`processed, this`hadRecordedPartialFailure,
               this`account, store, sink
      ensures !step.Verify?
      ensures step.Again? ==> Enumerating() && pages > old(pages)
      ensures step.Finish? ==> Ends(step.outcome)
    {
      hide RequestsHooked, Summarise, Full, Enough, Elements, ValidKeys, Under, Covers, Truthful;
      var head := List(true, None, 1);
      if head.Failure? {
        return Finish(Stopped(head.error));
      }
      if head.value.keys == [] {
        if !head.value.isTruncated {
          Finished();
          return Finish(Done(processed, pages));
        }
        return Finish(Stopped(StorageFailed(Operation.List, processed)));
      }
      assert account.listed == account.submitted;
      assert head.value.keys[0] in head.value.keys;
      if Calm() {
        HeadIsEmpty(head.value);
      }
      startAfter := None;
      return Again;
    }

    lemma RemovedIsListed()
      requires Valid()
      ensures forall k | k in account.removed :: k in account.listed
    {
      KeptOrRemoved(store.log, prefix, pageSize);
      hide RequestsHooked, Summarise, ValidKeys;
      assert forall k | k in account.submitted :: k in account.listed;
    }

    method ReceivePage() returns (r: Result<KeyPage, Stop>)
      requires Enumerating()
      modifies this`pages, this`pendingBatch, this`processed, this`hadRecordedPartialFailure, this`account, store, sink
      ensures r.Success? ==> Received(r.value) && pages > old(pages)
      ensures r.Failure? ==> Ends(Stopped(r.error))
    {
      hide RequestsHooked, Summarise, Under, OnTrack, Covers, SawEmpty, Truthful, Elements, ValidKeys, Full, Enough;
      if Calm() {
        OnTrackSize(initial, prefix, account.listed, startAfter, pages);
      }
      RemovedIsListed();
      hide Ends;
      r := List(false, startAfter, pageSize);
      if r.Failure? {
        ListEnds(r.error);
      } else if Calm() {
        NextHonestPage(initial, prefix, old(account.listed), account.removed, startAfter, old(pages), r.value);
      }
    }

    /** List the next page and delete full batches; on the last page, delete everything pending. */
    method Enumerate() returns (step: Step)
      requires Enumerating()
      modifies this`startAfter, this`pages, this`pendingBatch, this`processed, this`hadRecordedPartialFailure,
               this`account, store, sink
      ensures step.Again? ==> Enumerating() && pages > old(pages)
      ensures step.Verify? ==> Verifying() && pages > old(pages)
      ensures step.Finish? ==> Ends(step.outcome)
    {
      var page := ReceivePage();
      if page.Failure? {
        return Finish(Stopped(page.error));
      }
      if page.value.keys == [] {
        step := TakeEmptyPage(page.value);
      } else {
        step := TakeKeys(page.value);
      }
    }

    method Run() returns (r: Outcome)
      requires Enumerating()
      modifies this`startAfter, this`pages, this`pendingBatch, this`processed, this`hadRecordedPartialFailure,
               this`account, store, sink
      ensures Ends(r)
    {
      while true
        invariant Enumerating()
        decreases maxListPages - pages
      {
        var step := Enumerate();
        if step.Verify? {
          step := VerifyHead();
        }
        if step.Finish? {
          return step.outcome;
        }
      }
    }
  }

  /** This many bulk deletes of n keys were all full. */
  predicate Full(deletes: nat, n: nat, pageSize: nat) {
    n == deletes * pageSize
  }

  /** As many bulk deletes as n keys need. */
  predicate Enough(deletes: nat, n: nat, pageSize: nat) {
    (deletes - 1) * pageSize < n <= deletes * pageSize || (n == 0 && deletes == 0)
  }

  lemma OneMoreBatch(deletes: nat, n: nat, size: nat, pageSize: nat)
    requires Full(deletes, n, pageSize) && 1 <= size <= pageSize
    ensures Enough(deletes + 1, n + size, pageSize)
    ensures size == pageSize ==> Full(deletes + 1, n + size, pageSize)
  {
    assert (deletes + 1) * pageSize == deletes * pageSize + pageSize;
  }

  lemma FullIsEnough(deletes: nat, n: nat, pageSize: nat)
    requires pageSize > 0
    ensures Full(deletes, n, pageSize) ==> Enough(deletes, n, pageSize)
  {
    assert (deletes - 1) * pageSize == deletes * pageSize - pageSize;
    assert n == 0 && n == deletes * pageSize ==> deletes == 0;
  }

  /** How far an undisturbed enumeration has come: everything up to the cursor, and not everything. */
  ghost predicate OnTrack(initial: set<Key>, prefix: string, listed: seq<Key>, startAfter: Option<Key>, pages: nat) {
    && Ascending(listed)
    && (forall k | k in listed :: k in Under(initial, prefix))
    && if startAfter.None? then listed == [] && pages == 0
       else
         && listed != [] && startAfter.value == listed[|listed| - 1] && pages <= |listed|
         && (forall k | k in Under(initial, prefix) :: k in listed || Less(startAfter.value, k))
         && exists k :: k in Under(initial, prefix) && Less(startAfter.value, k)
  }

  ghost predicate Covers(initial: set<Key>, prefix: string, listed: seq<Key>) {
    Ascending(listed) && Elements(listed) == Under(initial, prefix)
  }

  lemma OnTrackSize(initial: set<Key>, prefix: string, listed: seq<Key>, startAfter: Option<Key>, pages: nat)
    requires OnTrack(initial, prefix, listed, startAfter, pages)
    ensures startAfter.None? ==> pages == 0 && listed == []
    ensures startAfter.Some? ==> pages <= |listed| < |Under(initial, prefix)|
  {
    AscendingDistinct(listed);
    DistinctSize(listed);
    if startAfter.Some? {
      var more :| more in Under(initial, prefix) && Less(startAfter.value, more);
      BeyondLast(listed, more);
      assert Elements(listed) <= Under(initial, prefix) - {more};
      SubsetOfSameSize(Elements(listed), Under(initial, prefix) - {more});
    }
  }

  lemma CoversSize(initial: set<Key>, prefix: string, listed: seq<Key>)
    requires Covers(initial, prefix, listed)
    ensures |listed| == |Under(initial, prefix)|
  {
    AscendingDistinct(listed);
    DistinctSize(listed);
  }

  /** If all of the prefix was submitted, each of its keys was removed or reported as failed. */
  lemma AllAccountedFor(initial: set<Key>, log: seq<Event>, prefix: string, pageSize: nat)
    requires var s := Summarise(log, prefix, pageSize); s.good && Covers(initial, prefix, s.submitted)
    ensures var s, all := Summarise(log, prefix, pageSize), Under(initial, prefix);
            && |s.submitted| == |all| && Elements(s.submitted) == all
            && s.removed == all - s.kept && (s.failed <==> s.kept != {})
  {
    hide RequestsHooked, Summarise, Under;
    var s := Summarise(log, prefix, pageSize);
    CoversSize(initial, prefix, s.submitted);
    AscendingDistinct(s.submitted);
    KeptOrRemoved(log, prefix, pageSize);
  }

  lemma BeyondLast(listed: seq<Key>, k: Key)
    requires Ascending(listed) && listed != [] && Less(listed[|listed| - 1], k)
    ensures k !in listed
  {
    forall i | 0 <= i < |listed|
      ensures listed[i] != k
    {
      if i < |listed| - 1 {
        Transitive(listed[i], listed[|listed| - 1], k);
      }
      Asymmetric(listed[i], k);
    }
  }

  /** Keys up to the last listed one are listed, so deleting listed keys hides nothing past the cursor. */
  lemma StillAhead(listed: seq<Key>, startAfter: Option<Key>, k: Key)
    requires Ascending(listed)
    requires if startAfter.None? then listed == [] else listed != [] && startAfter.value == listed[|listed| - 1]
    requires PastCursor(k, startAfter)
    ensures k !in listed
  {
    if startAfter.Some? {
      BeyondLast(listed, k);
    }
  }

  /** Deleting listed keys takes nothing away past the cursor. */
  lemma AheadIsPresent(initial: set<Key>, prefix: string, listed: seq<Key>, removed: set<Key>,
                       startAfter: Option<Key>, pages: nat)
    requires OnTrack(initial, prefix, listed, startAfter, pages)
    requires forall k | k in removed :: k in listed
    ensures forall k | k in Under(initial, prefix) && PastCursor(k, startAfter) ::
              k in Under(initial - removed, prefix)
  {
    forall k | k in Under(initial, prefix) && PastCursor(k, startAfter)
      ensures k in Under(initial - removed, prefix)
    {
      StillAhead(listed, startAfter, k);
    }
  }

  lemma NextHonestPage(initial: set<Key>, prefix: string, listed: seq<Key>, removed: set<Key>,
                       startAfter: Option<Key>, pages: nat, page: KeyPage)
    requires OnTrack(initial, prefix, listed, startAfter, pages)
    requires forall k | k in removed :: k in listed
    requires ValidKeys(page.keys, prefix, startAfter)
    requires Truthful(page, startAfter, initial - removed, prefix)
    ensures page.keys == [] ==> startAfter.None? && Under(initial, prefix) == {} && !page.isTruncated
    ensures page.isTruncated ==>
              OnTrack(initial, prefix, listed + page.keys, Some(page.keys[|page.keys| - 1]), pages + 1)
    ensures !page.isTruncated ==> Covers(initial, prefix, listed + page.keys)
    ensures page.keys != [] ==> pages + 1 <= |listed + page.keys|
  {
    hide Distinct;
    var present := initial - removed;
    var all := listed + page.keys;
    AheadIsPresent(initial, prefix, listed, removed, startAfter, pages);
    assert forall k | k in Under(present, prefix) :: k in Under(initial, prefix);
    assert forall k :: k in all <==> k in listed || k in page.keys;
    AscendingAppend(listed, page.keys);
    hide Ascending, Less, Elements;
    assert forall k | k in all :: k in Under(initial, prefix);
    hide Under;
    assert forall k | k in Under(initial, prefix) ::
        k in all || (page.isTruncated && page.keys != [] && Less(page.keys[|page.keys| - 1], k));
    if page.isTruncated {
      var more :| more in Under(present, prefix) && PastCursor(more, startAfter) && more !in page.keys;
      assert more in Under(initial, prefix) && Less(page.keys[|page.keys| - 1], more);
    }
  }

  lemma CutKeys(keys: seq<Key>, n: nat, prefix: string, submitted: seq<Key>)
    requires n <= |keys| && ValidKeys(keys, prefix, None)
    ensures ValidKeys(keys[..n], prefix, None) && ValidKeys(keys[n..], prefix, None)
    ensures submitted + keys == (submitted + keys[..n]) + keys[n..]
  {
    assert forall k :: k in keys[..n] || k in keys[n..] ==> k in keys;
  }

  lemma SuffixOfSuffix<T>(a: seq<T>, b: seq<T>, c: seq<T>)
    ensures IsSuffix(a, a)
    ensures IsSuffix(a, b) && IsSuffix(b, c) ==> IsSuffix(a, c)
  {
  }

  ghost predicate IsSuffix<T>(s: seq<T>, t: seq<T>) {
    |s| <= |t| && s == t[|t| - |s|..]
  }
}
