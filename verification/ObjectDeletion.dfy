/**
 * The deletion coordinator: a prefix deletion returns normally only when the prefix was seen
 * empty or a durable row says that it must be deleted again.
 */
module ObjectDeletion {
  import opened Wrappers
  import opened ObjectStorage
  import opened Bucket
  import opened PrefixHistory
  import opened PrefixDeletion

  datatype PrefixResult =
    | Returned(processed: nat)
    | DurablePrefixDeletionError
    | HookError
    | AbortReason
    | ArgumentError

  function OrDefault(given: Option<int>, default: int): int {
    if given.Some? then given.value else default
  }

  class Coordinator {
    const store: Storage
    const prefixPageSize: Option<int>
    const prefixMaxListPages: Option<int>

    constructor (store: Storage, prefixPageSize: Option<int>, prefixMaxListPages: Option<int>)
      ensures this.store == store
      ensures this.prefixPageSize == prefixPageSize && this.prefixMaxListPages == prefixMaxListPages
    {
      this.store, this.prefixPageSize, this.prefixMaxListPages := store, prefixPageSize, prefixMaxListPages;
    }

    function PageSize(): int {
      OrDefault(prefixPageSize, DEFAULT_PAGE_SIZE)
    }

    function MaxListPages(): int {
      OrDefault(prefixMaxListPages, DEFAULT_MAX_LIST_PAGES)
    }

    predicate ValidLimits() {
      1 <= PageSize() <= DEFAULT_PAGE_SIZE && PageSize() <= MaxListPages()
    }

    /** What the log of one call adds up to. */
    ghost function Account(prefix: string): Summary
      requires ValidLimits()
      reads store
    {
      Summarise(store.log, prefix, PageSize())
    }

    /** Delete the pages of a prefix, reporting failed keys to the sink. */
    method DeletePrefixPages(sink: FailureSink, prefix: string) returns (outcome: Outcome, ghost run: PrefixRun?)
      requires sink.store == store && store.log == [] && !sink.prefixRecorded
      modifies sink, store
      ensures outcome.InvalidArguments? <==> !ValidLimits()
      ensures outcome.InvalidArguments? ==> unchanged(store)
      ensures ValidLimits() ==>
                && run != null && run.store == store && run.sink == sink && run.prefix == prefix
                && run.pageSize == PageSize() && run.maxListPages == MaxListPages() && run.initial == old(store.present)
                && run.Ends(outcome)
    {
      run := null;
      if PageSize() < 1 || PageSize() > DEFAULT_PAGE_SIZE || MaxListPages() < 1 || MaxListPages() < PageSize() {
        return InvalidArguments, run;
      }
      var started := new PrefixRun(store, sink, prefix, PageSize(), MaxListPages());
      run := started;
      outcome := started.Run();
    }

    method DeletePrefixOrQueue(prefix: string) returns (r: PrefixResult)
      modifies store
      ensures r.ArgumentError? <==> !ValidLimits()
      ensures var size := if prefixPageSize.Some? then prefixPageSize.value else 1000;
              var pages := if prefixMaxListPages.Some? then prefixMaxListPages.value else 1000;
              r.ArgumentError? <==> size < 1 || size > 1000 || pages < size
      // the guarantee: seen empty by the very last storage operation, or durably queued in this call
      ensures r.Returned? ==>
                (store.log != [] && SawEmpty(store.log[|store.log| - 1])) || Account(prefix).records == [true]
      ensures r.Returned? ==> r.processed == |Account(prefix).submitted|
      // every request came after its hook, every batch was well formed and the storage port rejected nothing
      ensures ValidLimits() ==> RequestsHooked(store.log)
      ensures ValidLimits() ==> Account(prefix).good && Account(prefix).submitted <= Account(prefix).listed
      // at most one attempt to record, and a failed one is never hidden
      ensures ValidLimits() ==> |Account(prefix).records| <= 1
      ensures ValidLimits() ==> (r.DurablePrefixDeletionError? <==> Account(prefix).records == [false])
      // the other ways out
      ensures r.HookError? ==> store.log != [] && var e := store.log[|store.log| - 1]; e.Hooked? && !e.ok
      ensures r.AbortReason? ==> store.aborted
      // undisturbed but for keys that cannot be deleted, it submits the whole prefix and nothing else, in full batches
      ensures ValidLimits() && Account(prefix).honest && !store.aborted
              && |Under(old(store.present), prefix)| < MaxListPages() ==>
                && r == Returned(|Under(old(store.present), prefix)|)
                && Elements(Account(prefix).submitted) == Under(old(store.present), prefix)
                && store.present == old(store.present) - (Under(old(store.present), prefix) - Account(prefix).kept)
                && Account(prefix).listings <= |Under(old(store.present), prefix)| + 1
                && Enough(Account(prefix).deletes, |Under(old(store.present), prefix)|, PageSize())
                && Account(prefix).records == if Account(prefix).kept == {} then [] else [true]
      // whoever else is at work: where only single keys fail, nothing that was listed is left out
      ensures ValidLimits() && (forall e | e in store.log :: !Troubled(e)) && !store.aborted ==>
                && r == Returned(|Account(prefix).listed|) && Account(prefix).submitted == Account(prefix).listed
                && (Account(prefix).more ==> Account(prefix).listings == MaxListPages())
    {
      store.log := [];
      var sink := new FailureSink(store);
      var outcome, run := DeletePrefixPages(sink, prefix);
      if outcome.InvalidArguments? {
        return ArgumentError;
      }
      if outcome.Done? {
        return Returned(outcome.processed);
      }
      r := Settle(outcome.stop, sink, run, prefix);
    }

    /** The coordinator's catch block. */
    method Settle(stop: Stop, sink: FailureSink, ghost run: PrefixRun, prefix: string) returns (r: PrefixResult)
      requires ValidLimits() && run.store == store && run.sink == sink && sink.store == store
      requires run.prefix == prefix && run.pageSize == PageSize() && run.Halted(stop)
      modifies store
      ensures r.Returned? ==> Account(prefix).records == [true] && r.processed == |Account(prefix).submitted|
      ensures RequestsHooked(store.log) && Account(prefix).good && Account(prefix).submitted <= Account(prefix).listed
      ensures var a := Account(prefix); a == old(Account(prefix)).(records := a.records, honest := a.honest)
      ensures old(store.log) <= store.log && (old(store.aborted) ==> store.aborted)
      ensures (forall e | e in store.log :: !Troubled(e)) && !store.aborted ==>
                stop.PageBudget? && r == Returned(stop.processed)
      ensures |Account(prefix).records| <= 1
      ensures r.DurablePrefixDeletionError? <==> Account(prefix).records == [false]
      ensures r.HookError? ==> store.log != [] && var e := store.log[|store.log| - 1]; e.Hooked? && !e.ok
      ensures r.AbortReason? ==> store.aborted
      ensures !r.ArgumentError?
      // which way out: an abort is reported before anything is recorded, and nothing is recorded twice
      ensures r.HookError? <==> stop.HookThrew?
      ensures r.AbortReason? <==> (stop.StorageFailed? || stop.PageBudget?) && old(store.aborted)
      ensures r.HookError? || r.AbortReason? || stop.QueueFailed? || old(sink.prefixRecorded) ==> unchanged(store)
      ensures stop.QueueFailed? ==> r.DurablePrefixDeletionError?
      ensures r.Returned? ==> r.processed == stop.processed
      ensures Account(prefix).honest && !store.aborted ==> stop.PageBudget? && old(run.Calm())
    {
      hide RequestsHooked, Summarise, Elements, Distinct;
      assert store.log != [] ==> store.log[|store.log| - 1] in store.log;
      if stop.HookThrew? {
        return HookError;
      }
      if stop.QueueFailed? {
        return DurablePrefixDeletionError;
      }
      if store.aborted {
        return AbortReason;
      }
      if !sink.prefixRecorded {
        ghost var before := store.log;
        var ok, e := store.RecordOrphan();
        Extend(before, e, prefix, PageSize());
        HookedExtend(before, e);
        assert e in store.log && (!ok ==> Troubled(e));
        if !ok {
          return DurablePrefixDeletionError;
        }
      }
      return Returned(stop.processed);
    }
  }
}
