/**
 * A bucket under an adversary. Before every request anyone may add and remove keys or abort
 * the caller's signal; a request may fail with or without effect; an answer may be anything.
 * What happened is kept in a ghost log;
 * Rejected marks an argument that the storage port refused without a request.
 */
module Bucket {
  import opened Wrappers
  import opened ObjectStorage

  /** What the rest of the world does around one request. */
  datatype Turn = Turn(
    added: set<Key>, removed: set<Key>, abortsBefore: bool, abortsDuring: bool, hookFails: bool,
    listing: Option<ListResponse>, applied: set<Key>, deletion: Option<DeleteResponse>, recordFails: bool)

  datatype Event =
    | Hooked(ok: bool, quiet: bool, aborted: bool)
    | Listed(verifying: bool, startAfter: Option<Key>, maxKeys: int, present: set<Key>, quiet: bool,
             answer: Result<KeyPage, StorageError>, aborted: bool)
    | Deleted(batch: seq<Key>, before: set<Key>, after: set<Key>, quiet: bool,
              outcome: Result<DeleteOutcome, StorageError>, aborted: bool)
    | Recorded(ok: bool, quiet: bool)
    | Rejected

  ghost predicate ValidBatch(keys: seq<Key>) {
    1 <= |keys| <= MAX_S3_KEYS && Distinct(keys)
  }

  class Storage {
    const script: nat -> Turn
    var turns: nat
    var present: set<Key>
    var aborted: bool
    ghost var log: seq<Event>

    constructor (script: nat -> Turn, present: set<Key>, aborted: bool)
      ensures this.script == script && this.present == present && this.aborted == aborted
      ensures turns == 0 && log == []
    {
      this.script, this.present, this.aborted, turns, log := script, present, aborted, 0, [];
    }

    /** Everyone else moves. */
    method Meanwhile() returns (turn: Turn, ghost quiet: bool)
      modifies this
      ensures log == old(log)
      ensures old(aborted) ==> aborted
      ensures turn == script(old(turns)) && turns == old(turns) + 1
      ensures present == old(present) - turn.removed + turn.added
      ensures quiet <==> present == old(present)
    {
      turn := script(turns);
      turns := turns + 1;
      present := present - turn.removed + turn.added;
      aborted := aborted || turn.abortsBefore;
      quiet := present == old(present);
    }

    /** The caller's own code between requests: it may throw. */
    method Hook() returns (ok: bool, ghost event: Event)
      modifies this
      ensures event.Hooked? && event == Hooked(ok, event.quiet, aborted) && log == old(log) + [event]
      ensures event.quiet ==> present == old(present)
      ensures old(aborted) ==> aborted
    {
      var turn, quiet := Meanwhile();
      ok := !turn.hookFails;
      event := Hooked(ok, quiet, aborted);
      log := log + [event];
    }

    method ListKeyPage(ghost verifying: bool, prefix: string, startAfter: Option<Key>, maxKeys: int)
      returns (r: Result<KeyPage, StorageError>, ghost event: Event)
      modifies this
      ensures !(1 <= maxKeys <= MAX_S3_KEYS) ==> r == Failure(InvalidPageSize) && log == old(log) + [Rejected]
      ensures 1 <= maxKeys <= MAX_S3_KEYS ==>
                && event.Listed? && log == old(log) + [event]
                && event == Listed(verifying, startAfter, maxKeys, present, event.quiet, r, aborted)
                && (event.quiet ==> present == old(present))
      ensures old(aborted) ==> aborted
      ensures r.Success? ==> ValidPage(r.value, prefix, startAfter)
    {
      if maxKeys < 1 || maxKeys > MAX_S3_KEYS {
        r := Failure(InvalidPageSize);
        event := Rejected;
        log := log + [event];
        return;
      }
      var turn, quiet := Meanwhile();
      if turn.listing.None? {
        r := Failure(RequestFailed);
      } else {
        r := ReadKeyPage(turn.listing.value, prefix, startAfter);
      }
      aborted := aborted || turn.abortsDuring;
      event := Listed(verifying, startAfter, maxKeys, present, quiet, r, aborted);
      log := log + [event];
    }

    method DeleteKeys(keys: seq<Key>) returns (r: Result<DeleteOutcome, StorageError>, ghost event: Event)
      modifies this
      ensures !ValidBatch(keys) ==> r.Failure? && log == old(log) + [Rejected]
      ensures ValidBatch(keys) ==>
                && event.Deleted? && log == old(log) + [event]
                && event == Deleted(keys, event.before, present, event.quiet, r, aborted)
                && (event.quiet ==> event.before == old(present))
                && event.before - Elements(keys) <= present <= event.before
      ensures old(aborted) ==> aborted
      ensures r.Success? ==> Splits(r.value, keys)
    {
      if |keys| < 1 || |keys| > MAX_S3_KEYS {
        r := Failure(InvalidBatchSize);
        event := Rejected;
        log := log + [event];
        return;
      }
      DistinctSize(keys);
      if |set k | k in keys| != |keys| {
        r := Failure(RepeatedKey);
        event := Rejected;
        log := log + [event];
        return;
      }
      var turn, quiet := Meanwhile();
      ghost var before := present;
      present := present - (turn.applied * set k | k in keys);
      if turn.deletion.None? {
        r := Failure(RequestFailed);
      } else {
        r := ReadDeleteResponse(keys, turn.deletion.value);
      }
      aborted := aborted || turn.abortsDuring;
      event := Deleted(keys, before, present, quiet, r, aborted);
      log := log + [event];
    }

    /** Write a durable row to the orphan queue. */
    method RecordOrphan() returns (ok: bool, ghost event: Event)
      modifies this
      ensures event.Recorded? && event.ok == ok && log == old(log) + [event]
      ensures event.quiet ==> present == old(present)
      ensures old(aborted) ==> aborted
    {
      var turn, quiet := Meanwhile();
      ok := !turn.recordFails;
      event := Recorded(ok, quiet);
      log := log + [event];
    }
  }
}
