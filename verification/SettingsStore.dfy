/**
 * The cached settings store: a generation-guarded, single-flight cache in front of a repository.
 * Every await is a step boundary; a version is the number of commits the repository has seen.
 */
module SettingsStore {
  import opened Wrappers

  datatype Entry = Entry(version: nat, installedAt: nat)

  /** The shared load: requested, perhaps already answered by the database, settled, then cleared. */
  datatype Load = NoLoad | Loading(id: nat, generation: nat, read: Option<nat>) | Settled(id: nat)

  datatype State = State(
    cache: Option<Entry>, load: Load, generation: nat, closed: bool, now: nat,
    committed: nat, updates: map<nat, Option<nat>>,  // open updates, and the version each was committed as
    nextId: nat, outstanding: nat, processed: nat)   // requests in flight; newest processed update response

  datatype Step =
    | Get
    | Reload
    | CallUpdate
    | Invalidate
    | CloseStore
    | DatabaseReads
    | LoadResponds
    | LoadFails
    | LoadClears
    | UpdateCommits(id: nat)
    | UpdateResponds(id: nat)
    | UpdateFails(id: nat)
    | OtherCommit
    | Tick(ms: nat)

  function BeginLoad(s: State): State {
    if s.closed || !s.load.NoLoad? then s
    else s.(load := Loading(s.nextId, s.generation, None), nextId := s.nextId + 1, outstanding := s.outstanding + 1)
  }

  /** The cached version a get answers with, if it does. */
  function Cached(s: State, ttl: nat): Option<nat> {
    if !s.closed && s.cache.Some? && s.now < s.cache.value.installedAt + ttl then Some(s.cache.value.version) else None
  }

  predicate Enabled(s: State, step: Step) {
    match step
    case DatabaseReads => s.load.Loading? && s.load.read.None?
    case LoadResponds => s.load.Loading? && s.load.read.Some? && s.outstanding > 0
    case LoadFails => s.load.Loading? && s.outstanding > 0
    case LoadClears => s.load.Settled?
    case UpdateCommits(id) => id in s.updates && s.updates[id].None?
    case UpdateResponds(id) => id in s.updates && s.updates[id].Some?
    case UpdateFails(id) => id in s.updates
    case _ => true
  }

  function Next(s: State, step: Step, ttl: nat): State
    requires Enabled(s, step)
  {
    match step
    case Get => if Cached(s, ttl).Some? then s else BeginLoad(s)
    case Reload => if s.closed then s else BeginLoad(s.(generation := s.generation + 1, cache := None))
    case CallUpdate => if s.closed then s else s.(updates := s.updates[s.nextId := None], nextId := s.nextId + 1)
    case Invalidate => if s.closed then s else s.(generation := s.generation + 1, cache := None)
    case CloseStore => if s.closed then s else s.(closed := true, generation := s.generation + 1, cache := None)
    case DatabaseReads => s.(load := s.load.(read := Some(s.committed)))
    case LoadResponds =>
      var s1 := s.(load := Settled(s.load.id), outstanding := s.outstanding - 1);
      if s.closed || s.generation != s.load.generation then s1
      else s1.(cache := Some(Entry(s.load.read.value, s.now)))
    case LoadFails => s.(load := Settled(s.load.id), outstanding := s.outstanding - 1)
    case LoadClears => s.(load := NoLoad)
    case UpdateCommits(id) => s.(committed := s.committed + 1, updates := s.updates[id := Some(s.committed + 1)])
    case UpdateResponds(id) =>
      var version := s.updates[id].value;
      var s1 := s.(updates := s.updates - {id});
      if s.closed then s1
      else s1.(generation := s.generation + 1, cache := Some(Entry(version, s.now)),
               processed := if version > s.processed then version else s.processed)
    case UpdateFails(id) => s.(updates := s.updates - {id})
    case OtherCommit => s.(committed := s.committed + 1)
    case Tick(ms) => s.(now := s.now + ms)
  }

  function After(s: State, step: Step, ttl: nat): State {
    if Enabled(s, step) then Next(s, step, ttl) else s
  }

  function Run(s: State, steps: seq<Step>, ttl: nat): State
    decreases |steps|
  {
    if steps == [] then s else Run(After(s, steps[0], ttl), steps[1..], ttl)
  }

  const INITIAL := State(None, NoLoad, 0, false, 0, 0, map[], 0, 0, 0)

  // ----- freshness -----

  /** The cache is at least as new as every update whose response was processed. */
  ghost predicate Fresh(s: State) {
    s.cache.Some? ==> s.cache.value.version >= s.processed
  }

  /** An update response that arrives at an open store is not older than one processed before it. */
  ghost predicate InCommitOrder(s: State, step: Step) {
    step.UpdateResponds? && Enabled(s, step) && !s.closed ==> s.updates[step.id].value >= s.processed
  }

  ghost predicate Inv(s: State) {
    && s.processed <= s.committed
    && (forall id | id in s.updates :: s.updates[id].Some? ==> s.updates[id].value <= s.committed)
    && (s.load.Loading? ==> s.load.generation <= s.generation && s.load.id < s.nextId)
    && (s.load.Loading? && s.load.generation == s.generation && s.load.read.Some? ==> s.load.read.value >= s.processed)
    && s.outstanding == (if s.load.Loading? then 1 else 0)
    && (s.closed ==> s.cache.None?)
    && (s.cache.Some? ==> s.cache.value.installedAt <= s.now)
  }

  lemma StepKeeps(s: State, step: Step, ttl: nat)
    requires Inv(s)
    ensures Inv(After(s, step, ttl)) && s.generation <= After(s, step, ttl).generation
    ensures Fresh(s) ==> (Fresh(After(s, step, ttl)) <==> InCommitOrder(s, step))
  {
  }

  ghost predicate AlwaysFresh(s: State, steps: seq<Step>, ttl: nat)
    decreases |steps|
  {
    Fresh(s) && (steps != [] ==> AlwaysFresh(After(s, steps[0], ttl), steps[1..], ttl))
  }

  ghost predicate AlwaysInOrder(s: State, steps: seq<Step>, ttl: nat)
    decreases |steps|
  {
    steps != [] ==> InCommitOrder(s, steps[0]) && AlwaysInOrder(After(s, steps[0], ttl), steps[1..], ttl)
  }

  /**
   * The cache never falls behind a processed update exactly when update responses are processed in
   * commit order; loads, reloads, invalidations and other writers cannot break it.
   */
  lemma {:induction false} FreshIffInOrder(s: State, steps: seq<Step>, ttl: nat)
    requires Inv(s) && Fresh(s)
    ensures AlwaysFresh(s, steps, ttl) <==> AlwaysInOrder(s, steps, ttl)
    decreases |steps|
  {
    if steps == [] {
    } else {
      StepKeeps(s, steps[0], ttl);
      if InCommitOrder(s, steps[0]) {
        FreshIffInOrder(After(s, steps[0], ttl), steps[1..], ttl);
      } else {
        assert !Fresh(After(s, steps[0], ttl));
      }
    }
  }

  /** Two updates committed in one order and answered in the other leave a stale cache. */
  lemma OutOfOrderIsStale(ttl: nat)
    ensures var steps := [CallUpdate, CallUpdate, UpdateCommits(0), UpdateCommits(1), UpdateResponds(1),
                          UpdateResponds(0)];
            !Fresh(Run(INITIAL, steps, ttl))
  {
    var s1 := After(After(INITIAL, CallUpdate, ttl), CallUpdate, ttl);
    assert s1.updates == map[0 := None, 1 := None];
    var s2 := After(After(s1, UpdateCommits(0), ttl), UpdateCommits(1), ttl);
    assert s2.updates == map[0 := Some(1), 1 := Some(2)];
    var s3 := After(s2, UpdateResponds(1), ttl);
    var s4 := After(s3, UpdateResponds(0), ttl);
    assert s4.processed == 2 && s4.cache.value.version == 1;
    assert Run(s4, [], ttl) == s4;
    assert Run(s3, [UpdateResponds(0)], ttl) == s4;
    assert Run(s2, [UpdateResponds(1), UpdateResponds(0)], ttl) == s4;
    assert Run(s1, [UpdateCommits(0), UpdateCommits(1), UpdateResponds(1), UpdateResponds(0)], ttl) == s4;
  }

  lemma {:induction false} RunKeeps(s: State, steps: seq<Step>, ttl: nat)
    requires Inv(s)
    ensures Inv(Run(s, steps, ttl)) && s.generation <= Run(s, steps, ttl).generation
    decreases |steps|
  {
    if steps == [] {
    } else {
      StepKeeps(s, steps[0], ttl);
      RunKeeps(After(s, steps[0], ttl), steps[1..], ttl);
    }
  }

  // ----- the generation guard -----

  /** A step that completes an update or drops the cache of an open store. */
  predicate Supersedes(s: State, step: Step) {
    !s.closed && Enabled(s, step) && (step.UpdateResponds? || step.Invalidate? || step.Reload? || step.CloseStore?)
  }

  lemma SupersedingBumps(s: State, step: Step, ttl: nat)
    requires Inv(s) && Supersedes(s, step)
    ensures After(s, step, ttl).generation > s.generation
  {
  }

  lemma StepKeepsLoad(s: State, step: Step, ttl: nat)
    requires Inv(s)
    ensures var s' := After(s, step, ttl);
            s.nextId <= s'.nextId
            && (s'.load.Loading? && s'.load.id < s.nextId ==>
                  s.load.Loading? && s.load.id == s'.load.id && s.load.generation == s'.load.generation)
  {
  }

  /** A load is the same shared load, or already gone. */
  lemma {:induction false} LoadKeepsGeneration(s: State, steps: seq<Step>, ttl: nat, id: nat, generation: nat)
    requires Inv(s) && id < s.nextId && (s.load.Loading? && s.load.id == id ==> s.load.generation == generation)
    ensures var s' := Run(s, steps, ttl);
            s'.load.Loading? && s'.load.id == id ==> s'.load.generation == generation
    decreases |steps|
  {
    if steps == [] {
    } else {
      StepKeeps(s, steps[0], ttl);
      StepKeepsLoad(s, steps[0], ttl);
      hide Inv, After;
      LoadKeepsGeneration(After(s, steps[0], ttl), steps[1..], ttl, id, generation);
    }
  }

  /** A load begun before an update or invalidation completed is never installed, however long it takes. */
  lemma SupersededLoadNeverInstalls(s: State, step: Step, steps: seq<Step>, ttl: nat)
    requires Inv(s) && s.load.Loading? && Supersedes(s, step)
    ensures var s' := Run(After(s, step, ttl), steps, ttl);
            s'.load.Loading? && s'.load.id == s.load.id ==> After(s', LoadResponds, ttl).cache == s'.cache
  {
    SupersedingBumps(s, step, ttl);
    StepKeeps(s, step, ttl);
    var s1 := After(s, step, ttl);
    RunKeeps(s1, steps, ttl);
    LoadKeepsGeneration(s1, steps, ttl, s.load.id, s.load.generation);
  }

  /** At most one load is outstanding, and a closed store never holds or installs anything. */
  lemma SingleFlight(steps: seq<Step>, ttl: nat)
    ensures var s := Run(INITIAL, steps, ttl);
            s.outstanding <= 1 && (s.closed ==> s.cache.None?)
  {
    RunKeeps(INITIAL, steps, ttl);
  }

  lemma {:induction false} ClosedStays(s: State, steps: seq<Step>, ttl: nat)
    requires Inv(s) && s.closed
    ensures var s' := Run(s, steps, ttl); s'.closed && s'.cache.None? && s'.outstanding <= s.outstanding
    decreases |steps|
  {
    if steps == [] {
    } else {
      StepKeeps(s, steps[0], ttl);
      ClosedStays(After(s, steps[0], ttl), steps[1..], ttl);
    }
  }

  /** In commit order, a get answered from the cache gives no version older than any processed update. */
  lemma CachedAnswerIsCurrent(steps: seq<Step>, ttl: nat)
    requires AlwaysInOrder(INITIAL, steps, ttl)
    ensures var s := Run(INITIAL, steps, ttl);
            Cached(s, ttl).Some? ==>
              Cached(s, ttl).value >= s.processed
              && s.cache.value.installedAt <= s.now < s.cache.value.installedAt + ttl
  {
    FreshIffInOrder(INITIAL, steps, ttl);
    FreshAtEnd(INITIAL, steps, ttl);
    RunKeeps(INITIAL, steps, ttl);
  }

  lemma {:induction false} FreshAtEnd(s: State, steps: seq<Step>, ttl: nat)
    requires AlwaysFresh(s, steps, ttl)
    ensures Fresh(Run(s, steps, ttl))
    decreases |steps|
  {
    if steps == [] {
    } else {
      FreshAtEnd(After(s, steps[0], ttl), steps[1..], ttl);
    }
  }
}
