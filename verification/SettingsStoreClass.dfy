/** The settings store as an object whose closure state each synchronous stretch of code updates. */
module SettingsStoreClass {
  import opened Wrappers
  import opened SettingsStore

  class CachedSettingsStore {
    const ttl: nat
    var cache: Option<Entry>
    var load: Load
    var generation: nat
    var closed: bool
    var now: nat
    var nextId: nat
    ghost var world: State  // the database, the requests in flight and the newest processed response

    constructor (ttl: nat)
      ensures Abs() == INITIAL && Inv(Abs()) && this.ttl == ttl
    {
      this.ttl, cache, load, generation, closed, now, nextId := ttl, None, NoLoad, 0, false, 0, 0;
      world := INITIAL;
    }

    ghost function Abs(): State
      reads this
    {
      world.(cache := cache, load := load, generation := generation, closed := closed, now := now, nextId := nextId)
    }

    method LoadShared()
      requires !closed
      modifies this
      ensures Abs() == BeginLoad(old(Abs()))
    {
      if load.NoLoad? {
        load, nextId := Loading(nextId, generation, None), nextId + 1;
        world := world.(outstanding := world.outstanding + 1);
      }
    }

    /** Answers from a live cache entry, or joins or begins the shared load. */
    method GetSettings() returns (answer: Option<nat>)
      requires Inv(Abs())
      modifies this
      ensures answer.Some? <==> !closed && cache.Some? && now < cache.value.installedAt + ttl
      ensures answer.Some? ==> answer.value == cache.value.version
      ensures answer == Cached(old(Abs()), ttl)
      ensures Abs() == After(old(Abs()), Get, ttl) && Inv(Abs())
      ensures cache == old(cache) && generation == old(generation)
      ensures answer.Some? ==> load == old(load)
      ensures answer.None? && !closed ==> !load.NoLoad? && (!old(load).NoLoad? ==> load == old(load))
    {
      StepKeeps(Abs(), Get, ttl);
      if closed {
        return None;
      }
      if cache.Some? && now < cache.value.installedAt + ttl {
        return Some(cache.value.version);
      }
      LoadShared();
      return None;
    }

    method ReloadSettings()
      requires Inv(Abs())
      modifies this
      ensures Abs() == After(old(Abs()), Reload, ttl) && Inv(Abs())
      ensures cache == None && (!closed ==> generation > old(generation) && !load.NoLoad?)
    {
      StepKeeps(Abs(), Reload, ttl);
      if !closed {
        generation, cache := generation + 1, None;
        LoadShared();
      }
    }

    method InvalidateCache()
      requires Inv(Abs())
      modifies this
      ensures Abs() == After(old(Abs()), Invalidate, ttl) && Inv(Abs())
      ensures cache == None && load == old(load)
    {
      StepKeeps(Abs(), Invalidate, ttl);
      if !closed {
        generation, cache := generation + 1, None;
      }
    }

    method CloseNow()
      requires Inv(Abs())
      modifies this
      ensures Abs() == After(old(Abs()), CloseStore, ttl) && Inv(Abs())
      ensures closed && cache == None
    {
      StepKeeps(Abs(), CloseStore, ttl);
      if !closed {
        closed, generation, cache := true, generation + 1, None;
      }
    }

    /** The row of the shared load arrives: it is installed only if nothing superseded the load. */
    method OnLoaded(version: nat)
      requires Inv(Abs()) && Enabled(Abs(), LoadResponds) && load.read == Some(version)
      modifies this
      ensures Abs() == After(old(Abs()), LoadResponds, ttl) && Inv(Abs())
      ensures closed || generation != old(load).generation ==> cache == old(cache)
      ensures !closed && generation == old(load).generation ==> cache == Some(Entry(version, now))
      ensures generation == old(generation) && load.Settled?
    {
      StepKeeps(Abs(), LoadResponds, ttl);
      if !closed && generation == load.generation {
        cache := Some(Entry(version, now));
      }
      load := Settled(load.id);
      world := world.(outstanding := world.outstanding - 1);
    }

    /** The row of an update arrives and replaces whatever is cached. */
    method OnUpdated(ghost id: nat, version: nat)
      requires Inv(Abs()) && Enabled(Abs(), UpdateResponds(id)) && world.updates[id] == Some(version)
      modifies this
      ensures Abs() == After(old(Abs()), UpdateResponds(id), ttl) && Inv(Abs())
      ensures closed ==> cache == None
      ensures !closed ==> cache == Some(Entry(version, now)) && generation > old(generation)
      ensures load == old(load)
    {
      StepKeeps(Abs(), UpdateResponds(id), ttl);
      if !closed {
        generation, cache := generation + 1, Some(Entry(version, now));
        world := world.(processed := if version > world.processed then version else world.processed);
      }
      world := world.(updates := world.updates - {id});
    }
  }
}
