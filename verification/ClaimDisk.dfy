/** What a claim guarantees about the names that are left on disk when the machine crashes at any step. */
module ClaimDisk {
  import opened Wrappers
  import opened ClaimFile
  import opened ClaimNames

  // ----- the log -----

  lemma {:induction false} LogGrows(entries: map<Path, Inode>, log: seq<Change>, change: Change, p: Path, k: nat)
    requires k <= |log|
    ensures ValueAt(entries, log + [change], p, k) == ValueAt(entries, log, p, k)
  {
    if k == 0 {
    } else {
      LogGrows(entries, log, change, p, k - 1);
    }
  }

  lemma Grown(entries: map<Path, Inode>, log: seq<Change>, change: Change)
    ensures forall p, k: nat | k <= |log| :: ValueAt(entries, log + [change], p, k) == ValueAt(entries, log, p, k)
    ensures forall p ::
              ValueAt(entries, log + [change], p, |log| + 1) == Effect(change, p, ValueAt(entries, log, p, |log|))
  {
    forall p, k: nat | k <= |log| ensures ValueAt(entries, log + [change], p, k) == ValueAt(entries, log, p, k) {
      LogGrows(entries, log, change, p, k);
    }
    forall p
      ensures ValueAt(entries, log + [change], p, |log| + 1) == Effect(change, p, ValueAt(entries, log, p, |log|))
    {
      LogGrows(entries, log, change, p, |log|);
    }
  }

  lemma GrownAt(entries: map<Path, Inode>, log: seq<Change>, change: Change, p: Path)
    ensures ValueAt(entries, log + [change], p, |log| + 1) == Effect(change, p, ValueAt(entries, log, p, |log|))
  {
    hide Effect;
    LogGrows(entries, log, change, p, |log|);
  }

  lemma {:induction false} MovesEndAfterMoves(log: seq<Change>)
    ensures MovesEnd(log) <= |log|
    ensures forall m | 0 <= m < |log| && log[m].Move? :: m < MovesEnd(log)
  {
    if log == [] {
    } else {
      MovesEndAfterMoves(log[..|log| - 1]);
    }
  }

  // ----- the invariant -----

  /** A path leads to the same whenever its directory has at least `from` and at most `to` changes. */
  ghost predicate Steady(entries: map<Path, Inode>, log: seq<Change>, p: Path, from: nat, to: nat,
                         value: Option<Inode>) {
    forall k: nat | from <= k <= to && k <= |log| :: ValueAt(entries, log, p, k) == value
  }

  /** The names are the disk with every change, and the only move is the claim. */
  ghost predicate Agrees(c: Call, s: State) {
    && (forall p :: ValueAt(s.disk.entries, s.disk.log, p, |s.disk.log|) == Lookup(s.names, p))
    && Possible(c, s.disk.log, s.disk.written)
  }

  ghost predicate OneMove(s: State) {
    && (s.claimed.Some? ==> s.notes.claimAt < |s.disk.log| && s.disk.log[s.notes.claimAt].Move?)
    && forall i | 0 <= i < |s.disk.log| && s.disk.log[i].Move? :: s.claimed.Some? && i == s.notes.claimAt
  }

  /** The quarantine name leads to the claimed file from the claim to the unlink. */
  ghost predicate QuarantineSide(s: State) {
    var n := |s.disk.log|;
    s.claimed.Some? ==>
      match s.notes.dropAt
      case None => Steady(s.disk.entries, s.disk.log, s.quarantine, s.notes.claimAt + 1, n, s.claimed)
      case Some(u) =>
        && s.notes.claimAt < u < n
        && Steady(s.disk.entries, s.disk.log, s.quarantine, s.notes.claimAt + 1, u, s.claimed)
        && Steady(s.disk.entries, s.disk.log, s.quarantine, u + 1, n, None)
  }

  /** The source leads to a durably claimed file until the claim, and to a restored one from the link on. */
  ghost predicate SourceSide(c: Call, s: State) {
    && (s.notes.durable ==>
          && s.claimed.Some?
          && Steady(s.disk.entries, s.disk.log, c.source, s.disk.written.source, s.notes.claimAt, s.claimed))
    && (s.restored ==>
          && s.claimed.Some? && s.notes.claimAt < s.notes.linkAt < |s.disk.log|
          && ValueAt(s.disk.entries, s.disk.log, c.source, s.notes.linkAt) == None
          && (s.notes.dropAt.Some? ==> s.notes.linkAt < s.notes.dropAt.value)
          && (!s.notes.takenByWriter ==>
                Steady(s.disk.entries, s.disk.log, c.source, s.notes.linkAt + 1, |s.disk.log|, s.claimed)))
    && (s.claimed.Some? && !s.restored && !s.notes.putAgain ==>
          forall k: nat | s.notes.claimAt < k <= |s.disk.log| ::
            ValueAt(s.disk.entries, s.disk.log, c.source, k) != s.claimed)
  }

  predicate PastClaimSyncs(pc: Pc) {
    || pc.Checking? || pc.Linking? || pc.SyncRestored? || pc.UnlinkRestored? || pc.SyncQuarantine? || pc.Removing?
    || pc.SyncRemoved? || pc == Ended(Removed) || pc == Ended(Changed)
  }

  /** The claim is on disk. */
  predicate ClaimWritten(s: State) {
    s.claimed.Some? && s.disk.written.quarantine > s.notes.claimAt
  }

  /** The link that restored the file is on disk. */
  predicate LinkWritten(s: State) {
    s.restored && s.disk.written.source > s.notes.linkAt
  }

  predicate DropWritten(s: State) {
    s.notes.dropAt.Some? && s.disk.written.quarantine > s.notes.dropAt.value
  }

  /** Both syncs after the claim are skipped. */
  predicate ClaimUnsynced(c: Call, s: State) {
    SyncClaimSource in s.notes.skipped && (c.sameDirectory || SyncClaimQuarantine in s.notes.skipped)
  }

  /** What each directory sync is for. */
  ghost predicate Synced(c: Call, s: State) {
    && (s.pc.SyncClaimSource? && !c.sameDirectory && SyncClaimQuarantine !in s.notes.skipped ==> ClaimWritten(s))
    && (PastClaimSyncs(s.pc) && !ClaimUnsynced(c, s) ==> ClaimWritten(s))
    && (s.pc.UnlinkRestored? || (s.notes.dropAt.Some? && s.restored) ==>
          SyncRestored in s.notes.skipped || LinkWritten(s))
    && (s.pc == Ended(Removed) && SyncRemoved !in s.notes.skipped ==> DropWritten(s))
    && (s.pc == Ended(Changed) && s.restored && SyncQuarantine !in s.notes.skipped ==> DropWritten(s))
  }

  ghost predicate DiskInv(c: Call, s: State) {
    Agrees(c, s) && OneMove(s) && QuarantineSide(s) && SourceSide(c, s) && Synced(c, s)
  }

  // ----- single changes -----

  lemma SteadyKept(s: State, change: Change, p: Path, from: nat, to: nat, value: Option<Inode>)
    requires Steady(s.disk.entries, s.disk.log, p, from, to, value) && to <= |s.disk.log|
    ensures Steady(s.disk.entries, s.disk.log + [change], p, from, to, value)
  {
    hide ValueAt;
    Grown(s.disk.entries, s.disk.log, change);
  }

  lemma SteadyGrows(s: State, change: Change, p: Path, from: nat, value: Option<Inode>)
    requires Steady(s.disk.entries, s.disk.log, p, from, |s.disk.log|, value)
    requires Effect(change, p, ValueAt(s.disk.entries, s.disk.log, p, |s.disk.log|)) == value
    ensures Steady(s.disk.entries, s.disk.log + [change], p, from, |s.disk.log| + 1, value)
  {
    hide ValueAt, Effect;
    Grown(s.disk.entries, s.disk.log, change);
    var s', n := Do(s, change), |s.disk.log| + 1;
    assert ValueAt(s'.disk.entries, s'.disk.log, p, n) == value;
  }

  lemma AgreesGrows(c: Call, s: State, change: Change)
    requires Agrees(c, s) && (change.Move? ==> change.from != change.to)
    ensures Agrees(c, Do(s, change))
  {
    hide ValueAt;
    Grown(s.disk.entries, s.disk.log, change);
    forall p ensures Lookup(Altered(s.names, change), p) == Effect(change, p, Lookup(s.names, p)) {
    }
  }

  /** A change that leaves the quarantine name alone. */
  lemma QuarantineSideGrows(s: State, change: Change)
    requires OneMove(s) && QuarantineSide(s) && !change.Move? && change.path != s.quarantine && s.claimed.Some?
    ensures QuarantineSide(Do(s, change))
  {
    hide Steady, ValueAt;
    var n := |s.disk.log|;
    if s.notes.dropAt.None? {
      SteadyAt(s, s.quarantine, s.notes.claimAt + 1, n, s.claimed, n);
      SteadyGrows(s, change, s.quarantine, s.notes.claimAt + 1, s.claimed);
    } else {
      var u := s.notes.dropAt.value;
      SteadyKept(s, change, s.quarantine, s.notes.claimAt + 1, u, s.claimed);
      SteadyAt(s, s.quarantine, u + 1, n, None, n);
      SteadyGrows(s, change, s.quarantine, u + 1, None);
    }
  }

  lemma SteadyAt(s: State, p: Path, from: nat, to: nat, value: Option<Inode>, k: nat)
    requires Steady(s.disk.entries, s.disk.log, p, from, to, value) && from <= k <= to && k <= |s.disk.log|
    ensures ValueAt(s.disk.entries, s.disk.log, p, k) == value
  {
  }

  /** Before the claim. */
  lemma EarlyGrows(c: Call, s: State, change: Change)
    requires DiskInv(c, s) && s.claimed.None? && !s.restored && !change.Move?
    ensures var s' := Do(s, change); Agrees(c, s') && OneMove(s') && QuarantineSide(s') && SourceSide(c, s')
  {
    hide ValueAt, Synced;
    AgreesGrows(c, s, change);
  }

  /** What a claim, a link, an unlink or the writer leaves as it was. */
  lemma DurableKept(c: Call, s: State, change: Change)
    requires OneMove(s) && SourceSide(c, s) && s.notes.durable
    ensures Steady(s.disk.entries, s.disk.log + [change], c.source, s.disk.written.source, s.notes.claimAt, s.claimed)
  {
    hide ValueAt, Steady;
    SteadyKept(s, change, c.source, s.disk.written.source, s.notes.claimAt, s.claimed);
  }

  // ----- the steps -----

  lemma NoticeKeeps(c: Call, s: State, input: Input)
    requires DiskInv(c, s)
    ensures DiskInv(c, Notice(c, s, input))
  {
    hide ValueAt, Possible, Takes;
  }

  /** What the writer leaves at the source. */
  function Written(input: Input): Option<Inode>
    requires IsWriter(input)
  {
    if input.WriterPuts? then Some(File(input.id)) else None
  }

  lemma WriterSourceSide(c: Call, s: State, change: Change, value: Option<Inode>)
    requires DiskInv(c, s) && s.claimed.Some? && !change.Move? && change.path == c.source
    requires Effect(change, c.source, ValueAt(s.disk.entries, s.disk.log, c.source, |s.disk.log|)) == value
    requires !s.notes.takenByWriter && s.restored ==> value == s.claimed
    requires !s.notes.putAgain ==> value != s.claimed || s.restored
    ensures SourceSide(c, Do(s, change))
  {
    hide ValueAt, Steady, Effect, Synced, QuarantineSide;
    var n := |s.disk.log|;
    Grown(s.disk.entries, s.disk.log, change);
    if s.notes.durable {
      DurableKept(c, s, change);
    }
    if s.restored && !s.notes.takenByWriter {
      SteadyGrows(s, change, c.source, s.notes.linkAt + 1, s.claimed);
    }
    assert ValueAt(Do(s, change).disk.entries, Do(s, change).disk.log, c.source, n + 1) == value;
  }

  lemma SyncedKept(c: Call, s: State, change: Change)
    requires Synced(c, s)
    ensures Synced(c, Do(s, change))
  {
  }

  lemma WriterChangeKeeps(c: Call, s: State, input: Input)
    requires DiskInv(c, s) && IsWriter(input) && (s.claimed.Some? ==> s.quarantine != c.source)
    requires s.claimed.None? ==> !s.restored
    requires s.claimed.Some? && s.restored && !s.notes.takenByWriter ==> Written(input) == s.claimed
    requires s.claimed.Some? && !s.notes.putAgain ==> Written(input) != s.claimed
    ensures DiskInv(c, Do(s, WriterChange(c, input)))
  {
    var change := WriterChange(c, input);
    SyncedKept(c, s, change);
    hide Synced, SourceSide, Agrees, QuarantineSide;
    if s.claimed.None? {
      EarlyGrows(c, s, change);
    } else {
      QuarantineSideGrows(s, change);
      WriterSourceSide(c, s, change, Written(input));
      AgreesAndOneMove(c, s, change);
    }
  }

  lemma WriteKeepsDisk(c: Call, s: State, input: Input)
    requires Inv(c, s) && DiskInv(c, s) && IsWriter(input)
    ensures DiskInv(c, Write(c, s, input))
  {
    NoticeKeeps(c, s, input);
    if s.claimed.Some? && s.restored && !s.notes.takenByWriter {
      TakenOrThere(c, s, input);
    }
    hide DiskInv, Takes, Do, AtPc, Noted, WellPlaced;
    WriterChangeKeeps(c, Notice(c, s, input), input);
  }

  lemma TakenOrThere(c: Call, s: State, input: Input)
    requires Inv(c, s) && IsWriter(input) && s.restored && s.claimed.Some? && !s.notes.takenByWriter
    ensures Takes(c, s, input) || Written(input) == s.claimed
  {
    hide AtPc;
  }

  lemma AgreesAndOneMove(c: Call, s: State, change: Change)
    requires Agrees(c, s) && OneMove(s) && !change.Move?
    ensures Agrees(c, Do(s, change)) && OneMove(Do(s, change))
  {
    AgreesGrows(c, s, change);
    hide Agrees;
  }

  lemma ClaimKeepsDisk(c: Call, s: State)
    requires Inv(c, s) && DiskInv(c, s) && s.pc.Renaming? && c.source in s.names
    ensures DiskInv(c, Claim(c, s))
  {
    var inode := s.names[c.source];
    var change := Move(c.source, s.quarantine, inode);
    AgreesGrows(c, s, change);
    Grown(s.disk.entries, s.disk.log, change);
    hide ValueAt;
    var s' := Claim(c, s);
    assert s'.disk == Do(s, change).disk && s'.names == Do(s, change).names;
  }

  lemma LinkKeepsDisk(c: Call, s: State)
    requires Inv(c, s) && DiskInv(c, s) && s.pc.Linking?
    ensures DiskInv(c, Proceed(c, s))
  {
    if c.source !in s.names {
      var change := Put(c.source, s.names[s.quarantine]);
      AgreesAndOneMove(c, s, change);
      QuarantineSideGrows(s, change);
      Grown(s.disk.entries, s.disk.log, change);
      hide ValueAt;
    }
  }

  lemma DropQuarantineSide(c: Call, s: State, next: Pc)
    requires Held(c, s) && OneMove(s) && QuarantineSide(s)
    ensures QuarantineSide(Drop(c, s, next))
  {
    hide ValueAt, Steady;
    var change, n := Clear(s.quarantine), |s.disk.log|;
    Grown(s.disk.entries, s.disk.log, change);
    SteadyKept(s, change, s.quarantine, s.notes.claimAt + 1, n, s.claimed);
    var log := s.disk.log + [change];
    GrownAt(s.disk.entries, s.disk.log, change, s.quarantine);
    OnlyOne(s.disk.entries, log, s.quarantine, None);
  }

  lemma OnlyOne(entries: map<Path, Inode>, log: seq<Change>, p: Path, value: Option<Inode>)
    requires ValueAt(entries, log, p, |log|) == value
    ensures Steady(entries, log, p, |log|, |log|, value)
  {
    hide ValueAt;
  }

  lemma DropSourceSide(c: Call, s: State, next: Pc)
    requires Held(c, s) && OneMove(s) && SourceSide(c, s) && s.quarantine != c.source
    ensures SourceSide(c, Drop(c, s, next))
  {
    hide ValueAt, Steady;
    var change, n := Clear(s.quarantine), |s.disk.log|;
    Grown(s.disk.entries, s.disk.log, change);
    if s.notes.durable {
      DurableKept(c, s, change);
    }
    if s.restored && !s.notes.takenByWriter {
      SteadyAt(s, c.source, s.notes.linkAt + 1, n, s.claimed, n);
      SteadyGrows(s, change, c.source, s.notes.linkAt + 1, s.claimed);
    }
    var log := s.disk.log + [change];
    assert ValueAt(s.disk.entries, log, c.source, n + 1) == ValueAt(s.disk.entries, s.disk.log, c.source, n);
  }

  lemma DropKeepsDisk(c: Call, s: State, next: Pc)
    requires Inv(c, s) && DiskInv(c, s)
    requires (s.pc.UnlinkRestored? && next.SyncQuarantine?) || (s.pc.Removing? && next.SyncRemoved?)
    ensures DiskInv(c, Drop(c, s, next))
  {
    AgreesAndOneMove(c, s, Clear(s.quarantine));
    DropQuarantineSide(c, s, next);
    DropSourceSide(c, s, next);
    hide ValueAt, Possible, Steady, QuarantineSide, SourceSide;
  }

  /** Writing more of the log keeps everything, and nothing that was written is lost. */
  lemma WritingKeepsDisk(c: Call, s: State, cut: Cut)
    requires DiskInv(c, s) && CrashLeaves(c, s, cut)
    ensures DiskInv(c, s.(disk := s.disk.(written := cut)))
  {
    hide ValueAt;
  }

  lemma SyncIsPossible(c: Call, s: State)
    requires Possible(c, s.disk.log, s.disk.written)
    ensures CrashLeaves(c, s, SyncSource(c, s.disk).written)
    ensures CrashLeaves(c, s, SyncQuarantineDirectory(c, s.disk).written)
  {
    MovesEndAfterMoves(s.disk.log);
    hide MovesEnd;
  }

  predicate Syncing(pc: Pc) {
    pc.SyncClaimQuarantine? || pc.SyncClaimSource? || pc.SyncRestored? || pc.SyncQuarantine? || pc.SyncRemoved?
  }

  lemma AtAnotherPc(c: Call, s: State, pc: Pc)
    requires DiskInv(c, s)
    ensures var s' := s.(pc := pc); Agrees(c, s') && OneMove(s') && QuarantineSide(s') && SourceSide(c, s')
  {
    hide ValueAt, Steady, Possible;
  }

  lemma SyncKeepsParts(c: Call, s: State)
    requires DiskInv(c, s) && Possible(c, s.disk.log, s.disk.written) && Syncing(s.pc)
    ensures var s' := Proceed(c, s);
            Agrees(c, s') && OneMove(s') && QuarantineSide(s') && SourceSide(c, s')
  {
    hide DiskInv, ValueAt, MovesEnd, Steady, CrashLeaves, Possible, Agrees, OneMove, QuarantineSide, SourceSide;
    SyncIsPossible(c, s);
    var d := if s.pc.SyncClaimSource? || s.pc.SyncRestored? then SyncSource(c, s.disk)
             else SyncQuarantineDirectory(c, s.disk);
    WritingKeepsDisk(c, s, d.written);
    AtAnotherPc(c, s.(disk := d), Proceed(c, s).pc);
  }

  lemma SyncKeepsSynced(c: Call, s: State)
    requires Inv(c, s) && DiskInv(c, s) && Syncing(s.pc)
    ensures Synced(c, Proceed(c, s))
  {
    MovesEndAfterMoves(s.disk.log);
    hide ValueAt, MovesEnd, Steady, Agrees;
  }

  lemma SyncKeepsDisk(c: Call, s: State)
    requires Inv(c, s) && DiskInv(c, s) && Syncing(s.pc)
    ensures DiskInv(c, Proceed(c, s))
  {
    SyncKeepsParts(c, s);
    SyncKeepsSynced(c, s);
    hide Proceed;
  }

  lemma SkipKeepsDisk(c: Call, s: State)
    requires Inv(c, s) && DiskInv(c, s)
    ensures DiskInv(c, Skip(s))
  {
    hide ValueAt, Steady, Possible, Noted;
  }

  predicate Early(pc: Pc) {
    pc.Reserving? || pc.ClosingReservation? || pc.Renaming? || pc.Cleanup?
  }

  lemma EarlyKeepsDisk(c: Call, s: State, change: Change, next: Pc, quarantine: Path, failed: bool)
    requires Inv(c, s) && DiskInv(c, s) && Early(s.pc) && !change.Move? && s.claimed.None?
    requires Early(next) || (next.Ended? && !next.outcome.Removed? && !next.outcome.Changed?)
    ensures DiskInv(c, s.(pc := next, quarantine := quarantine, cleanupFailed := failed))
    ensures DiskInv(c, Do(s, change).(pc := next, quarantine := quarantine, cleanupFailed := failed))
  {
    EarlyGrows(c, s, change);
    hide Agrees, ValueAt, AtPc, Noted;
  }

  lemma ProceedEarly(c: Call, s: State)
    requires Inv(c, s) && DiskInv(c, s) && Early(s.pc)
    ensures DiskInv(c, Proceed(c, s))
  {
    hide DiskInv, Noted;
    match s.pc {
      case Reserving(k) =>
        var candidate := c.candidate(k);
        var next := if candidate !in s.names then ClosingReservation
                    else if k + 1 < MAX_ATTEMPTS then Reserving(k + 1) else Ended(Threw);
        EarlyKeepsDisk(c, s, Put(candidate, Reservation), next,
                       if candidate in s.names then s.quarantine else candidate, s.cleanupFailed);
      case ClosingReservation => EarlyKeepsDisk(c, s, Clear(s.quarantine), Renaming, s.quarantine, s.cleanupFailed);
      case Renaming =>
        if c.source in s.names {
          ClaimKeepsDisk(c, s);
        } else {
          EarlyKeepsDisk(c, s, Clear(s.quarantine), Cleanup(Missing), s.quarantine, s.cleanupFailed);
        }
      case Cleanup(outcome) => EarlyKeepsDisk(c, s, Clear(s.quarantine), Ended(outcome), s.quarantine, s.cleanupFailed);
    }
  }

  lemma ThrowingKeepsDisk(c: Call, s: State)
    requires DiskInv(c, s)
    ensures DiskInv(c, s.(pc := Ended(Threw)))
  {
    hide ValueAt, Steady, Possible;
  }

  lemma FailKeepsDisk(c: Call, s: State, cleanupFails: bool)
    requires Inv(c, s) && DiskInv(c, s)
    ensures DiskInv(c, Fail(c, s, cleanupFails))
  {
    hide DiskInv, Placed, Noted, WellPlaced;
    if Early(s.pc) {
      var next := if s.pc.Renaming? then Cleanup(Threw)
                  else if s.pc.Cleanup? then Ended(s.pc.verdict)
                  else Ended(Threw);
      var failed := s.cleanupFailed || s.pc.Cleanup? || (s.pc.ClosingReservation? && cleanupFails);
      EarlyKeepsDisk(c, s, Clear(s.quarantine), next, s.quarantine, failed);
      hide Do;
    } else {
      hide AtPc;
      ThrowingKeepsDisk(c, s);
    }
  }

  lemma CheckKeepsDisk(c: Call, s: State)
    requires Inv(c, s) && DiskInv(c, s) && (s.pc.Checking? || s.pc.Ended?)
    ensures DiskInv(c, Proceed(c, s))
  {
    hide ValueAt, Steady, Possible, Noted, Matches;
  }

  lemma StepKeepsDisk(c: Call, s: State, input: Input)
    requires Inv(c, s) && DiskInv(c, s)
    ensures DiskInv(c, Step(c, s, input))
  {
    hide Inv, DiskInv, Fail, Skip, Write;
    match input {
      case Proceeds =>
        match s.pc {
          case Reserving(_) => hide Proceed; ProceedEarly(c, s);
          case ClosingReservation => hide Proceed; ProceedEarly(c, s);
          case Renaming => hide Proceed; ProceedEarly(c, s);
          case Cleanup(_) => hide Proceed; ProceedEarly(c, s);
          case Checking => hide Proceed; CheckKeepsDisk(c, s);
          case Ended(_) => hide Proceed; CheckKeepsDisk(c, s);
          case Linking => hide Proceed; LinkKeepsDisk(c, s);
          case UnlinkRestored => hide Drop; DropKeepsDisk(c, s, SyncQuarantine);
          case Removing => hide Drop; DropKeepsDisk(c, s, SyncRemoved);
          case _ => hide Proceed; SyncKeepsDisk(c, s);
        }
      case Fails(cleanupFails) => FailKeepsDisk(c, s, cleanupFails);
      case SkipsSync => SkipKeepsDisk(c, s);
      case Writeback(cut) =>
        if CrashLeaves(c, s, cut) {
          WritingKeepsDisk(c, s, cut);
        }
      case _ => WriteKeepsDisk(c, s, input);
    }
  }

  lemma {:induction false} RunKeepsDisk(c: Call, s: State, inputs: seq<Input>)
    requires Inv(c, s) && DiskInv(c, s)
    ensures Inv(c, Run(c, s, inputs)) && DiskInv(c, Run(c, s, inputs))
    decreases |inputs|
  {
    hide Inv, DiskInv, Step;
    if inputs == [] {
    } else {
      StepKeeps(c, s, inputs[0]);
      StepKeepsDisk(c, s, inputs[0]);
      RunKeepsDisk(c, Step(c, s, inputs[0]), inputs[1..]);
    }
  }

  lemma ReachedDisk(c: Call, names: map<Path, Inode>, inputs: seq<Input>)
    requires WellPlaced(c, names)
    ensures Inv(c, Run(c, Initial(names), inputs)) && DiskInv(c, Run(c, Initial(names), inputs))
  {
    assert Inv(c, Initial(names)) && DiskInv(c, Initial(names));
    hide Inv, DiskInv;
    RunKeepsDisk(c, Initial(names), inputs);
  }

  // ----- what a crash leaves -----

  /** After this crash the claimed file has a name, at the source or in the quarantine. */
  predicate NamedAfter(c: Call, s: State, cut: Cut)
    requires cut.source <= |s.disk.log| && cut.quarantine <= |s.disk.log|
  {
    s.claimed.Some?
    && (AfterCrash(c, s, cut, c.source) == s.claimed || AfterCrash(c, s, cut, s.quarantine) == s.claimed)
  }

  /** An unexpected file was claimed that every crash at the claim would have kept, or whose claim is on disk. */
  predicate Kept(c: Call, s: State) {
    s.claimed.Some? && !Matches(c, s.claimed.value) && (s.notes.durable || ClaimWritten(s))
  }

  /** The unlink can reach the disk before the link that restored the file. */
  predicate Overtaken(c: Call, s: State) {
    s.restored && !c.sameDirectory && s.notes.dropAt.Some? && !LinkWritten(s)
  }

  lemma CrashCases(c: Call, s: State, cut: Cut)
    requires Inv(c, s) && DiskInv(c, s) && Kept(c, s) && CrashLeaves(c, s, cut)
    requires !Overtaken(c, s) && !s.notes.takenByWriter
    ensures NamedAfter(c, s, cut)
  {
    hide ValueAt, Matches;
    var m := s.notes.claimAt;
    assert m < cut.source <==> m < cut.quarantine;
  }

  /** Either sync after the claim puts the move on disk, since a move is in both directories. */
  lemma ClaimSyncsWriteClaim(c: Call, names: map<Path, Inode>, inputs: seq<Input>)
    requires WellPlaced(c, names)
    ensures var s := Run(c, Initial(names), inputs);
            PastClaimSyncs(s.pc) && !ClaimUnsynced(c, s) ==> ClaimWritten(s)
  {
    ReachedDisk(c, names, inputs);
    hide Run, Agrees, OneMove, QuarantineSide, SourceSide, Inv;
  }

  /**
   * A crash at any step, leaving the disk in any possible state: an unexpected file that was durable at the source
   * when it was claimed, or whose claim has reached the disk, has a name there, unless the writer took it after it
   * was restored. Of the call's directory syncs this needs only the one between the link and the unlink, and that
   * one only where source and quarantine are different directories.
   */
  lemma CrashKeepsFile(c: Call, names: map<Path, Inode>, inputs: seq<Input>, cut: Cut)
    requires WellPlaced(c, names) && CrashLeaves(c, Run(c, Initial(names), inputs), cut)
    ensures var s := Run(c, Initial(names), inputs);
            Kept(c, s) && (c.sameDirectory || SyncRestored !in s.notes.skipped) ==>
              NamedAfter(c, s, cut) || (s.restored && s.notes.takenByWriter)
  {
    ReachedDisk(c, names, inputs);
    hide Run, Kept, NamedAfter;
    var s := Run(c, Initial(names), inputs);
    if Kept(c, s) && (c.sameDirectory || SyncRestored !in s.notes.skipped) && !s.notes.takenByWriter {
      NotOvertaken(c, s);
      CrashCases(c, s, cut);
    }
    TakenMeansRestored(c, s);
  }

  lemma NotOvertaken(c: Call, s: State)
    requires Synced(c, s) && (c.sameDirectory || SyncRestored !in s.notes.skipped)
    ensures !Overtaken(c, s)
  {
  }

  lemma TakenMeansRestored(c: Call, s: State)
    requires Inv(c, s)
    ensures s.notes.takenByWriter ==> s.restored
  {
  }

  /**
   * And exactly: as long as the writer leaves the file alone, every crash keeps it unless the unlink can overtake
   * the link.
   */
  lemma CrashLosesExactly(c: Call, names: map<Path, Inode>, inputs: seq<Input>)
    requires WellPlaced(c, names)
    ensures var s := Run(c, Initial(names), inputs);
            Kept(c, s) && !s.notes.takenByWriter ==>
              ((forall cut | CrashLeaves(c, s, cut) :: NamedAfter(c, s, cut)) <==> !Overtaken(c, s))
  {
    ReachedDisk(c, names, inputs);
    hide Run;
    var s := Run(c, Initial(names), inputs);
    if Kept(c, s) && !s.notes.takenByWriter {
      if Overtaken(c, s) {
        OvertakenIsLost(c, s);
      } else {
        forall cut | CrashLeaves(c, s, cut) ensures NamedAfter(c, s, cut) {
          CrashCases(c, s, cut);
        }
      }
    }
  }

  /** Everything of the quarantine's directory, and of the source's only what came before the link. */
  function LosingCut(s: State): Cut {
    Cut(s.notes.linkAt, |s.disk.log|)
  }

  lemma OvertakenIsLost(c: Call, s: State)
    requires Inv(c, s) && DiskInv(c, s) && s.claimed.Some? && Overtaken(c, s)
    ensures CrashLeaves(c, s, LosingCut(s)) && !NamedAfter(c, s, LosingCut(s))
  {
    hide ValueAt, AtPc, Noted;
  }

  /** Once the last sync after `removed` was carried out, no crash brings back the claimed file's names. */
  lemma RemovedStaysRemoved(c: Call, names: map<Path, Inode>, inputs: seq<Input>, cut: Cut)
    requires WellPlaced(c, names) && CrashLeaves(c, Run(c, Initial(names), inputs), cut)
    ensures var s := Run(c, Initial(names), inputs);
            s.pc == Ended(Removed) && SyncRemoved !in s.notes.skipped ==>
              && AfterCrash(c, s, cut, s.quarantine) == None
              && (AfterCrash(c, s, cut, c.source) == s.claimed ==> s.notes.putAgain)
  {
    ReachedDisk(c, names, inputs);
    hide Run, ValueAt, Matches;
    var s := Run(c, Initial(names), inputs);
    if s.pc == Ended(Removed) && SyncRemoved !in s.notes.skipped {
      var m := s.notes.claimAt;
      assert m < cut.source <==> m < cut.quarantine;
    }
  }

  /** Likewise, once the last sync after a restore was carried out, the quarantine name stays gone. */
  lemma RestoredLeavesQuarantine(c: Call, names: map<Path, Inode>, inputs: seq<Input>, cut: Cut)
    requires WellPlaced(c, names) && CrashLeaves(c, Run(c, Initial(names), inputs), cut)
    ensures var s := Run(c, Initial(names), inputs);
            s.pc == Ended(Changed) && s.restored && SyncQuarantine !in s.notes.skipped ==>
              AfterCrash(c, s, cut, s.quarantine) == None
  {
    ReachedDisk(c, names, inputs);
    hide Run, ValueAt, Matches;
  }
}
