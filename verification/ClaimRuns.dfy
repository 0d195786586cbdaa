/** Runs of a claim that show where its guarantees end. */
module ClaimRuns {
  import opened Wrappers
  import opened ClaimFile
  import opened ClaimNames
  import opened ClaimDisk

  /** Source "s", quarantine "q", in different directories; no file is expected, so the claimed one is restored. */
  const EXAMPLE := Call("s", k => "q", false, None, id => Meta(true, "", 0, 0))

  const FILE: Inode := File(1)
  const START: map<Path, Inode> := map["s" := FILE]
  const UNNOTED: Notes := Notes(false, 0, 0, None, {}, false, false, false, false)
  const CLAIMED: Notes := UNNOTED.(durable := true, claimAt := 1)
  const RESERVE: Change := Put("q", Reservation)
  const CLAIM: Change := Move("s", "q", FILE)
  const RESTORE: Change := Put("s", FILE)

  function Claimed(written: Cut, pc: Pc): State {
    State(map["q" := FILE], Disk(START, [RESERVE, CLAIM], written), pc, "q", Some(FILE), false, false, CLAIMED)
  }

  /** Reserve, close, rename. */
  lemma ClaimsInThree()
    ensures Step(EXAMPLE, Step(EXAMPLE, Step(EXAMPLE, Initial(START), Proceeds), Proceeds), Proceeds)
         == Claimed(Cut(0, 0), SyncClaimQuarantine)
  {
    var s1 := Step(EXAMPLE, Initial(START), Proceeds);
    assert s1 == State(map["s" := FILE, "q" := Reservation], Disk(START, [RESERVE], Cut(0, 0)),
                       ClosingReservation, "q", None, false, false, UNNOTED);
    var s2 := Step(EXAMPLE, s1, Proceeds);
    assert DurableAtSource(EXAMPLE, s2.disk, FILE) by {
      assert ValueAt(START, [RESERVE], "s", 0) == Some(FILE);
      assert ValueAt(START, [RESERVE], "s", 1) == Some(FILE);
    }
    hide DurableAtSource;
    var s3 := Step(EXAMPLE, s2, Proceeds);
    assert s3.names == map["q" := FILE] && s3.disk.log == [RESERVE, CLAIM];
  }

  /** Sync both directories and check. */
  lemma ChecksInThree()
    ensures Step(EXAMPLE,
                 Step(EXAMPLE, Step(EXAMPLE, Claimed(Cut(0, 0), SyncClaimQuarantine), Proceeds), Proceeds),
                 Proceeds)
         == Claimed(Cut(2, 2), Linking)
  {
    var s1 := Step(EXAMPLE, Claimed(Cut(0, 0), SyncClaimQuarantine), Proceeds);
    assert MovesEnd([RESERVE, CLAIM]) == 2;
    assert s1 == Claimed(Cut(2, 2), SyncClaimSource);
    var s2 := Step(EXAMPLE, s1, Proceeds);
    assert s2 == Claimed(Cut(2, 2), Checking);
  }

  const TO_RESTORING: seq<Input> := [Proceeds, Proceeds] + ([Proceeds, Proceeds] + ([Proceeds, Proceeds] + []))

  lemma Restores()
    ensures Run(EXAMPLE, Initial(START), TO_RESTORING) == Claimed(Cut(2, 2), Linking)
  {
    ClaimsInThree();
    ChecksInThree();
    var s0 := Initial(START);
    var s2 := Step(EXAMPLE, Step(EXAMPLE, s0, Proceeds), Proceeds);
    var s4 := Step(EXAMPLE, Step(EXAMPLE, s2, Proceeds), Proceeds);
    hide Step;
    RunTwo(EXAMPLE, s0, Proceeds, Proceeds, [Proceeds, Proceeds] + ([Proceeds, Proceeds] + []));
    RunTwo(EXAMPLE, s2, Proceeds, Proceeds, [Proceeds, Proceeds] + []);
    RunTwo(EXAMPLE, s4, Proceeds, Proceeds, []);
  }

  /** The link, and what follows it. */
  function Restored(log: seq<Change>, written: Cut, names: map<Path, Inode>, pc: Pc, notes: Notes): State {
    State(names, Disk(START, [RESERVE, CLAIM] + log, written), pc, "q", Some(FILE), true, false, notes)
  }

  lemma Links()
    ensures Step(EXAMPLE, Claimed(Cut(2, 2), Linking), Proceeds) ==
            Restored([RESTORE], Cut(2, 2), map["q" := FILE, "s" := FILE], SyncRestored, CLAIMED.(linkAt := 2))
  {
  }

  // ----- the writer takes the restored file before its quarantine name goes -----

  const TAKING: seq<Input> := [Proceeds, Proceeds] + ([WriterPuts(2), Proceeds] + ([Proceeds] + []))
  const TAKEN: Notes := CLAIMED.(linkAt := 2, takenByWriter := true, writerBetween := true)

  lemma SyncsRestored()
    ensures Step(EXAMPLE,
                 Restored([RESTORE], Cut(2, 2), map["q" := FILE, "s" := FILE], SyncRestored, CLAIMED.(linkAt := 2)),
                 Proceeds)
         == Restored([RESTORE], Cut(3, 2), map["q" := FILE, "s" := FILE], UnlinkRestored, CLAIMED.(linkAt := 2))
  {
    var log := [RESERVE, CLAIM] + [RESTORE];
    assert log[..2] == [RESERVE, CLAIM] && MovesEnd([RESERVE, CLAIM]) == 2;
    assert MovesEnd(log) == 2;
  }

  lemma LosesAfterTaking()
    ensures var s := Restored([RESTORE], Cut(3, 2), map["q" := FILE, "s" := FILE], UnlinkRestored,
                              CLAIMED.(linkAt := 2));
            var s' := Step(EXAMPLE, Step(EXAMPLE, Step(EXAMPLE, s, WriterPuts(2)), Proceeds), Proceeds);
            && s'.pc == Ended(Changed) && s'.claimed == Some(FILE) && s'.names == map["s" := File(2)]
            && s'.quarantine == "q" && s'.notes.droppedLast && s'.notes.writerBetween
  {
    var s := Restored([RESTORE], Cut(3, 2), map["q" := FILE, "s" := FILE], UnlinkRestored, CLAIMED.(linkAt := 2));
    var s1 := Step(EXAMPLE, s, WriterPuts(2));
    assert s1.names == map["q" := FILE, "s" := File(2)] && s1.pc == UnlinkRestored && s1.notes == TAKEN;
    var s2 := Step(EXAMPLE, s1, Proceeds);
    assert s2.names == map["s" := File(2)] && s2.pc == SyncQuarantine && s2.notes.droppedLast;
  }

  /** `changed` can be reported for a file that the call's own unlink has left without a name. */
  lemma WriterCanTakeRestored()
    ensures WellPlaced(EXAMPLE, START)
    ensures var s := Run(EXAMPLE, Initial(START), TO_RESTORING + TAKING);
            && s.pc == Ended(Changed) && s.claimed == Some(FILE) && !Matches(EXAMPLE, FILE)
            && !Named(EXAMPLE, s) && s.notes.droppedLast && s.notes.writerBetween
  {
    var s6 := Claimed(Cut(2, 2), Linking);
    var s8 := Step(EXAMPLE, Step(EXAMPLE, s6, Proceeds), Proceeds);
    Links();
    SyncsRestored();
    LosesAfterTaking();
    hide Step, Initial, Claimed, Restored;
    Restores();
    RunAppends(EXAMPLE, Initial(START), TO_RESTORING, TAKING);
    RunTwo(EXAMPLE, s6, Proceeds, Proceeds, [WriterPuts(2), Proceeds] + ([Proceeds] + []));
    var s10 := Step(EXAMPLE, Step(EXAMPLE, s8, WriterPuts(2)), Proceeds);
    RunTwo(EXAMPLE, s8, WriterPuts(2), Proceeds, [Proceeds] + []);
    RunOne(EXAMPLE, s10, Proceeds, []);
  }

  // ----- the machine crashes after a restore that was not synced -----

  const UNSYNCED: seq<Input> := [Proceeds, SkipsSync] + ([Proceeds] + [])

  lemma Overtakes()
    ensures var s := Restored([RESTORE], Cut(2, 2), map["q" := FILE, "s" := FILE], SyncRestored, CLAIMED.(linkAt := 2));
            var s' := Step(EXAMPLE, Step(EXAMPLE, s, SkipsSync), Proceeds);
            Kept(EXAMPLE, s') && Overtaken(EXAMPLE, s') && !s'.notes.takenByWriter && !s'.notes.writerBetween
  {
  }

  /** Without the sync between link and unlink a crash can lose a durable file, with no writer about. */
  lemma CrashCanLoseUnsynced()
    ensures WellPlaced(EXAMPLE, START)
    ensures var s := Run(EXAMPLE, Initial(START), TO_RESTORING + UNSYNCED);
            && s.notes.durable && Named(EXAMPLE, s) && !s.notes.writerBetween && !s.notes.takenByWriter
            && exists cut :: CrashLeaves(EXAMPLE, s, cut) && !NamedAfter(EXAMPLE, s, cut)
  {
    assert WellPlaced(EXAMPLE, START);
    var s6 := Claimed(Cut(2, 2), Linking);
    var s8 := Step(EXAMPLE, Step(EXAMPLE, s6, Proceeds), SkipsSync);
    Links();
    Overtakes();
    hide Step, Initial, Claimed, Restored;
    Restores();
    RunAppends(EXAMPLE, Initial(START), TO_RESTORING, UNSYNCED);
    RunTwo(EXAMPLE, s6, Proceeds, SkipsSync, [Proceeds] + []);
    RunOne(EXAMPLE, s8, Proceeds, []);
    hide Run, Kept, Overtaken, CrashLeaves, NamedAfter, WellPlaced, Named;
    CrashLosesExactly(EXAMPLE, START, TO_RESTORING + UNSYNCED);
    NeverLost(EXAMPLE, START, TO_RESTORING + UNSYNCED);
  }
}
