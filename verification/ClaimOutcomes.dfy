/** What each answer of a claim means, said of the file's own metadata, and what an undisturbed call answers. */
module ClaimOutcomes {
  import opened Wrappers
  import opened ClaimFile
  import opened ClaimNames

  /** A file was expected, and this is it: the same file, regular, with the expected size and time. */
  ghost predicate AsExpected(c: Call, inode: Inode) {
    && c.expected.Some?
    && var e := c.expected.value;
      inode == File(e.id) && c.meta(e.id) == Meta(true, e.device, e.size, e.modified)
  }

  /** `removed` is answered only for the expected file, and `changed` only for any other. */
  lemma AnswersExact(c: Call, names: map<Path, Inode>, inputs: seq<Input>)
    requires WellPlaced(c, names)
    ensures var s := Run(c, Initial(names), inputs);
            && (s.pc == Ended(Removed) ==>
                  s.claimed.Some? && AsExpected(c, s.claimed.value) && s.quarantine !in s.names)
            && (s.pc == Ended(Changed) ==> s.claimed.Some? && !AsExpected(c, s.claimed.value))
            && (s.claimed.Some? && s.notes.dropAt.Some? && !s.restored ==> AsExpected(c, s.claimed.value))
  {
    Reached(c, names, inputs);
    hide Run;
  }

  // ----- a call that nothing disturbs -----

  function Ahead(c: Call, s: State, n: nat): State
    decreases n
  {
    if n == 0 then s else Ahead(c, Proceed(c, s), n - 1)
  }

  lemma {:induction false} RunIsAhead(c: Call, s: State, n: nat)
    ensures Run(c, s, seq(n, _ => Proceeds)) == Ahead(c, s, n)
    decreases n
  {
    hide Proceed;
    if n > 0 {
      var inputs := seq(n, _ => Proceeds);
      assert inputs[0] == Proceeds && inputs[1..] == seq((n - 1) as nat, _ => Proceeds);
      RunIsAhead(c, Proceed(c, s), n - 1);
    }
  }

  lemma {:induction false} AheadTwice(c: Call, s: State, m: nat, n: nat)
    ensures Ahead(c, s, m + n) == Ahead(c, Ahead(c, s, m), n)
    decreases m
  {
    hide Proceed;
    if m > 0 {
      AheadTwice(c, Proceed(c, s), m - 1, n);
    }
  }

  lemma {:induction false} EndedStays(c: Call, s: State, n: nat)
    requires s.pc.Ended?
    ensures Ahead(c, s, n) == s
  {
    if n > 0 {
      EndedStays(c, s, n - 1);
    }
  }

  /** The candidates before the k-th are taken. */
  ghost predicate Taken(c: Call, names: map<Path, Inode>, k: nat) {
    forall j: nat | j < k :: c.candidate(j) in names
  }

  lemma {:induction false} Reserves(c: Call, s: State, i: nat, k: nat)
    requires s.pc == Reserving(i) && i <= k < MAX_ATTEMPTS && Taken(c, s.names, k)
    ensures Ahead(c, s, k - i) == s.(pc := Reserving(k))
    decreases k - i
  {
    if i < k {
      Reserves(c, Proceed(c, s), i + 1, k);
    }
  }

  /** From the reservation to the check. */
  lemma ClaimsSource(c: Call, s: State)
    requires s.pc == Renaming && c.source in s.names && s.quarantine != c.source
    ensures var t := Ahead(c, s, if c.sameDirectory then 2 else 3);
            && t.pc == Checking && t.names == (s.names - {c.source})[s.quarantine := s.names[c.source]]
            && t.quarantine == s.quarantine
  {
    hide DurableAtSource, SyncSource, SyncQuarantineDirectory;
    var t := Proceed(c, s);
    assert t.pc == if c.sameDirectory then SyncClaimSource else SyncClaimQuarantine;
    var t1 := Proceed(c, t);
    assert Ahead(c, t1, 1) == Proceed(c, t1) && Ahead(c, t, 2) == Ahead(c, t1, 1) && Ahead(c, t, 1) == t1;
  }

  lemma Removes(c: Call, s: State)
    requires s.pc == Checking && s.quarantine in s.names && AsExpected(c, s.names[s.quarantine])
    ensures var t := Ahead(c, s, 3); t.pc == Ended(Removed) && t.names == s.names - {s.quarantine}
  {
    hide SyncQuarantineDirectory, AtSource;
    var s1 := Proceed(c, s);
    var s2 := Proceed(c, s1);
    assert Ahead(c, s, 3) == Ahead(c, s1, 2) == Ahead(c, s2, 1) == Proceed(c, s2);
  }

  lemma Restores(c: Call, s: State)
    requires s.pc == Checking && s.quarantine in s.names && !AsExpected(c, s.names[s.quarantine])
    requires c.source !in s.names
    ensures var t := Ahead(c, s, 5);
            t.pc == Ended(Changed) && t.names == s.names[c.source := s.names[s.quarantine]] - {s.quarantine}
  {
    hide SyncSource, SyncQuarantineDirectory, AtSource;
    var s1 := Proceed(c, s);
    assert s1.pc == Linking;
    var s2 := Proceed(c, s1);
    var s3 := Proceed(c, s2);
    var s4 := Proceed(c, s3);
    assert Ahead(c, s, 5) == Ahead(c, s1, 4) == Ahead(c, s2, 3) == Ahead(c, s3, 2) == Ahead(c, s4, 1) == Proceed(c, s4);
  }

  /** The answer and the names that an undisturbed call leaves. */
  ghost predicate Answers(c: Call, names: map<Path, Inode>, s: State) {
    if c.source !in names then s.pc == Ended(Missing) && s.names == names
    else if AsExpected(c, names[c.source]) then s.pc == Ended(Removed) && s.names == names - {c.source}
    else s.pc == Ended(Changed) && s.names == names
  }

  lemma FindsNothing(c: Call, names: map<Path, Inode>, s: State)
    requires s.pc == Renaming && c.source !in s.names && s.quarantine !in names
    requires s.names == names[s.quarantine := Reservation]
    ensures var t := Ahead(c, s, 2); t.pc == Ended(Missing) && t.names == names
  {
    var s1 := Proceed(c, s);
    assert s1.pc == Cleanup(Missing);
    assert Ahead(c, s, 2) == Ahead(c, s1, 1) == Proceed(c, s1);
  }

  lemma ThereAndBack(names: map<Path, Inode>, source: Path, q: Path)
    requires source in names && q !in names
    ensures var claimed := (names[q := Reservation] - {source})[q := names[source]];
            && source !in claimed && claimed - {q} == names - {source}
            && claimed[source := names[source]] - {q} == names
  {
  }

  lemma FromCheck(c: Call, names: map<Path, Inode>, s: State) returns (n: nat)
    requires s.pc == Checking && s.quarantine !in names && c.source in names
    requires s.names == (names[s.quarantine := Reservation] - {c.source})[s.quarantine := names[c.source]]
    ensures n <= 5 && Ahead(c, s, n).pc.Ended? && Answers(c, names, Ahead(c, s, n))
  {
    hide Ahead;
    ThereAndBack(names, c.source, s.quarantine);
    if AsExpected(c, names[c.source]) {
      Removes(c, s);
      n := 3;
    } else {
      Restores(c, s);
      n := 5;
    }
  }

  lemma FromRenaming(c: Call, names: map<Path, Inode>, s: State) returns (n: nat)
    requires s.pc == Renaming && s.quarantine !in names && s.quarantine != c.source
    requires s.names == names[s.quarantine := Reservation]
    ensures n <= 8 && Ahead(c, s, n).pc.Ended? && Answers(c, names, Ahead(c, s, n))
  {
    if c.source !in names {
      FindsNothing(c, names, s);
      n := 2;
      hide Ahead;
    } else {
      hide Ahead, Answers;
      ClaimsSource(c, s);
      var m := if c.sameDirectory then 2 else 3;
      var k := FromCheck(c, names, Ahead(c, s, m));
      AheadTwice(c, s, m, k);
      n := m + k;
    }
  }

  lemma ReachesRenaming(c: Call, names: map<Path, Inode>, k: nat) returns (s: State)
    requires k < MAX_ATTEMPTS && Taken(c, names, k) && c.candidate(k) !in names
    ensures s == Ahead(c, Initial(names), k + 2) && s.pc == Renaming && s.quarantine == c.candidate(k)
    ensures s.names == names[s.quarantine := Reservation]
  {
    Reserves(c, Initial(names), 0, k);
    var s0 := Initial(names).(pc := Reserving(k));
    var s1 := Proceed(c, s0);
    s := Proceed(c, s1);
    assert Ahead(c, s0, 2) == Ahead(c, s1, 1) == s;
    AheadTwice(c, Initial(names), k, 2);
  }

  /**
   * A call that nothing disturbs answers by the file at the source alone: nothing there is `missing`, the expected
   * file is removed, and any other is back at the source after `changed`; no other name is any different.
   */
  lemma UndisturbedExact(c: Call, names: map<Path, Inode>, k: nat, n: nat)
    requires WellPlaced(c, names) && k < MAX_ATTEMPTS && Taken(c, names, k) && c.candidate(k) !in names && n >= k + 10
    ensures Answers(c, names, Run(c, Initial(names), seq(n, _ => Proceeds)))
  {
    RunIsAhead(c, Initial(names), n);
    hide Proceed, Answers, Initial, Ahead;
    var s2 := ReachesRenaming(c, names, k);
    var m := FromRenaming(c, names, s2);
    EndedStays(c, Ahead(c, s2, m), n - k - 2 - m);
    AheadTwice(c, Initial(names), k + 2, n - k - 2);
    AheadTwice(c, s2, m, n - k - 2 - m);
  }

  lemma GivesUp(c: Call, s: State, n: nat)
    requires s.pc == Reserving(15) && c.candidate(15) in s.names && n > 0
    ensures Ahead(c, s, n) == s.(pc := Ended(Threw))
  {
    EndedStays(c, s.(pc := Ended(Threw)), n - 1);
  }

  /** When all sixteen candidates are taken the call throws, and nothing has changed. */
  lemma NoFreeCandidate(c: Call, names: map<Path, Inode>, n: nat)
    requires Taken(c, names, 16) && n >= 16
    ensures var s := Run(c, Initial(names), seq(n, _ => Proceeds)); s.pc == Ended(Threw) && s.names == names
  {
    hide Ahead, Proceed, Run;
    RunIsAhead(c, Initial(names), n);
    Reserves(c, Initial(names), 0, 15);
    GivesUp(c, Initial(names).(pc := Reserving(15)), n - 15);
    AheadTwice(c, Initial(names), 15, n - 15);
  }

  // ----- a call that claims nothing -----

  ghost predicate Traceless(before: map<Path, Inode>, s: State, p: Path) {
    s.pc.Ended? && s.claimed.None? && !s.cleanupFailed ==> Lookup(s.names, p) == Lookup(before, p)
  }

  lemma StepTraceless(c: Call, before: map<Path, Inode>, s: State, input: Input, p: Path)
    requires AtPc(c, s) && Untouched(c, before, s, p) && Traceless(before, s, p) && p != c.source
    ensures Traceless(before, Step(c, s, input), p)
  {
    hide Matches, CrashLeaves, AtSource, InQuarantine, DurableAtSource, SyncSource, SyncQuarantineDirectory;
    match input {
      case Proceeds =>
        if s.pc.Cleanup? {
          AlteredElsewhere(s.names, Clear(s.quarantine), p);
          hide Altered;
        }
      case Fails(_) =>
        AlteredElsewhere(s.names, Clear(s.quarantine), p);
        hide Altered;
      case WriterRemoves =>
        AlteredElsewhere(s.names, WriterChange(c, input), p);
        hide Altered;
      case WriterPuts(_) =>
        AlteredElsewhere(s.names, WriterChange(c, input), p);
        hide Altered;
      case _ =>
    }
  }

  lemma {:induction false} RunTraceless(c: Call, before: map<Path, Inode>, s: State, inputs: seq<Input>, p: Path)
    requires Inv(c, s) && Untouched(c, before, s, p) && Traceless(before, s, p) && p != c.source
    ensures Traceless(before, Run(c, s, inputs), p)
    decreases |inputs|
  {
    if inputs == [] {
    } else {
      assert AtPc(c, s);
      hide Untouched, Step, Inv, Traceless, AtPc;
      StepTraceless(c, before, s, inputs[0], p);
      StepUntouched(c, before, s, inputs[0], p);
      StepKeeps(c, s, inputs[0]);
      RunTraceless(c, before, Step(c, s, inputs[0]), inputs[1..], p);
    }
  }

  /** A call that ends without having claimed anything leaves no trace, unless cleaning up failed. */
  lemma NoTrace(c: Call, names: map<Path, Inode>, inputs: seq<Input>, p: Path)
    requires WellPlaced(c, names) && p != c.source
    ensures var s := Run(c, Initial(names), inputs);
            s.pc.Ended? && s.claimed.None? && !s.cleanupFailed ==> Lookup(s.names, p) == Lookup(names, p)
  {
    assert Inv(c, Initial(names)) && Untouched(c, names, Initial(names), p);
    hide Run, Inv, Untouched;
    RunTraceless(c, names, Initial(names), inputs, p);
  }

  /** An operation that fails makes the call throw, cleaning up first where it has claimed nothing. */
  lemma FailureThrows(c: Call, s: State, cleanupFails: bool)
    requires !s.pc.Ended? && !s.pc.Cleanup?
    ensures var s' := Step(c, s, Fails(cleanupFails));
            && s'.pc == (if s.pc.Renaming? then Cleanup(Threw) else Ended(Threw))
            && s'.claimed == s.claimed && s'.restored == s.restored
            && (!s.pc.ClosingReservation? ==> s'.names == s.names)
            && (s.pc.ClosingReservation? && !cleanupFails ==> s.quarantine !in s'.names)
  {
  }

  /** A name that was taken for the link ends the call with the file kept in quarantine. */
  lemma TakenSourceKeepsQuarantine(c: Call, s: State)
    requires s.pc.Linking? && c.source in s.names
    ensures Step(c, s, Proceeds) == s.(pc := Ended(Changed))
  {
  }

  /** A directory sync that is not supported counts as done, though nothing more is on disk. */
  lemma SkippedLikeSynced(c: Call, s: State)
    requires s.pc in {SyncClaimQuarantine, SyncClaimSource, SyncRestored, SyncQuarantine, SyncRemoved}
    ensures var s' := Step(c, s, SkipsSync);
            s'.pc == Step(c, s, Proceeds).pc && s'.names == s.names && s'.disk == s.disk && s'.claimed == s.claimed
  {
    hide SyncSource, SyncQuarantineDirectory;
  }
}
