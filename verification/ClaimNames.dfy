/** What a claim guarantees about the names that running processes see. */
module ClaimNames {
  import opened Wrappers
  import opened ClaimFile

  // ----- the invariant -----

  ghost predicate Reserved(s: State) {
    s.claimed.None? && !s.cleanupFailed && s.quarantine in s.names && s.names[s.quarantine] == Reservation
  }

  ghost predicate Held(c: Call, s: State) {
    s.claimed.Some? && InQuarantine(s) && s.notes.dropAt.None? && !s.notes.droppedLast
  }

  ghost predicate Dropped(s: State) {
    s.claimed.Some? && s.quarantine !in s.names && s.notes.dropAt.Some?
  }

  /** What the position in the call says about the claimed file. */
  ghost predicate AtPc(c: Call, s: State) {
    match s.pc
    case Reserving(_) => s.claimed.None? && !s.cleanupFailed
    case ClosingReservation => Reserved(s)
    case Renaming => Reserved(s)
    case Cleanup(o) => Reserved(s) && (o.Missing? || o.Threw?)
    case SyncClaimQuarantine => Held(c, s) && !s.restored
    case SyncClaimSource => Held(c, s) && !s.restored
    case Checking => Held(c, s) && !s.restored
    case Linking => Held(c, s) && !s.restored && !Matches(c, s.claimed.value)
    case SyncRestored => Held(c, s) && s.restored && !Matches(c, s.claimed.value)
    case UnlinkRestored => Held(c, s) && s.restored && !Matches(c, s.claimed.value)
    case SyncQuarantine => Dropped(s) && s.restored && !Matches(c, s.claimed.value)
    case Removing => Held(c, s) && !s.restored && Matches(c, s.claimed.value)
    case SyncRemoved => Dropped(s) && !s.restored && Matches(c, s.claimed.value)
    case Ended(Removed) => Dropped(s) && !s.restored && Matches(c, s.claimed.value)
    case Ended(Changed) =>
      s.claimed.Some? && !Matches(c, s.claimed.value) && if s.restored then Dropped(s) else Held(c, s)
    case Ended(Missing) => s.claimed.None? && (s.cleanupFailed <==> s.quarantine in s.names)
    case Ended(Threw) =>
      s.claimed.Some? ==> Held(c, s) || (Dropped(s) && (s.restored <==> !Matches(c, s.claimed.value)))
  }

  ghost predicate Inv(c: Call, s: State) {
    WellPlaced(c, s.names) && AtPc(c, s) && Placed(c, s) && Noted(c, s)
  }

  ghost predicate Placed(c: Call, s: State) {
    && (s.pc.Reserving? || (s.pc == Ended(Threw) && s.claimed.None?) || s.quarantine != c.source)
    && (s.claimed.Some? ==> s.claimed.value.File? && s.quarantine != c.source)
    && (s.claimed.None? ==> !s.restored && s.notes.dropAt.None? && !s.notes.droppedLast)
  }

  /** What the history of the run says about the writer. */
  ghost predicate Noted(c: Call, s: State) {
    && (s.notes.takenByWriter || s.notes.writerBetween ==> s.restored)
    && (s.restored ==> AtSource(c, s) || s.notes.takenByWriter)
    // between the link and the unlink nobody but the writer touches the source
    && ((s.pc.SyncRestored? || s.pc.UnlinkRestored?) && !s.notes.writerBetween ==> AtSource(c, s))
    && (s.notes.droppedLast && s.restored ==> s.notes.writerBetween && s.notes.takenByWriter)
  }

  lemma ReserveKeeps(c: Call, s: State)
    requires Inv(c, s) && (s.pc.Reserving? || s.pc.ClosingReservation? || s.pc.Renaming? || s.pc.Cleanup?)
    ensures Inv(c, Proceed(c, s))
  {
    hide DurableAtSource, Matches;
  }

  lemma SyncKeeps(c: Call, s: State)
    requires Inv(c, s)
    requires s.pc.SyncClaimQuarantine? || s.pc.SyncClaimSource? || s.pc.SyncRestored? || s.pc.SyncQuarantine?
             || s.pc.SyncRemoved?
    ensures Inv(c, Proceed(c, s))
  {
    hide Matches, SyncSource, SyncQuarantineDirectory, WellPlaced;
  }

  lemma SkipKeeps(c: Call, s: State)
    requires Inv(c, s)
    ensures Inv(c, Skip(s))
  {
    hide Matches, WellPlaced;
    match s.pc {
      case SyncClaimQuarantine =>
      case SyncClaimSource =>
      case SyncRestored =>
      case SyncQuarantine =>
      case SyncRemoved =>
      case _ => assert Skip(s) == s;
    }
  }

  lemma CheckKeeps(c: Call, s: State)
    requires Inv(c, s) && (s.pc.Checking? || s.pc.Linking? || s.pc.Ended?)
    ensures Inv(c, Proceed(c, s))
  {
    hide Matches;
  }

  lemma DropKeeps(c: Call, s: State)
    requires Inv(c, s) && (s.pc.UnlinkRestored? || s.pc.Removing?)
    ensures Inv(c, Proceed(c, s))
  {
    hide Matches;
  }

  /** Before the claim a failure cleans up. */
  lemma EarlyFailKeeps(c: Call, s: State, cleanupFails: bool)
    requires Inv(c, s) && (s.pc.Reserving? || s.pc.ClosingReservation? || s.pc.Renaming? || s.pc.Cleanup?)
    ensures Inv(c, Fail(c, s, cleanupFails))
  {
    hide Matches;
  }

  lemma LateFailKeeps(c: Call, s: State, cleanupFails: bool)
    requires Inv(c, s) && !(s.pc.Reserving? || s.pc.ClosingReservation? || s.pc.Renaming? || s.pc.Cleanup?)
    ensures Inv(c, Fail(c, s, cleanupFails))
  {
    hide Matches, Do, WellPlaced;
  }

  lemma WriteKeeps(c: Call, s: State, input: Input)
    requires Inv(c, s) && IsWriter(input)
    ensures Inv(c, Write(c, s, input))
  {
    hide Matches;
  }

  lemma StepKeeps(c: Call, s: State, input: Input)
    requires Inv(c, s)
    ensures Inv(c, Step(c, s, input))
  {
    match input {
      case Proceeds =>
        hide AtPc, Proceed;
        match s.pc {
          case Reserving(_) => ReserveKeeps(c, s);
          case ClosingReservation => ReserveKeeps(c, s);
          case Renaming => ReserveKeeps(c, s);
          case Cleanup(_) => ReserveKeeps(c, s);
          case SyncClaimQuarantine => SyncKeeps(c, s);
          case SyncClaimSource => SyncKeeps(c, s);
          case SyncRestored => SyncKeeps(c, s);
          case SyncQuarantine => SyncKeeps(c, s);
          case SyncRemoved => SyncKeeps(c, s);
          case UnlinkRestored => DropKeeps(c, s);
          case Removing => DropKeeps(c, s);
          case _ => CheckKeeps(c, s);
        }
      case Fails(cleanupFails) =>
        hide AtPc, Fail;
        if s.pc.Reserving? || s.pc.ClosingReservation? || s.pc.Renaming? || s.pc.Cleanup? {
          EarlyFailKeeps(c, s, cleanupFails);
        } else {
          LateFailKeeps(c, s, cleanupFails);
        }
      case SkipsSync =>
        hide AtPc, Skip;
        SkipKeeps(c, s);
      case Writeback(_) => hide Matches, CrashLeaves;
      case _ => hide AtPc, Write; WriteKeeps(c, s, input);
    }
  }

  lemma {:induction false} RunKeeps(c: Call, s: State, inputs: seq<Input>)
    requires Inv(c, s)
    ensures Inv(c, Run(c, s, inputs))
    decreases |inputs|
  {
    hide Inv, Step;
    if inputs == [] {
    } else {
      StepKeeps(c, s, inputs[0]);
      RunKeeps(c, Step(c, s, inputs[0]), inputs[1..]);
    }
  }

  lemma Reached(c: Call, names: map<Path, Inode>, inputs: seq<Input>)
    requires WellPlaced(c, names)
    ensures Inv(c, Run(c, Initial(names), inputs))
  {
    assert Inv(c, Initial(names));
    hide Inv;
    RunKeeps(c, Initial(names), inputs);
  }

  // ----- what the call guarantees -----

  /**
   * `removed` is reported only for the expected regular file, with the expected size and time: it was the file
   * under the quarantine name when that name was unlinked, and the name is gone.
   */
  lemma RemovedWasExpected(c: Call, names: map<Path, Inode>, inputs: seq<Input>)
    requires WellPlaced(c, names)
    ensures var s := Run(c, Initial(names), inputs);
            && (s.pc == Ended(Removed) ==> s.claimed.Some? && Matches(c, s.claimed.value) && s.quarantine !in s.names)
            && (s.pc == Removing ==> s.quarantine in s.names && Matches(c, s.names[s.quarantine]))
            && (s.claimed.Some? && InQuarantine(s) && !InQuarantine(Step(c, s, Proceeds)) ==>
                  s.pc == if Matches(c, s.claimed.value) then Removing else UnlinkRestored)
  {
    Reached(c, names, inputs);
    hide Matches, Run, Proceed;
    var s := Run(c, Initial(names), inputs);
    if s.claimed.Some? && InQuarantine(s) {
      OwnStepQuarantine(c, s);
    }
  }

  lemma OwnStepQuarantine(c: Call, s: State)
    requires Inv(c, s) && s.claimed.Some? && InQuarantine(s)
    ensures !InQuarantine(Proceed(c, s)) ==> s.pc == if Matches(c, s.claimed.value) then Removing else UnlinkRestored
  {
    hide Matches;
  }

  /** The file has a name that the call knows of. */
  predicate Named(c: Call, s: State) {
    AtSource(c, s) || InQuarantine(s)
  }

  /**
   * At every step a claimed file that is not the expected one has a name, or else the writer took the restored
   * file.
   */
  lemma NeverLost(c: Call, names: map<Path, Inode>, inputs: seq<Input>)
    requires WellPlaced(c, names)
    ensures var s := Run(c, Initial(names), inputs);
            s.claimed.Some? && !Matches(c, s.claimed.value) ==> Named(c, s) || (s.restored && s.notes.takenByWriter)
  {
    Reached(c, names, inputs);
    hide Matches, Run;
  }

  /** Until the file is restored nothing the writer does can cost it its name. */
  lemma SafeUntilRestored(c: Call, names: map<Path, Inode>, inputs: seq<Input>)
    requires WellPlaced(c, names)
    ensures var s := Run(c, Initial(names), inputs);
            s.claimed.Some? && !Matches(c, s.claimed.value) && !s.restored ==> InQuarantine(s)
  {
    Reached(c, names, inputs);
    hide Matches, Run;
  }

  /**
   * The steps at which an unexpected file loses its last name, exactly: the call's own unlink when the source does
   * not hold the file at that moment, and a writer that takes it from the source once the quarantine name is gone.
   */
  lemma LastNameLost(c: Call, names: map<Path, Inode>, inputs: seq<Input>, input: Input)
    requires WellPlaced(c, names)
    ensures var s := Run(c, Initial(names), inputs);
            s.claimed.Some? && !Matches(c, s.claimed.value) && Named(c, s) ==>
              (!Named(c, Step(c, s, input)) <==>
                 || (s.pc == UnlinkRestored && input == Proceeds && !AtSource(c, s))
                 || (Takes(c, s, input) && !InQuarantine(s)))
  {
    Reached(c, names, inputs);
    hide Run;
    var s := Run(c, Initial(names), inputs);
    if s.claimed.Some? && !Matches(c, s.claimed.value) && Named(c, s) {
      hide Matches, Inv;
      match input {
        case Proceeds => hide Proceed, Named, Takes; OwnStepNames(c, s);
        case Fails(cleanupFails) => hide Fail, Named, Takes; FailedStepNames(c, s, cleanupFails);
        case WriterRemoves => WriterStepNames(c, s, input);
        case WriterPuts(_) => WriterStepNames(c, s, input);
        case _ =>
      }
    }
  }

  lemma FailedStepNames(c: Call, s: State, cleanupFails: bool)
    requires Inv(c, s) && s.claimed.Some? && Named(c, s)
    ensures Named(c, Fail(c, s, cleanupFails))
  {
    hide Matches;
  }

  lemma WriterStepNames(c: Call, s: State, input: Input)
    requires Inv(c, s) && s.claimed.Some? && !Matches(c, s.claimed.value) && Named(c, s) && IsWriter(input)
    ensures !Named(c, Write(c, s, input)) <==> Takes(c, s, input) && !InQuarantine(s)
  {
    hide Matches;
  }

  lemma OwnStepNames(c: Call, s: State)
    requires Inv(c, s) && s.claimed.Some? && !Matches(c, s.claimed.value) && Named(c, s)
    ensures !Named(c, Proceed(c, s)) <==> s.pc == UnlinkRestored && !AtSource(c, s)
  {
    hide Matches;
  }

  /** The call's own unlink costs the file its last name only if the writer moved between the link and the unlink. */
  lemma UnlinkIsSafeAlone(c: Call, names: map<Path, Inode>, inputs: seq<Input>)
    requires WellPlaced(c, names)
    ensures var s := Run(c, Initial(names), inputs);
            s.claimed.Some? && !Matches(c, s.claimed.value) && s.notes.droppedLast ==>
              s.notes.writerBetween && s.notes.takenByWriter
  {
    Reached(c, names, inputs);
    hide Matches, Run;
  }

  /** `missing` claims nothing and leaves no reservation, unless unlinking it failed. */
  lemma MissingLeavesNothing(c: Call, names: map<Path, Inode>, inputs: seq<Input>)
    requires WellPlaced(c, names)
    ensures var s := Run(c, Initial(names), inputs);
            s.pc == Ended(Missing) ==> s.claimed.None? && (s.quarantine in s.names <==> s.cleanupFailed)
  {
    Reached(c, names, inputs);
    hide Matches, Run;
  }

  /** A path other than the source still leads where it did, unless it is the quarantine path and was free before. */
  ghost predicate Untouched(c: Call, before: map<Path, Inode>, s: State, p: Path) {
    && (Lookup(s.names, p) == Lookup(before, p) || (!s.pc.Reserving? && p == s.quarantine && p !in before))
    && (s.pc.Reserving? || s.pc.Ended? || p != s.quarantine || p !in before)
  }

  lemma StepUntouched(c: Call, before: map<Path, Inode>, s: State, input: Input, p: Path)
    requires Untouched(c, before, s, p) && p != c.source
    ensures Untouched(c, before, Step(c, s, input), p)
  {
    hide Matches, CrashLeaves, AtSource, InQuarantine, Takes, DurableAtSource, SyncSource, SyncQuarantineDirectory;
    match input {
      case Proceeds => hide Proceed, Untouched; ProceedUntouched(c, before, s, p);
      case Fails(cleanupFails) => hide Fail, Untouched; FailUntouched(c, before, s, cleanupFails, p);
      case SkipsSync => hide Do, Altered, Lookup;
      case _ =>
    }
  }

  lemma ProceedUntouched(c: Call, before: map<Path, Inode>, s: State, p: Path)
    requires Untouched(c, before, s, p) && p != c.source
    ensures Untouched(c, before, Proceed(c, s), p)
  {
    if s.pc.Reserving? || s.pc.Renaming? || s.pc.Linking? {
      hide Proceed;
      MakingUntouched(c, before, s, p);
    } else {
      hide Matches, AtSource, SyncSource, SyncQuarantineDirectory, Altered;
      AlteredElsewhere(s.names, Clear(s.quarantine), p);
    }
  }

  /** The steps that put a file somewhere. */
  lemma MakingUntouched(c: Call, before: map<Path, Inode>, s: State, p: Path)
    requires Untouched(c, before, s, p) && p != c.source
    requires s.pc.Reserving? || s.pc.Renaming? || s.pc.Linking?
    ensures Untouched(c, before, Proceed(c, s), p)
  {
    hide DurableAtSource, Altered;
    if s.pc.Reserving? {
      var candidate := c.candidate(s.pc.attempt);
      if candidate !in s.names {
        AlteredElsewhere(s.names, Put(candidate, Reservation), p);
      }
    } else if s.pc.Renaming? {
      if c.source in s.names {
        AlteredElsewhere(s.names, Move(c.source, s.quarantine, s.names[c.source]), p);
      }
    } else if s.quarantine in s.names {
      AlteredElsewhere(s.names, Put(c.source, s.names[s.quarantine]), p);
    }
  }

  lemma FailUntouched(c: Call, before: map<Path, Inode>, s: State, cleanupFails: bool, p: Path)
    requires Untouched(c, before, s, p) && p != c.source
    ensures Untouched(c, before, Fail(c, s, cleanupFails), p)
  {
    hide Altered;
    AlteredElsewhere(s.names, Clear(s.quarantine), p);
  }

  lemma AlteredElsewhere(names: map<Path, Inode>, change: Change, p: Path)
    requires if change.Move? then p != change.from else true
    ensures Lookup(Altered(names, change), p) == Effect(change, p, Lookup(names, p))
  {
  }

  lemma {:induction false} RunUntouched(c: Call, before: map<Path, Inode>, s: State, inputs: seq<Input>, p: Path)
    requires Untouched(c, before, s, p) && p != c.source
    ensures Untouched(c, before, Run(c, s, inputs), p)
    decreases |inputs|
  {
    hide Untouched, Step;
    if inputs == [] {
    } else {
      StepUntouched(c, before, s, inputs[0], p);
      RunUntouched(c, before, Step(c, s, inputs[0]), inputs[1..], p);
    }
  }

  /** Call and writer touch no name but the source and the call's own quarantine path, which was free. */
  lemma OtherNamesUntouched(c: Call, names: map<Path, Inode>, inputs: seq<Input>, p: Path)
    requires p != c.source
    ensures var s := Run(c, Initial(names), inputs);
            p in names || p != s.quarantine ==> Lookup(s.names, p) == Lookup(names, p)
  {
    assert Untouched(c, names, Initial(names), p);
    hide Run;
    RunUntouched(c, names, Initial(names), inputs, p);
  }
}
