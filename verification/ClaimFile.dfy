/**
 * Claiming an upload file by renaming it into a private quarantine, checking what was claimed, and then removing or
 * restoring it, while another process may create, replace or remove the source path at any moment.
 *
 * The names are what running processes see. Changes of directory entries reach the disk later: each directory's in
 * the order in which they were made, a move in both directories at once, all of a directory's when it is synced. A
 * crash leaves any state of the disk that this allows.
 */
module ClaimFile {
  import opened Wrappers

  type Path = string

  datatype Inode = Reservation | File(id: nat)

  /** `regular` says a regular file that is no symbolic link; `device` and the id identify it. */
  datatype Meta = Meta(regular: bool, device: string, size: nat, modified: nat)

  datatype Expected = Expected(device: string, id: nat, size: nat, modified: nat)

  datatype Outcome = Removed | Changed | Missing | Threw

  datatype Pc =
    | Reserving(attempt: nat)
    | ClosingReservation
    | Renaming
    | Cleanup(verdict: Outcome)
    | SyncClaimQuarantine
    | SyncClaimSource
    | Checking
    | Linking
    | SyncRestored
    | UnlinkRestored
    | SyncQuarantine
    | Removing
    | SyncRemoved
    | Ended(outcome: Outcome)

  /** What does not change during a call. */
  datatype Call = Call(
    source: Path, candidate: nat -> Path, sameDirectory: bool, expected: Option<Expected>, meta: nat -> Meta)

  predicate Matches(c: Call, inode: Inode) {
    && c.expected.Some? && inode.File?
    && var m, e := c.meta(inode.id), c.expected.value;
      m.regular && m.device == e.device && inode.id == e.id && m.size == e.size && m.modified == e.modified
  }

  // ----- names and changes of names -----

  datatype Change = Put(path: Path, inode: Inode) | Clear(path: Path) | Move(from: Path, to: Path, inode: Inode)

  function Altered(names: map<Path, Inode>, change: Change): map<Path, Inode> {
    match change
    case Put(p, inode) => names[p := inode]
    case Clear(p) => names - {p}
    case Move(from, to, inode) => (names - {from})[to := inode]
  }

  function Lookup(names: map<Path, Inode>, p: Path): Option<Inode> {
    if p in names then Some(names[p]) else None
  }

  /** What one path leads to after a change. */
  function Effect(change: Change, p: Path, before: Option<Inode>): Option<Inode> {
    match change
    case Put(q, inode) => if p == q then Some(inode) else before
    case Clear(q) => if p == q then None else before
    case Move(from, to, inode) => if p == to then Some(inode) else if p == from then None else before
  }

  // ----- the disk -----

  /** For each of the two directories, how much of the log is on disk: all its changes before this position. */
  datatype Cut = Cut(source: nat, quarantine: nat)

  /** The entries of a disk, every change since, and how much of it has been written. */
  datatype Disk = Disk(entries: map<Path, Inode>, log: seq<Change>, written: Cut)

  /** What a path leads to when its directory has the first k changes. */
  function ValueAt(entries: map<Path, Inode>, log: seq<Change>, p: Path, k: nat): Option<Inode>
    requires k <= |log|
  {
    if k == 0 then Lookup(entries, p) else Effect(log[k - 1], p, ValueAt(entries, log, p, k - 1))
  }

  /** A single directory has a single order, and a move is in both directories or in neither. */
  ghost predicate Possible(c: Call, log: seq<Change>, cut: Cut) {
    && cut.source <= |log| && cut.quarantine <= |log|
    && (c.sameDirectory ==> cut.source == cut.quarantine)
    && forall m | 0 <= m < |log| && log[m].Move? :: m < cut.source <==> m < cut.quarantine
  }

  predicate AtLeast(cut: Cut, written: Cut) {
    cut.source >= written.source && cut.quarantine >= written.quarantine
  }

  /** What a crash can leave. */
  ghost predicate CrashLeaves(c: Call, s: State, cut: Cut) {
    Possible(c, s.disk.log, cut) && AtLeast(cut, s.disk.written)
  }

  /** What a path leads to after such a crash. */
  function AfterCrash(c: Call, s: State, cut: Cut, p: Path): Option<Inode>
    requires cut.source <= |s.disk.log| && cut.quarantine <= |s.disk.log|
  {
    ValueAt(s.disk.entries, s.disk.log, p, if p == c.source then cut.source else cut.quarantine)
  }

  /** The position after the last move. */
  function MovesEnd(log: seq<Change>): nat {
    if log == [] then 0 else if log[|log| - 1].Move? then |log| else MovesEnd(log[..|log| - 1])
  }

  function Max(a: nat, b: nat): nat {
    if a < b then b else a
  }

  /** Syncing a directory writes all its changes, with each move and what preceded it in the other directory. */
  function SyncSource(c: Call, d: Disk): Disk {
    var n := |d.log|;
    d.(written := Cut(n, if c.sameDirectory then n else Max(d.written.quarantine, MovesEnd(d.log))))
  }

  function SyncQuarantineDirectory(c: Call, d: Disk): Disk {
    var n := |d.log|;
    d.(written := Cut(if c.sameDirectory then n else Max(d.written.source, MovesEnd(d.log)), n))
  }

  // ----- the call -----

  /** What is remembered about a run, for the sake of what is said about it. */
  datatype Notes = Notes(
    durable: bool,                                    // every crash at the claim would have left the file at the source
    claimAt: nat, linkAt: nat, dropAt: Option<nat>,   // where the call's move, link and unlink are in the log
    skipped: set<Pc>,                                 // directory syncs that the platform does not support
    takenByWriter: bool,                              // the writer took the restored file from the source
    writerBetween: bool,                              // the writer moved between the link and the unlink
    putAgain: bool,                                   // the writer put the claimed file itself at the source
    droppedLast: bool)                                // the call's unlink left the claimed file without either name

  datatype State = State(
    names: map<Path, Inode>, disk: Disk, pc: Pc, quarantine: Path, claimed: Option<Inode>,
    restored: bool, cleanupFailed: bool, notes: Notes)

  const MAX_ATTEMPTS := 16

  datatype Input =
    | Proceeds
    | Fails(cleanupFails: bool)      // the operation fails for a reason of its own, without effect
    | SkipsSync                      // a directory sync reports that it is not supported, which the code accepts
    | WriterRemoves
    | WriterPuts(id: nat)
    | Writeback(cut: Cut)            // the system writes changes to the disk on its own

  function Initial(names: map<Path, Inode>): State {
    State(names, Disk(names, [], Cut(0, 0)), Reserving(0), "", None, false, false,
          Notes(false, 0, 0, None, {}, false, false, false, false))
  }

  /** One change of the names, not yet on disk. */
  function Do(s: State, change: Change): State {
    s.(names := Altered(s.names, change), disk := s.disk.(log := s.disk.log + [change]))
  }

  predicate AtSource(c: Call, s: State) {
    c.source in s.names && s.claimed == Some(s.names[c.source])
  }

  predicate InQuarantine(s: State) {
    s.quarantine in s.names && s.claimed == Some(s.names[s.quarantine])
  }

  /** Every crash now would leave this file at the source. */
  predicate DurableAtSource(c: Call, d: Disk, inode: Inode)
    requires d.written.source <= |d.log|
  {
    forall k | d.written.source <= k <= |d.log| :: ValueAt(d.entries, d.log, c.source, k) == Some(inode)
  }

  function Claim(c: Call, s: State): State
    requires c.source in s.names
  {
    var inode := s.names[c.source];
    Do(s, Move(c.source, s.quarantine, inode)).(
    claimed := Some(inode),
    notes := s.notes.(
      claimAt := |s.disk.log|,
      durable := s.disk.written.source <= |s.disk.log| && DurableAtSource(c, s.disk, inode)),
    pc := if c.sameDirectory then SyncClaimSource else SyncClaimQuarantine)
  }

  /** The unlink of the quarantine name. */
  function Drop(c: Call, s: State, next: Pc): State {
    Do(s, Clear(s.quarantine)).(
    notes := s.notes.(dropAt := Some(|s.disk.log|), droppedLast := !AtSource(c, s)), pc := next)
  }

  /** The next operation of the call succeeds as far as the names allow. */
  function Proceed(c: Call, s: State): State {
    match s.pc
    case Reserving(k) =>
      var candidate := c.candidate(k);
      if candidate in s.names then s.(pc := if k + 1 < MAX_ATTEMPTS then Reserving(k + 1) else Ended(Threw))
      else Do(s, Put(candidate, Reservation)).(quarantine := candidate, pc := ClosingReservation)
    case ClosingReservation => s.(pc := Renaming)
    case Renaming => if c.source !in s.names then s.(pc := Cleanup(Missing)) else Claim(c, s)
    case Cleanup(outcome) => Do(s, Clear(s.quarantine)).(pc := Ended(outcome))
    case SyncClaimQuarantine => s.(disk := SyncQuarantineDirectory(c, s.disk), pc := SyncClaimSource)
    case SyncClaimSource => s.(disk := SyncSource(c, s.disk), pc := Checking)
    case Checking =>
      s.(pc := if s.quarantine in s.names && Matches(c, s.names[s.quarantine]) then Removing else Linking)
    case Linking =>
      if c.source in s.names || s.quarantine !in s.names then s.(pc := Ended(Changed))
      else Do(s, Put(c.source, s.names[s.quarantine])).(
        restored := true, notes := s.notes.(linkAt := |s.disk.log|), pc := SyncRestored)
    case SyncRestored => s.(disk := SyncSource(c, s.disk), pc := UnlinkRestored)
    case UnlinkRestored => Drop(c, s, SyncQuarantine)
    case SyncQuarantine => s.(disk := SyncQuarantineDirectory(c, s.disk), pc := Ended(Changed))
    case Removing => Drop(c, s, SyncRemoved)
    case SyncRemoved => s.(disk := SyncQuarantineDirectory(c, s.disk), pc := Ended(Removed))
    case Ended(_) => s
  }

  /** The next operation fails: its error is thrown, after the cleanup the code performs. */
  function Fail(c: Call, s: State, cleanupFails: bool): State {
    match s.pc
    case Reserving(_) => s.(pc := Ended(Threw))
    case ClosingReservation =>
      if cleanupFails then s.(pc := Ended(Threw), cleanupFailed := true)
      else Do(s, Clear(s.quarantine)).(pc := Ended(Threw))
    case Renaming => s.(pc := Cleanup(Threw))
    case Cleanup(outcome) => s.(pc := Ended(outcome), cleanupFailed := true)
    case Ended(_) => s
    case _ => s.(pc := Ended(Threw))
  }

  function Skip(s: State): State {
    var skipped := s.(notes := s.notes.(skipped := s.notes.skipped + {s.pc}));
    match s.pc
    case SyncClaimQuarantine => skipped.(pc := SyncClaimSource)
    case SyncClaimSource => skipped.(pc := Checking)
    case SyncRestored => skipped.(pc := UnlinkRestored)
    case SyncQuarantine => skipped.(pc := Ended(Changed))
    case SyncRemoved => skipped.(pc := Ended(Removed))
    case _ => s
  }

  predicate IsWriter(input: Input) {
    input.WriterRemoves? || input.WriterPuts?
  }

  /** The writer takes the claimed file away from the source after it was restored there. */
  predicate Takes(c: Call, s: State, input: Input) {
    && s.restored && AtSource(c, s)
    && (input.WriterRemoves? || (input.WriterPuts? && s.claimed != Some(File(input.id))))
  }

  /** What a writer's move adds to the notes. */
  function Notice(c: Call, s: State, input: Input): State {
    s.(notes := s.notes.(
       takenByWriter := s.notes.takenByWriter || Takes(c, s, input),
       writerBetween := s.notes.writerBetween || s.pc.SyncRestored? || s.pc.UnlinkRestored?,
       putAgain := s.notes.putAgain || (input.WriterPuts? && s.claimed == Some(File(input.id)))))
  }

  function WriterChange(c: Call, input: Input): Change
    requires IsWriter(input)
  {
    if input.WriterPuts? then Put(c.source, File(input.id)) else Clear(c.source)
  }

  function Write(c: Call, s: State, input: Input): State
    requires IsWriter(input)
  {
    Do(Notice(c, s, input), WriterChange(c, input))
  }

  ghost function Step(c: Call, s: State, input: Input): State {
    match input
    case Proceeds => Proceed(c, s)
    case Fails(cleanupFails) => Fail(c, s, cleanupFails)
    case SkipsSync => Skip(s)
    case WriterRemoves => Write(c, s, input)
    case WriterPuts(_) => Write(c, s, input)
    case Writeback(cut) => if CrashLeaves(c, s, cut) then s.(disk := s.disk.(written := cut)) else s
  }

  ghost function Run(c: Call, s: State, inputs: seq<Input>): State
    decreases |inputs|
  {
    if inputs == [] then s else Run(c, Step(c, s, inputs[0]), inputs[1..])
  }

  /** The quarantine is private and its names are never the source. */
  ghost predicate WellPlaced(c: Call, names: map<Path, Inode>) {
    && (forall k :: c.candidate(k) != c.source)
    && (c.source in names ==> names[c.source].File?)
  }

  // ----- runs -----

  lemma RunOne(c: Call, s: State, input: Input, rest: seq<Input>)
    ensures Run(c, s, [input] + rest) == Run(c, Step(c, s, input), rest)
  {
    assert ([input] + rest)[1..] == rest;
  }

  lemma RunTwo(c: Call, s: State, a: Input, b: Input, rest: seq<Input>)
    ensures Run(c, s, [a, b] + rest) == Run(c, Step(c, Step(c, s, a), b), rest)
  {
    hide Step, Run;
    assert [a, b] + rest == [a] + ([b] + rest);
    RunOne(c, s, a, [b] + rest);
    RunOne(c, Step(c, s, a), b, rest);
  }

  lemma {:induction false} RunAppends(c: Call, s: State, a: seq<Input>, b: seq<Input>)
    ensures Run(c, s, a + b) == Run(c, Run(c, s, a), b)
    decreases |a|
  {
    hide Step;
    if a == [] {
      assert a + b == b;
    } else {
      assert (a + b)[0] == a[0] && (a + b)[1..] == a[1..] + b;
      RunAppends(c, Step(c, s, a[0]), a[1..], b);
    }
  }
}
