/**
 * The verdict of every release command, said of the rows and receipts themselves: what the door check lets
 * through, when the schema is fit for a phase, what is refused without a change, and what a deploy writes.
 */
module ReleaseVerdicts {
  import opened Wrappers
  import opened StringOrder
  import opened ReleaseNames
  import opened ReleaseFence
  import opened ReleaseFenceProofs

  // ----- plain statements about a history -----

  /** A migration of this name was completed and not rolled back. */
  ghost predicate Done(rows: seq<Row>, name: string) {
    exists r :: r in rows && r.name == name && r.finished && !r.rolledBack
  }

  ghost predicate RequiredDone(c: Catalogue, rows: seq<Row>) {
    forall n | n in c.required :: Done(rows, n)
  }

  ghost predicate ContractDone(c: Catalogue, rows: seq<Row>) {
    Done(rows, c.contract) || Done(rows, c.age) || Done(rows, c.bridge) || Done(rows, c.traffic)
  }

  /** No expand, preparation, contract or later migration is unfinished or rolled back. */
  ghost predicate NoneFailed(c: Catalogue, rows: seq<Row>) {
    forall r | r in rows && (!r.finished || r.rolledBack) ::
      && r.name !in c.required && r.name != c.exceptionPrep && r.name != c.bridgePrep && r.name != c.trafficPrep
      && r.name != c.contract && r.name != c.age && r.name != c.bridge && r.name != c.traffic
      && r.name != c.projectChange && !Less(c.projectChange, r.name)
  }

  predicate Alternate(c: Catalogue, r: Row) {
    r.name == c.age || r.name == c.bridge || r.name == c.traffic
  }

  /** Row i is the only one of an alternate contract, and this receipt was written for it. */
  ghost predicate Receipts(c: Catalogue, rows: seq<Row>, i: nat, x: Receipt) {
    && i < |rows| && Alternate(c, rows[i])
    && (forall j | 0 <= j < |rows| && j != i :: !Alternate(c, rows[j]))
    && x.valid && x.migration == rows[i].name && x.checksum == rows[i].checksum
    && Done(rows, c.exceptionPrep)
    && (rows[i].name == c.bridge ==> Done(rows, c.bridgePrep))
    && (rows[i].name == c.traffic ==> Done(rows, c.bridgePrep) && Done(rows, c.trafficPrep))
  }

  /** What every command asks of a history before anything else. */
  ghost predicate Sound(c: Catalogue, h: History, image: Image) {
    && NoneFailed(c, h.rows)
    && |h.receipts| <= 1 && (forall x | x in h.receipts :: x.checksum == image.checksum(x.migration))
    && if h.receipts == [] then forall r | r in h.rows :: !Alternate(c, r)
       else
         && (forall r | r in h.rows :: r.name != c.contract)
         && exists i: nat :: Receipts(c, h.rows, i, h.receipts[0])
  }

  /** The schema a runtime of this phase needs. */
  ghost predicate Fit(c: Catalogue, h: History, image: Image, phase: Phase) {
    && Sound(c, h, image) && Done(h.rows, c.baseline) && RequiredDone(c, h.rows)
    && match phase
       case Phase1 => !ContractDone(c, h.rows)
       case Phase2 => ContractDone(c, h.rows) && Done(h.rows, c.projectChange)
  }

  // ----- the door -----

  lemma {:induction false} OnlyRow(rows: seq<Row>, p: string -> bool, i: nat)
    requires i < |rows| && p(rows[i].name) && forall j | 0 <= j < |rows| && j != i :: !p(rows[j].name)
    ensures RowsOf(rows, p) == [rows[i]]
  {
    if i == 0 {
      assert forall r | r in rows[1..] :: !p(r.name);
      NoRow(rows[1..], p);
    } else {
      OnlyRow(rows[1..], p, i - 1);
    }
  }

  lemma {:induction false} NoRow(rows: seq<Row>, p: string -> bool)
    ensures RowsOf(rows, p) == [] <==> forall r | r in rows :: !p(r.name)
  {
    if rows == [] {
    } else {
      NoRow(rows[1..], p);
      assert forall r :: r in rows <==> r == rows[0] || r in rows[1..];
    }
  }

  lemma {:induction false} OneRow(rows: seq<Row>, p: string -> bool) returns (i: nat)
    requires |RowsOf(rows, p)| == 1
    ensures i < |rows| && p(rows[i].name) && forall j | 0 <= j < |rows| && j != i :: !p(rows[j].name)
    ensures RowsOf(rows, p) == [rows[i]]
  {
    if p(rows[0].name) {
      i := 0;
      NoRow(rows[1..], p);
      assert forall j | 1 <= j < |rows| :: rows[j] in rows[1..];
    } else {
      var k := OneRow(rows[1..], p);
      i := k + 1;
      assert forall j | 1 <= j < |rows| :: rows[j] == rows[1..][j - 1];
    }
  }

  lemma DoneIsCompleted(rows: seq<Row>, name: string)
    ensures Done(rows, name) <==> name in Completed(rows)
  {
  }

  lemma CompletedIsDone(c: Catalogue, rows: seq<Row>)
    ensures forall n :: Done(rows, n) <==> n in Completed(rows)
    ensures AllIn(c.required, Completed(rows)) <==> RequiredDone(c, rows)
    ensures HasFailedRow(c, rows) <==> !NoneFailed(c, rows)
  {
  }

  /** The contract path check, with the rows of the alternates spelled out. */
  lemma PathExact(c: Catalogue, rows: seq<Row>, receipt: Option<Receipt>)
    ensures AssertContractPath(c, rows, receipt).Success? <==>
              && NoneFailed(c, rows)
              && if receipt.None? then forall r | r in rows :: !Alternate(c, r)
                 else
                   && (forall r | r in rows :: r.name != c.contract)
                   && exists i: nat :: Receipts(c, rows, i, receipt.value)
  {
    CompletedIsDone(c, rows);
    NoRow(rows, c.IsAlternate);
    var alternate := RowsOf(rows, c.IsAlternate);
    hide Completed, HasFailedRow, NoneFailed, RowsOf;
    if |alternate| == 1 {
      var i := OneRow(rows, c.IsAlternate);
      assert receipt.Some? && AssertContractPath(c, rows, receipt).Success? ==> Receipts(c, rows, i, receipt.value);
    }
    if receipt.Some? {
      forall i: nat | Receipts(c, rows, i, receipt.value)
        ensures alternate == [rows[i]]
      {
        OnlyRow(rows, c.IsAlternate, i);
      }
    }
  }

  /** The door lets a history through exactly when it is sound. */
  lemma DoorExact(c: Catalogue, h: History, image: Image)
    ensures Check(c, h, image).Success? <==> Sound(c, h, image)
  {
    CompletedIsDone(c, h.rows);
    PathExact(c, h.rows, if h.receipts == [] then None else Some(h.receipts[0]));
    hide AssertContractPath, Completed, HasFailedRow, NoneFailed, Receipts;
  }

  /** What the status says, in terms of the rows. */
  lemma StatusExact(c: Catalogue, h: History, image: Image)
    requires Check(c, h, image).Success?
    ensures var s := Check(c, h, image).value;
            && (s.baseline <==> Done(h.rows, c.baseline)) && (s.expand <==> RequiredDone(c, h.rows))
            && (s.contract <==> ContractDone(c, h.rows)) && (s.projectChanges <==> Done(h.rows, c.projectChange))
            && s.receipt == (if h.receipts == [] then None else Some(h.receipts[0]))
            && (s.contractPath == Some(c.contract) ==> Done(h.rows, c.contract))
            && (Done(h.rows, c.contract) && (forall r | r in h.rows :: !Alternate(c, r)) ==>
                  s.contractPath == Some(c.contract))
  {
    CompletedIsDone(c, h.rows);
    assert (forall r | r in h.rows :: !Alternate(c, r)) ==>
        !Done(h.rows, c.age) && !Done(h.rows, c.bridge) && !Done(h.rows, c.traffic);
    hide AssertContractPath, Completed, HasFailedRow, RequiredDone, AllIn, Done;
  }

  // ----- the commands that change nothing -----

  /** The runtime check passes exactly on the schema of its phase, with the registry verified. */
  lemma RuntimeExact(c: Catalogue, h: History, image: Image, phase: Phase, plan: Plan)
    ensures var (h', v) := Execute(c, h, image, AssertRuntime(phase), plan);
            h' == h && (v.Success? <==> Fit(c, h, image, phase) && plan.registryVerified)
  {
    DoorExact(c, h, image);
    if Check(c, h, image).Success? {
      StatusExact(c, h, image);
    }
    hide Check, Sound, Done, RequiredDone, ContractDone;
  }

  lemma RecheckExact(c: Catalogue, h: History, image: Image, phase: Phase)
    ensures Recheck(c, h, image, phase).Success? <==> Fit(c, h, image, phase)
  {
    DoorExact(c, h, image);
    if Check(c, h, image).Success? {
      StatusExact(c, h, image);
    }
    hide Check, Sound, Done, RequiredDone, ContractDone;
  }

  lemma StatusCommandExact(c: Catalogue, h: History, image: Image, plan: Plan)
    ensures var (h', v) := Execute(c, h, image, Status, plan); h' == h && (v.Success? <==> Sound(c, h, image))
  {
    DoorExact(c, h, image);
    hide Check, Sound;
  }

  // ----- what a deploy writes -----

  /** A row that this deploy of these names may have written at this place. */
  ghost predicate Written(h: History, names: seq<string>, image: Image, rows: seq<Row>, i: nat)
    requires |h.rows| <= i < |rows|
  {
    var r := rows[i];
    && r.name in names && !HasLiveRow(rows[..i], r.name) && !r.rolledBack && r.checksum == image.checksum(r.name)
  }

  /** An alternate among the names was authorized, and this is its receipt. */
  ghost predicate ReceiptOf(c: Catalogue, names: seq<string>, image: Image, who: Option<Identity>, x: Receipt) {
    who.Some? && c.IsAlternate(x.migration) && x.migration in names
    && x == Receipt(x.migration, who.value, image.checksum(x.migration), true)
  }

  /**
   * A deploy appends rows of its names that had no live row, and receipts for authorized alternates; only the
   * last row can be unfinished. If it succeeds, every name has a live row and all rows written are finished.
   */
  lemma {:induction false} DeployWrites(c: Catalogue, h: History, names: seq<string>, image: Image,
                                        who: Option<Identity>, stop: Stop)
    ensures var (h', ok) := Deploy(c, h, names, image, who, stop);
            && h.rows <= h'.rows && h.receipts <= h'.receipts
            && (forall i | |h.rows| <= i < |h'.rows| :: Written(h, names, image, h'.rows, i))
            && (forall i | |h.rows| <= i < |h'.rows| - (if ok then 0 else 1) :: h'.rows[i].finished)
            && (forall x | x in h'.receipts[|h.receipts|..] :: ReceiptOf(c, names, image, who, x))
            && (ok ==> forall n | n in names :: HasLiveRow(h'.rows, n)) && (who.None? ==> h'.receipts == h.receipts)
    decreases |names|
  {
    if names == [] {
    } else {
      var n := names[0];
      if HasLiveRow(h.rows, n) {
        DeployWrites(c, h, names[1..], image, who, stop);
        var h' := Deploy(c, h, names[1..], image, who, stop).0;
        LiveStaysLive(h.rows, h'.rows, n);
        WrittenWider(c, h, names, image, who, h');
        hide Written, ReceiptOf, HasLiveRow;
      } else if stop.completes == 0 || (c.IsAlternate(n) && who.None?) {
        StoppedWrites(c, h, names, image, who, stop);
        hide Written, ReceiptOf, HasLiveRow, Unfinished;
      } else {
        var h1 := Applied(c, h, n, image, who);
        var stop1 := stop.(completes := stop.completes - 1);
        DeployWrites(c, h1, names[1..], image, who, stop1);
        var h' := Deploy(c, h1, names[1..], image, who, stop1).0;
        FirstWritten(c, h, names, image, who, h1, h');
        hide Written, ReceiptOf, HasLiveRow, Applied;
      }
    }
  }

  lemma StoppedWrites(c: Catalogue, h: History, names: seq<string>, image: Image, who: Option<Identity>, stop: Stop)
    requires names != [] && !HasLiveRow(h.rows, names[0])
    ensures var h' := Unfinished(c, h, names[0], image, who, stop);
            && h.rows <= h'.rows && h.receipts <= h'.receipts && |h'.rows| <= |h.rows| + 1
            && (forall i | |h.rows| <= i < |h'.rows| :: Written(h, names, image, h'.rows, i))
            && (forall x | x in h'.receipts[|h.receipts|..] :: ReceiptOf(c, names, image, who, x))
            && (who.None? ==> h'.receipts == h.receipts)
  {
    var h' := Unfinished(c, h, names[0], image, who, stop);
    assert h'.rows[..|h.rows|] == h.rows;
    hide HasLiveRow;
  }

  ghost predicate AscendFrom(rows: seq<Row>, k: nat) {
    forall i, j | k <= i < j < |rows| :: AtMost(rows[i].name, rows[j].name)
  }

  /** Sorted names are written in order. */
  lemma {:induction false} DeployInOrder(c: Catalogue, h: History, names: seq<string>, image: Image,
                                         who: Option<Identity>, stop: Stop)
    requires Ascends(names)
    ensures AscendFrom(Deploy(c, h, names, image, who, stop).0.rows, |h.rows|)
    decreases |names|
  {
    hide Less, WithReceipt;
    if names == [] {
    } else if HasLiveRow(h.rows, names[0]) {
      DeployInOrder(c, h, names[1..], image, who, stop);
    } else if stop.completes == 0 || (c.IsAlternate(names[0]) && who.None?) {
      assert |Unfinished(c, h, names[0], image, who, stop).rows| <= |h.rows| + 1;
    } else {
      var h1, stop1 := Applied(c, h, names[0], image, who), stop.(completes := stop.completes - 1);
      DeployInOrder(c, h1, names[1..], image, who, stop1);
      DeployWrites(c, h1, names[1..], image, who, stop1);
      var h' := Deploy(c, h1, names[1..], image, who, stop1).0;
      assert h'.rows[|h.rows|].name == names[0];
      forall j | |h.rows| < j < |h'.rows| ensures AtMost(names[0], h'.rows[j].name) {
        assert Written(h1, names[1..], image, h'.rows, j);
        var k :| 0 <= k < |names[1..]| && names[1..][k] == h'.rows[j].name;
        assert names[k + 1] == h'.rows[j].name;
      }
    }
  }

  lemma LiveStaysLive(rows: seq<Row>, rows': seq<Row>, n: string)
    requires rows <= rows' && HasLiveRow(rows, n)
    ensures HasLiveRow(rows', n)
  {
    CompletedGrows(rows, rows');
    var r :| r in rows && r.name == n && !r.rolledBack;
    assert r in rows';
  }

  lemma WrittenWider(c: Catalogue, h: History, names: seq<string>, image: Image, who: Option<Identity>, h': History)
    requires names != [] && h.rows <= h'.rows && h.receipts <= h'.receipts
    ensures forall i | |h.rows| <= i < |h'.rows| && Written(h, names[1..], image, h'.rows, i) ::
              Written(h, names, image, h'.rows, i)
    ensures forall x | ReceiptOf(c, names[1..], image, who, x) :: ReceiptOf(c, names, image, who, x)
  {
    assert forall n | n in names[1..] :: n in names;
  }

  lemma FirstWritten(c: Catalogue, h: History, names: seq<string>, image: Image, who: Option<Identity>,
                     h1: History, h': History)
    requires names != [] && !HasLiveRow(h.rows, names[0]) && h1 == Applied(c, h, names[0], image, who)
    requires c.IsAlternate(names[0]) ==> who.Some?
    requires h1.rows <= h'.rows && h1.receipts <= h'.receipts
    requires forall i | |h1.rows| <= i < |h'.rows| :: Written(h1, names[1..], image, h'.rows, i)
    requires forall x | x in h'.receipts[|h1.receipts|..] :: ReceiptOf(c, names[1..], image, who, x)
    ensures forall i | |h.rows| <= i < |h'.rows| :: Written(h, names, image, h'.rows, i)
    ensures forall x | x in h'.receipts[|h.receipts|..] :: ReceiptOf(c, names, image, who, x)
    ensures HasLiveRow(h'.rows, names[0]) && h'.rows[|h.rows|].finished
  {
    var n, k := names[0], |h.rows|;
    assert h'.rows[..k] == h.rows && h'.rows[k] == h1.rows[k];
    assert h'.rows[k] in h'.rows;
    assert forall m | m in names[1..] :: m in names;
    forall i | k <= i < |h'.rows| ensures Written(h, names, image, h'.rows, i) {
      if i > k {
        assert Written(h1, names[1..], image, h'.rows, i);
      }
    }
    var added := h'.receipts[|h.receipts|..];
    assert added == h1.receipts[|h.receipts|..] + h'.receipts[|h1.receipts|..];
    assert forall x | x in added :: x in h1.receipts[|h.receipts|..] || x in h'.receipts[|h1.receipts|..];
  }

  // ----- the commands that deploy -----

  /** Expanding is refused, with nothing changed, without the baseline or after any contract. */
  lemma ExpandRefused(c: Catalogue, h: History, image: Image, plan: Plan)
    requires !Sound(c, h, image) || !Done(h.rows, c.baseline) || ContractDone(c, h.rows)
    ensures var (h', v) := Execute(c, h, image, ApplyExpand, plan); h' == h && v.Failure?
  {
    DoorExact(c, h, image);
    if Check(c, h, image).Success? {
      StatusExact(c, h, image);
    }
    hide Check, Sound, Done, ContractDone, StagedMigrate, Recheck;
  }

  /** Success means that the schema is now fit for phase 1; a complete expand history is not touched. */
  lemma ExpandExact(c: Catalogue, h: History, image: Image, plan: Plan)
    requires Sound(c, h, image) && Done(h.rows, c.baseline) && !ContractDone(c, h.rows)
    ensures var (h', v) := Execute(c, h, image, ApplyExpand, plan);
            && (v.Success? ==> plan.registrySeeded && Fit(c, h', image, Phase1))
            && (RequiredDone(c, h.rows) ==> h' == h && (v.Success? <==> plan.registrySeeded))
            && (!RequiredDone(c, h.rows) ==> h' == StagedMigrate(c, h, image, c.ceiling, None, None, plan.deploy).0)
  {
    DoorExact(c, h, image);
    StatusExact(c, h, image);
    RecheckExact(c, Execute(c, h, image, ApplyExpand, plan).0, image, Phase1);
    hide Check, Sound, Done, ContractDone, StagedMigrate, Recheck, RequiredDone;
  }

  function PathOf(c: Catalogue, profile: Profile): string {
    match profile
    case AgeOnly => c.age
    case ImageBridge36 => c.bridge
    case ImageBridgeTraffic => c.traffic
  }

  /** An exception that does not belong to the contract already applied. */
  ghost predicate Foreign(c: Catalogue, h: History, e: ObservationException) {
    || (Done(h.rows, c.contract) && forall r | r in h.rows :: !Alternate(c, r))
    || (h.receipts != [] && (h.receipts[0].identity != e.identity || h.receipts[0].migration != PathOf(c, e.profile)))
  }

  /** Before the expand, without the registry or for a foreign exception the contract is refused, changing nothing. */
  lemma ContractRefused(c: Catalogue, h: History, image: Image, exception: Option<ObservationException>, plan: Plan)
    requires || !Sound(c, h, image) || !Done(h.rows, c.baseline) || !RequiredDone(c, h.rows)
             || !plan.registrySeeded || !plan.registryVerified
             || (exception.Some? && Foreign(c, h, exception.value))
    ensures var (h', v) := Execute(c, h, image, ApplyContract(exception), plan); h' == h && v.Failure?
  {
    DoorExact(c, h, image);
    if Check(c, h, image).Success? {
      StatusExact(c, h, image);
    }
    hide Check, Sound, Done, ContractDone, RequiredDone, Prepare, StageContract;
  }

  /** Success means that the schema is now fit for phase 2. */
  lemma ContractFit(c: Catalogue, h: History, image: Image, exception: Option<ObservationException>, plan: Plan)
    ensures var (h', v) := Execute(c, h, image, ApplyContract(exception), plan);
            v.Success? ==> Fit(c, h', image, Phase2) && plan.registrySeeded && plan.registryVerified
  {
    RecheckExact(c, Execute(c, h, image, ApplyContract(exception), plan).0, image, Phase2);
    hide Check, Sound, Done, ContractDone, RequiredDone, Prepare, StagedMigrate, Recheck;
  }

  /** An image that ends before the change requests is refused, with the preparations at most deployed. */
  lemma StaleImageRefused(c: Catalogue, h: History, image: Image, exception: Option<ObservationException>, plan: Plan)
    requires forall n | n in image.names :: Less(n, c.projectChange)
    ensures Execute(c, h, image, ApplyContract(exception), plan).1.Failure?
  {
    LatestIsMax(image.names);
    hide Check, Prepare, StagedMigrate, Recheck, Latest;
  }

  /** The last preparation that an exception of this profile needs. */
  function LastPreparation(c: Catalogue, profile: Profile): string {
    match profile
    case AgeOnly => c.exceptionPrep
    case ImageBridge36 => c.bridgePrep
    case ImageBridgeTraffic => c.trafficPrep
  }

  /**
   * Without its authorization an exception gets no further than the preparations: the command fails, and every row
   * it wrote is of the image and of a name up to the last preparation that the profile needs.
   */
  lemma UnauthorizedStops(c: Catalogue, h: History, image: Image, e: ObservationException, plan: Plan)
    requires !plan.authorized && !ContractDone(c, h.rows)
    ensures var (h', v) := Execute(c, h, image, ApplyContract(Some(e)), plan);
            && v.Failure? && h.rows <= h'.rows && h'.receipts == h.receipts
            && forall r | r in h'.rows[|h.rows|..] ::
                 r.name in image.names && AtMost(r.name, LastPreparation(c, e.profile))
  {
    DoorExact(c, h, image);
    if Check(c, h, image).Success? {
      StatusExact(c, h, image);
      PreparationWrites(c, h, image, LastPreparation(c, e.profile), plan.preparation);
    }
    hide Check, Sound, Done, ContractDone, RequiredDone, StagedMigrate, StageContract;
  }

  lemma PreparationWrites(c: Catalogue, h: History, image: Image, target: string, stop: Stop)
    ensures var h' := StagedMigrate(c, h, image, target, None, None, stop).0;
            && h.rows <= h'.rows && h'.receipts == h.receipts
            && forall r | r in h'.rows[|h.rows|..] :: r.name in image.names && AtMost(r.name, target)
  {
    var staged := StageMigrationNames(c, image.names, target, None);
    if staged.Success? {
      var h' := Deploy(c, h, staged.value, image, None, stop).0;
      DeployWrites(c, h, staged.value, image, None, stop);
      forall r | r in h'.rows[|h.rows|..]
        ensures r.name in image.names && AtMost(r.name, target)
      {
        var i :| |h.rows| <= i < |h'.rows| && h'.rows[i] == r;
        assert Written(h, staged.value, image, h'.rows, i);
        StagedMembers(c, image.names, target, None, r.name);
      }
    }
  }

  /** And undisturbed it completes all of those that had no row yet. */
  lemma PreparationsComplete(c: Catalogue, h: History, image: Image, e: ObservationException, plan: Plan)
    requires Sound(c, h, image) && Done(h.rows, c.baseline) && RequiredDone(c, h.rows) && !ContractDone(c, h.rows)
    requires plan.registrySeeded && plan.registryVerified && !Foreign(c, h, e) && !plan.authorized
    requires StagedMigrate(c, h, image, LastPreparation(c, e.profile), None, None, plan.preparation).1.Success?
    ensures var h' := Execute(c, h, image, ApplyContract(Some(e)), plan).0;
            forall n | n in image.names && AtMost(n, LastPreparation(c, e.profile)) :: HasLiveRow(h'.rows, n)
  {
    DoorExact(c, h, image);
    StatusExact(c, h, image);
    var target := LastPreparation(c, e.profile);
    var staged := StageMigrationNames(c, image.names, target, None).value;
    DeployWrites(c, h, staged, image, None, plan.preparation);
    forall n | n in image.names && AtMost(n, target) ensures n in staged {
      StagedMembers(c, image.names, target, None, n);
    }
    hide Check, Sound, Done, ContractDone, RequiredDone, StageContract, Deploy, StageMigrationNames;
  }

  /** All of this of any command. */
  lemma CommandExact(c: Catalogue, h: History, image: Image, command: Command, plan: Plan)
    ensures var (h', v) := Execute(c, h, image, command, plan);
            && (!Sound(c, h, image) ==> v.Failure? && h' == h)
            && (command.Status? ==> h' == h && (v.Success? <==> Sound(c, h, image)))
            && (command.AssertRuntime? ==>
                  h' == h && (v.Success? <==> Fit(c, h, image, command.phase) && plan.registryVerified))
            && (command.ApplyExpand? && v.Success? ==> Fit(c, h', image, Phase1) && plan.registrySeeded)
            && (command.ApplyContract? && v.Success? ==>
                  Fit(c, h', image, Phase2) && plan.registrySeeded && plan.registryVerified)
  {
    DoorExact(c, h, image);
    match command {
      case Status => StatusCommandExact(c, h, image, plan);
      case AssertRuntime(phase) => RuntimeExact(c, h, image, phase, plan);
      case ApplyExpand =>
        if Sound(c, h, image) && Done(h.rows, c.baseline) && !ContractDone(c, h.rows) {
          ExpandExact(c, h, image, plan);
        } else {
          ExpandRefused(c, h, image, plan);
        }
      case ApplyContract(exception) => ContractFit(c, h, image, exception, plan);
    }
    hide Sound, Fit, RunContract, RunExpand, Check;
  }
}
