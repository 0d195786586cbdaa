/** The receipts agree with the history, so the fence never locks itself, and it can be passed. */
module ReleaseFenceReceipts {
  import opened Wrappers
  import opened StringOrder
  import opened ReleaseNames
  import opened ReleaseFence
  import opened ReleaseFenceProofs

  ghost predicate PreparationsDone(c: Catalogue, path: string, done: set<string>) {
    && c.exceptionPrep in done
    && (path == c.bridge || path == c.traffic ==> c.bridgePrep in done)
    && (path == c.traffic ==> c.trafficPrep in done)
  }

  /** Each receipt belongs to its alternate contract row, and a finished alternate row has one. */
  ghost predicate Receipted(c: Catalogue, h: History) {
    && |h.receipts| <= 1
    && (forall x | x in h.receipts ::
          && x.valid && c.IsAlternate(x.migration)
          && exists r :: r in h.rows && r.name == x.migration && r.checksum == x.checksum)
    && (forall r | r in h.rows && c.IsAlternate(r.name) ::
          && (r.finished ==> h.receipts != [])
          && PreparationsDone(c, r.name, Completed(h.rows)))
  }

  lemma ReceiptHasRow(c: Catalogue, h: History)
    requires Receipted(c, h) && h.receipts != []
    ensures exists r :: r in h.rows && c.IsContract(r.name)
  {
    assert h.receipts[0] in h.receipts;
  }

  lemma AddReceiptedRow(c: Catalogue, h: History, row: Row, receipts: seq<Receipt>, path: string)
    requires Fenced(c, h) && OnPath(c, h.rows, path) && Receipted(c, h)
    requires c.IsAlternate(row.name) ==>
               && row.name == path && !HasLiveRow(h.rows, path) && PreparationsDone(c, row.name, Completed(h.rows))
               && (row.finished ==> receipts != h.receipts)
    requires || receipts == h.receipts
             || (c.IsAlternate(row.name)
                 && exists who :: receipts == h.receipts + [Receipt(row.name, who, row.checksum, true)])
    ensures Receipted(c, History(h.rows + [row], receipts))
  {
    CompletedGrows(h.rows, h.rows + [row]);
    var h' := History(h.rows + [row], receipts);
    assert row in h'.rows;
    if c.IsAlternate(row.name) {
      assert forall r | r in h.rows :: !c.IsContract(r.name);
      if h.receipts != [] {
        ReceiptHasRow(c, h);
      }
    }
    forall x | x in h'.receipts
      ensures x.valid && c.IsAlternate(x.migration)
      ensures exists r :: r in h'.rows && r.name == x.migration && r.checksum == x.checksum
    {
      if x in h.receipts {
        var r :| r in h.rows && r.name == x.migration && r.checksum == x.checksum;
        assert r in h'.rows;
      }
    }
  }

  /** Names that may be deployed: an alternate is already there, or it is authorized and prepared. */
  ghost predicate Prepared(c: Catalogue, h: History, names: seq<string>) {
    forall n | n in names && c.IsAlternate(n) ::
      HasLiveRow(h.rows, n) || PreparationsDone(c, n, Completed(h.rows))
  }

  lemma {:induction false} DeployReceipted(c: Catalogue, h: History, names: seq<string>, image: Image,
                                           who: Option<Identity>, stop: Stop, path: string)
    requires Fenced(c, h) && OnPath(c, h.rows, path) && MayStage(c, h, names, path)
    requires Receipted(c, h) && Prepared(c, h, names)
    ensures Receipted(c, Deploy(c, h, names, image, who, stop).0)
    decreases |names|
  {
    if names == [] {
    } else {
      var n := names[0];
      assert n in names;
      if HasLiveRow(h.rows, n) {
        DeployReceipted(c, h, names[1..], image, who, stop, path);
      } else if stop.completes == 0 || (c.IsAlternate(n) && who.None?) {
        var h' := Unfinished(c, h, n, image, who, stop);
        if stop.leavesUnfinished {
          AddReceiptedRow(c, h, Row(n, false, false, image.checksum(n)), h'.receipts, path);
        }
      } else {
        var h1 := Applied(c, h, n, image, who);
        AddRow(c, h, Row(n, true, false, image.checksum(n)), h1.receipts, path);
        AddReceiptedRow(c, h, Row(n, true, false, image.checksum(n)), h1.receipts, path);
        CompletedGrows(h.rows, h1.rows);
        DeployReceipted(c, h1, names[1..], image, who, stop.(completes := stop.completes - 1), path);
      }
    }
  }

  lemma StagedReceipted(c: Catalogue, h: History, image: Image, target: string, alternate: Option<string>,
                        who: Option<Identity>, stop: Stop, path: string)
    requires c.Ordered() && PlainImage(c, image) && Fenced(c, h) && OnPath(c, h.rows, path) && Receipted(c, h)
    requires AtMost(c.contract, target) ==>
               && path == (if alternate.Some? then alternate.value else c.contract)
               && AllIn(c.required, Completed(h.rows))
               && (c.IsAlternate(path) ==> HasLiveRow(h.rows, path) || PreparationsDone(c, path, Completed(h.rows)))
    ensures Receipted(c, StagedMigrate(c, h, image, target, alternate, who, stop).0)
  {
    var staged := StageMigrationNames(c, image.names, target, alternate);
    if staged.Success? {
      forall n | n in staged.value && c.IsContract(n)
        ensures n == path && AllIn(c.required, Completed(h.rows)) && AtMost(c.contract, target)
      {
        StagedMembers(c, image.names, target, alternate, n);
      }
      DeployReceipted(c, h, staged.value, image, who, stop, path);
    }
  }

  ghost predicate HasPreparations(c: Catalogue, image: Image) {
    c.exceptionPrep in image.names && c.bridgePrep in image.names && c.trafficPrep in image.names
  }

  /** A prepared exception has its preparations in the history. */
  lemma PrepareCompletes(c: Catalogue, h: History, image: Image, s: Release, e: ObservationException, plan: Plan)
    requires c.Ordered() && HasPreparations(c, image) && Clean(c, h.rows) && !s.contract
    requires Prepare(c, h, image, s, Some(e), plan).1.Success?
    ensures var h' := Prepare(c, h, image, s, Some(e), plan).0;
            Clean(c, h'.rows) && PreparationsDone(c, ExceptionPath(c, e), Completed(h'.rows))
  {
    var target := PreparationTarget(c, e);
    var staged := StageMigrationNames(c, image.names, target, None);
    DeployCompletes(c, h, staged.value, image, None, plan.preparation);
    if c.exceptionPrep != c.bridgePrep && c.bridgePrep != c.trafficPrep {
      Transitive(c.exceptionPrep, c.bridgePrep, c.trafficPrep);
    }
    StagedMembers(c, image.names, target, None, c.exceptionPrep);
    StagedMembers(c, image.names, target, None, c.bridgePrep);
    StagedMembers(c, image.names, target, None, c.trafficPrep);
  }

  lemma PrepareReceipted(c: Catalogue, h: History, image: Image, s: Release, exception: Option<ObservationException>,
                         plan: Plan, path: string)
    requires c.Ordered() && PlainImage(c, image) && Fenced(c, h) && OnPath(c, h.rows, path) && Receipted(c, h)
    ensures Receipted(c, Prepare(c, h, image, s, exception, plan).0)
  {
    if exception.Some? && !s.contract {
      PreparationBelowContract(c, exception.value);
      StagedReceipted(c, h, image, PreparationTarget(c, exception.value), None, None, plan.preparation, path);
    }
  }

  lemma LiveStays(rows: seq<Row>, rows': seq<Row>, name: string)
    requires name in Completed(rows) && rows <= rows'
    ensures HasLiveRow(rows', name)
  {
    var r :| r in rows && r.name == name && r.finished && !r.rolledBack;
    assert r in rows';
  }

  /** What the contract deploy may stage: its path is on record already, or prepared. */
  lemma PathReady(c: Catalogue, h: History, image: Image, exception: Option<ObservationException>, plan: Plan)
    requires c.Ordered() && HasPreparations(c, image) && Fenced(c, h) && Check(c, h, image).Success?
    requires var s := Check(c, h, image).value;
             !Mismatched(c, s, exception) && Prepare(c, h, image, s, exception, plan).1.Success?
    ensures var s := Check(c, h, image).value;
            var path, h1 := ChosenPath(c, s, exception), Prepare(c, h, image, s, exception, plan).0;
            c.IsAlternate(path) ==> HasLiveRow(h1.rows, path) || PreparationsDone(c, path, Completed(h1.rows))
  {
    var s := Check(c, h, image).value;
    StatusMeans(c, h, image);
    CheckReads(c, h, image);
    hide StagedMigrate, Check, Fenced, AssertContractPath, HasFailedRow, Completed;
    if exception.Some? && !s.contract {
      PrepareCompletes(c, h, image, s, exception.value, plan);
    } else if s.contract {
      LiveStays(h.rows, h.rows, s.contractPath.value);
    }
  }

  lemma ContractReceipted(c: Catalogue, h: History, image: Image, exception: Option<ObservationException>, plan: Plan)
    requires c.Ordered() && PlainImage(c, image) && HasPreparations(c, image)
    requires Fenced(c, h) && Receipted(c, h) && Check(c, h, image).Success?
    ensures Receipted(c, RunContract(c, h, image, Check(c, h, image).value, exception, plan).0)
  {
    var s := Check(c, h, image).value;
    StatusMeans(c, h, image);
    CheckReads(c, h, image);
    if s.expand && !Mismatched(c, s, exception) {
      var path := ChosenPath(c, s, exception);
      var (h1, v1) := Prepare(c, h, image, s, exception, plan);
      if v1.Success? {
        PathReady(c, h, image, exception, plan);
      }
      PrepareFenced(c, h, image, s, exception, plan, path);
      CompletedGrows(h.rows, h1.rows);
      hide Check, Receipted, Completed, Prepare, Mismatched, StageContract, PreparationsDone, HasLiveRow, Fenced;
      PrepareReceipted(c, h, image, s, exception, plan, path);
      if v1.Success? {
        StageReceipted(c, h1, image, s, exception, plan);
      }
    }
  }

  lemma StageReceipted(c: Catalogue, h: History, image: Image, s: Release, exception: Option<ObservationException>,
                       plan: Plan)
    requires c.Ordered() && PlainImage(c, image) && Fenced(c, h) && Receipted(c, h)
    requires AllIn(c.required, Completed(h.rows))
    requires s.contractPath.Some? ==> c.IsContract(s.contractPath.value)
    requires var path := ChosenPath(c, s, exception);
             && OnPath(c, h.rows, path)
             && (c.IsAlternate(path) ==> HasLiveRow(h.rows, path) || PreparationsDone(c, path, Completed(h.rows)))
    ensures Receipted(c, StageContract(c, h, image, s, exception, plan).0)
  {
    hide StagedMigrate, Recheck, Receipted, Fenced, Completed, AllIn, HasLiveRow, PreparationsDone, Latest;
    var latest := Latest(image.names);
    if latest.Some? {
      var alternate := StagedAlternate(c, s, exception);
      var who := if exception.Some? then Some(exception.value.identity) else None;
      StagedReceipted(c, h, image, latest.value, alternate, who, plan.deploy, ChosenPath(c, s, exception));
    }
  }

  lemma ExecuteReceipted(c: Catalogue, h: History, image: Image, command: Command, plan: Plan)
    requires c.Ordered() && PlainImage(c, image) && HasPreparations(c, image) && Fenced(c, h) && Receipted(c, h)
    ensures Receipted(c, Execute(c, h, image, command, plan).0)
  {
    if Check(c, h, image).Success? {
      StatusMeans(c, h, image);
      match command {
        case ApplyExpand =>
          PreparationBelowContract(c, ObservationException(AgeOnly, Identity("", "", "", "", "")));
          if !Check(c, h, image).value.contract {
            StagedReceipted(c, h, image, c.ceiling, None, None, plan.deploy, c.contract);
          }
        case ApplyContract(exception) => ContractReceipted(c, h, image, exception, plan);
        case _ =>
      }
    }
  }

  lemma {:induction false} RunReceipted(c: Catalogue, h: History, inputs: seq<Input>)
    requires c.Ordered() && Fenced(c, h) && Receipted(c, h)
    requires forall i | i in inputs :: PlainImage(c, i.image) && HasPreparations(c, i.image)
    ensures Fenced(c, Run(c, h, inputs)) && Receipted(c, Run(c, h, inputs))
    decreases |inputs|
  {
    if inputs == [] {
    } else {
      var i := inputs[0];
      assert i in inputs;
      ExecuteFenced(c, h, i.image, i.command, i.plan);
      ExecuteReceipted(c, h, i.image, i.command, i.plan);
      RunReceipted(c, Execute(c, h, i.image, i.command, i.plan).0, inputs[1..]);
    }
  }

  lemma {:induction false} FewAlternates(c: Catalogue, rows: seq<Row>)
    requires forall i, j | 0 <= i < j < |rows| :: !(c.IsAlternate(rows[i].name) && c.IsAlternate(rows[j].name))
    ensures |RowsOf(rows, c.IsAlternate)| <= 1
  {
    if rows == [] {
    } else {
      FewAlternates(c, rows[1..]);
      if c.IsAlternate(rows[0].name) {
        assert forall k | 0 <= k < |rows[1..]| :: rows[1..][k] == rows[k + 1];
        assert forall r | r in rows[1..] :: !c.IsAlternate(r.name);
        AlternateRows(c, rows[1..]);
        var rest := RowsOf(rows[1..], c.IsAlternate);
        assert rest == [] || rest[0] in rest;
      }
    }
  }

  /** What the alternate rows and the receipt have to do with each other. */
  lemma ReceiptFitsRow(c: Catalogue, h: History)
    requires c.Ordered() && Fenced(c, h) && Receipted(c, h) && !HasFailedRow(c, h.rows)
    ensures var alternate := RowsOf(h.rows, c.IsAlternate);
            && |alternate| <= 1 && (h.receipts != [] <==> alternate != [])
            && (alternate != [] ==>
                  && alternate[0] in h.rows && c.IsAlternate(alternate[0].name)
                  && h.receipts[0].migration == alternate[0].name && h.receipts[0].checksum == alternate[0].checksum)
  {
    var alternate := RowsOf(h.rows, c.IsAlternate);
    AlternateRows(c, h.rows);
    FewAlternates(c, h.rows);
    hide RowsOf, PreparationsDone, Completed;
    if h.receipts != [] {
      assert h.receipts[0] in h.receipts;
      var r :| r in h.rows && r.name == h.receipts[0].migration && r.checksum == h.receipts[0].checksum;
      assert r in alternate && alternate == [r];
    }
    if alternate != [] {
      assert alternate[0] in alternate && alternate[0].finished;
    }
  }

  /** In a fenced, receipted history without failed release rows the contract path check passes. */
  lemma NoFalseAlarm(c: Catalogue, h: History)
    requires c.Ordered() && Fenced(c, h) && Receipted(c, h) && !HasFailedRow(c, h.rows)
    ensures AssertContractPath(c, h.rows, if h.receipts == [] then None else Some(h.receipts[0])).Success?
  {
    ReceiptFitsRow(c, h);
    var alternate := RowsOf(h.rows, c.IsAlternate);
    hide RowsOf, HasFailedRow, Completed;
    if alternate != [] {
      assert h.receipts[0] in h.receipts;
      NoOriginal(c, h, alternate[0]);
    }
  }

  lemma NoOriginal(c: Catalogue, h: History, a: Row)
    requires c.Ordered() && Fenced(c, h) && a in h.rows && c.IsAlternate(a.name)
    ensures forall r | r in h.rows :: r.name != c.contract
  {
    var k :| 0 <= k < |h.rows| && h.rows[k] == a;
    assert forall i | 0 <= i < |h.rows| && c.IsContract(h.rows[i].name) :: i == k;
  }

  /**
   * In every reachable state a command is turned away at the door only for a failed release row,
   * or because the image carries other SQL than the one the receipt was written for.
   */
  lemma OnlyFailuresLock(c: Catalogue, h: History, inputs: seq<Input>, image: Image)
    requires c.Ordered() && Fenced(c, h) && Receipted(c, h)
    requires forall i | i in inputs :: PlainImage(c, i.image) && HasPreparations(c, i.image)
    ensures var h' := Run(c, h, inputs);
            Check(c, h', image).Failure? <==>
              || HasFailedRow(c, h'.rows)
              || (h'.receipts != [] && h'.receipts[0].checksum != image.checksum(h'.receipts[0].migration))
  {
    RunReceipted(c, h, inputs);
    var h' := Run(c, h, inputs);
    if !HasFailedRow(c, h'.rows) {
      NoFalseAlarm(c, h');
    }
  }
}
