/** What every run of release commands keeps. */
module ReleaseFenceProofs {
  import opened Wrappers
  import opened Sorting
  import opened StringOrder
  import opened ReleaseNames
  import opened ReleaseFence

  // ----- staging -----

  ghost predicate Ascends(names: seq<string>) {
    forall i, j | 0 <= i < j < |names| :: AtMost(names[i], names[j])
  }

  lemma LessIsStrict()
    ensures Strict(Less)
  {
    forall a ensures !Less(a, a) {
      Irreflexive(a);
    }
    forall a, b, c | Less(a, b) && Less(b, c) ensures Less(a, c) {
      Transitive(a, b, c);
    }
  }

  /** Sorting the staged names keeps each of them and puts them in name order. */
  lemma SortedIsSort(names: seq<string>)
    ensures multiset(Sorted(names)) == multiset(names)
    ensures Ascends(Sorted(names))
  {
    LessIsStrict();
    SortSorts(names, Less);
    var sorted := Sorted(names);
    hide Sort, Strict, Less;
    forall i, j | 0 <= i < j < |sorted| ensures AtMost(sorted[i], sorted[j]) {
      Total(sorted[i], sorted[j]);
    }
  }

  lemma SortedMembers(names: seq<string>, n: string)
    ensures n in Sorted(names) <==> n in names
  {
    SortedIsSort(names);
    assert n in multiset(Sorted(names)) <==> n in multiset(names);
  }

  lemma {:induction false} SelectedMembers(c: Catalogue, names: seq<string>, target: string,
                                           alternate: Option<string>, n: string)
    ensures n in Selected(c, names, target, alternate) <==>
            n in names && AtMost(n, target) && !(alternate.Some? && n == c.contract)
  {
    if names == [] {
    } else {
      SelectedMembers(c, names[1..], target, alternate, n);
      assert n in names <==> n == names[0] || n in names[1..];
    }
  }

  /** Exactly what one staged tree contains. */
  lemma StagedMembers(c: Catalogue, names: seq<string>, target: string, alternate: Option<string>, n: string)
    requires StageMigrationNames(c, names, target, alternate).Success?
    ensures n in StageMigrationNames(c, names, target, alternate).value <==>
            || (n in names && AtMost(n, target) && !(alternate.Some? && n == c.contract))
            || (alternate == Some(n) && AtMost(c.contract, target))
  {
    var selected := Selected(c, names, target, alternate);
    SelectedMembers(c, names, target, alternate, n);
    if alternate.Some? {
      SortedMembers(selected + [alternate.value], n);
    }
    SortedMembers(selected, n);
  }

  // ----- one deploy -----

  lemma CompletedGrows(rows: seq<Row>, rows': seq<Row>)
    requires rows <= rows'
    ensures Completed(rows) <= Completed(rows')
    ensures forall r | r in rows :: r in rows'
  {
    assert rows' == rows + rows'[|rows|..];
  }

  /** A deploy only appends rows. */
  lemma {:induction false} DeployAppends(c: Catalogue, h: History, names: seq<string>, image: Image,
                                         who: Option<Identity>, stop: Stop)
    ensures h.rows <= Deploy(c, h, names, image, who, stop).0.rows
    decreases |names|
  {
    if names == [] {
    } else {
      if HasLiveRow(h.rows, names[0]) {
        DeployAppends(c, h, names[1..], image, who, stop);
      } else if !(stop.completes == 0 || (c.IsAlternate(names[0]) && who.None?)) {
        DeployAppends(c, Applied(c, h, names[0], image, who), names[1..], image, who,
                      stop.(completes := stop.completes - 1));
      }
    }
  }

  ghost predicate Clean(c: Catalogue, rows: seq<Row>) {
    forall r | r in rows && c.IsRelease(r.name) :: r.finished && !r.rolledBack
  }

  /** A deploy that succeeds leaves every staged release migration complete. */
  lemma {:induction false} DeployCompletes(c: Catalogue, h: History, names: seq<string>, image: Image,
                                           who: Option<Identity>, stop: Stop)
    requires Clean(c, h.rows)
    ensures var (h', ok) := Deploy(c, h, names, image, who, stop);
            ok ==> Clean(c, h'.rows) && forall n | n in names && c.IsRelease(n) :: n in Completed(h'.rows)
    decreases |names|
  {
    if names == [] {
    } else {
      var (h', ok) := Deploy(c, h, names, image, who, stop);
      var n := names[0];
      if HasLiveRow(h.rows, n) {
        DeployCompletes(c, h, names[1..], image, who, stop);
        DeployAppends(c, h, names[1..], image, who, stop);
        CompletedGrows(h.rows, h'.rows);
        assert c.IsRelease(n) ==> n in Completed(h.rows);
      } else if !(stop.completes == 0 || (c.IsAlternate(n) && who.None?)) {
        var h1, stop1 := Applied(c, h, n, image, who), stop.(completes := stop.completes - 1);
        DeployCompletes(c, h1, names[1..], image, who, stop1);
        DeployAppends(c, h1, names[1..], image, who, stop1);
        CompletedGrows(h1.rows, h'.rows);
        assert h1.rows[|h.rows|] in h1.rows && n in Completed(h1.rows);
      }
      assert forall m :: m in names <==> m == n || m in names[1..];
    }
  }

  /** With enough steps and the authorization it needs, a deploy succeeds. */
  lemma {:induction false} DeploySucceeds(c: Catalogue, h: History, names: seq<string>, image: Image,
                                          who: Option<Identity>, stop: Stop)
    requires |names| <= stop.completes
    requires forall n | n in names && c.IsAlternate(n) :: who.Some? || HasLiveRow(h.rows, n)
    ensures Deploy(c, h, names, image, who, stop).1
    decreases |names|
  {
    if names == [] {
    } else {
      if HasLiveRow(h.rows, names[0]) {
        DeploySucceeds(c, h, names[1..], image, who, stop);
      } else {
        DeploySucceeds(c, Applied(c, h, names[0], image, who), names[1..], image, who,
                       stop.(completes := stop.completes - 1));
      }
    }
  }

  // ----- the fence -----

  /** At most one contract row, and none before the expand migrations are complete. */
  ghost predicate Fenced(c: Catalogue, h: History) {
    && (forall i, j | 0 <= i < j < |h.rows| :: !(c.IsContract(h.rows[i].name) && c.IsContract(h.rows[j].name)))
    && forall r | r in h.rows && c.IsContract(r.name) :: AllIn(c.required, Completed(h.rows))
  }

  /** Every contract row is on this path and was never rolled back. */
  ghost predicate OnPath(c: Catalogue, rows: seq<Row>, path: string) {
    forall r | r in rows && c.IsContract(r.name) :: r.name == path && !r.rolledBack
  }

  ghost predicate MayStage(c: Catalogue, h: History, names: seq<string>, path: string) {
    forall n | n in names && c.IsContract(n) :: n == path && AllIn(c.required, Completed(h.rows))
  }

  lemma AddRow(c: Catalogue, h: History, row: Row, receipts: seq<Receipt>, path: string)
    requires Fenced(c, h) && OnPath(c, h.rows, path)
    requires c.IsContract(row.name) ==>
               row.name == path && !HasLiveRow(h.rows, path) && AllIn(c.required, Completed(h.rows))
    requires !row.rolledBack
    ensures Fenced(c, History(h.rows + [row], receipts)) && OnPath(c, h.rows + [row], path)
    ensures Completed(h.rows) <= Completed(h.rows + [row])
  {
    CompletedGrows(h.rows, h.rows + [row]);
    if c.IsContract(row.name) {
      assert forall r | r in h.rows :: !c.IsContract(r.name);
    }
  }

  lemma ApplyFirst(c: Catalogue, h: History, names: seq<string>, image: Image, who: Option<Identity>, path: string)
    requires Fenced(c, h) && OnPath(c, h.rows, path) && MayStage(c, h, names, path)
    requires names != [] && !HasLiveRow(h.rows, names[0])
    ensures var h1 := Applied(c, h, names[0], image, who);
            Fenced(c, h1) && OnPath(c, h1.rows, path) && MayStage(c, h1, names[1..], path)
  {
    hide WithReceipt, Completed;
    AddRow(c, h, Row(names[0], true, false, image.checksum(names[0])),
           Applied(c, h, names[0], image, who).receipts, path);
  }

  /** Deploying names of a single contract path keeps the fence. */
  lemma {:induction false} DeployFenced(c: Catalogue, h: History, names: seq<string>, image: Image,
                                        who: Option<Identity>, stop: Stop, path: string)
    requires Fenced(c, h) && OnPath(c, h.rows, path) && MayStage(c, h, names, path)
    ensures var h' := Deploy(c, h, names, image, who, stop).0; Fenced(c, h') && OnPath(c, h'.rows, path)
    decreases |names|
  {
    if names == [] {
    } else {
      var n := names[0];
      if HasLiveRow(h.rows, n) {
        DeployFenced(c, h, names[1..], image, who, stop, path);
      } else if stop.completes == 0 || (c.IsAlternate(n) && who.None?) {
        hide WithReceipt, Completed;
        var h' := Unfinished(c, h, n, image, who, stop);
        AddRow(c, h, Row(n, false, false, image.checksum(n)), h'.receipts, path);
      } else {
        ApplyFirst(c, h, names, image, who, path);
        hide WithReceipt, Completed, Fenced, OnPath, MayStage, Applied, HasLiveRow;
        var h1 := Applied(c, h, n, image, who);
        DeployFenced(c, h1, names[1..], image, who, stop.(completes := stop.completes - 1), path);
      }
    }
  }

  /** Alternate contracts live beside the migrations directory, never in it. */
  ghost predicate PlainImage(c: Catalogue, image: Image) {
    forall n | n in image.names :: !c.IsAlternate(n)
  }

  lemma StagedFenced(c: Catalogue, h: History, image: Image, target: string, alternate: Option<string>,
                     who: Option<Identity>, stop: Stop, path: string)
    requires c.Ordered() && PlainImage(c, image) && Fenced(c, h) && OnPath(c, h.rows, path)
    requires AtMost(c.contract, target) ==>
               path == (if alternate.Some? then alternate.value else c.contract) && AllIn(c.required, Completed(h.rows))
    ensures var h' := StagedMigrate(c, h, image, target, alternate, who, stop).0;
            Fenced(c, h') && OnPath(c, h'.rows, path)
  {
    var staged := StageMigrationNames(c, image.names, target, alternate);
    if staged.Success? {
      forall n | n in staged.value && c.IsContract(n)
        ensures n == path && AllIn(c.required, Completed(h.rows))
      {
        StagedMembers(c, image.names, target, alternate, n);
      }
      DeployFenced(c, h, staged.value, image, who, stop, path);
    }
  }

  /** Below the contract nothing is staged that could touch it, whatever the path. */
  lemma BelowContract(c: Catalogue, target: string)
    requires c.Ordered() && AtMost(target, c.trafficPrep)
    ensures !AtMost(c.contract, target)
  {
    if target != c.trafficPrep {
      Transitive(target, c.trafficPrep, c.contract);
    }
    Asymmetric(target, c.contract);
  }

  lemma PreparationBelowContract(c: Catalogue, e: ObservationException)
    requires c.Ordered()
    ensures !AtMost(c.contract, PreparationTarget(c, e)) && !AtMost(c.contract, c.ceiling)
  {
    if c.exceptionPrep != c.bridgePrep && c.bridgePrep != c.trafficPrep {
      Transitive(c.exceptionPrep, c.bridgePrep, c.trafficPrep);
    }
    BelowContract(c, PreparationTarget(c, e));
    BelowContract(c, c.ceiling);
  }

  lemma {:induction false} RowsOfMembers(rows: seq<Row>, p: string -> bool, r: Row)
    ensures r in RowsOf(rows, p) <==> r in rows && p(r.name)
  {
    if rows == [] {
    } else {
      RowsOfMembers(rows[1..], p, r);
      assert r in rows <==> r == rows[0] || r in rows[1..];
    }
  }

  lemma AlternateRows(c: Catalogue, rows: seq<Row>)
    ensures forall r :: r in RowsOf(rows, c.IsAlternate) <==> r in rows && c.IsAlternate(r.name)
  {
    forall r
      ensures r in RowsOf(rows, c.IsAlternate) <==> r in rows && c.IsAlternate(r.name)
    {
      RowsOfMembers(rows, c.IsAlternate, r);
    }
  }

  /** What a passed check has read. */
  lemma CheckReads(c: Catalogue, h: History, image: Image)
    requires Check(c, h, image).Success?
    ensures var s, done := Check(c, h, image).value, Completed(h.rows);
            && Clean(c, h.rows) && AssertContractPath(c, h.rows, s.receipt).Success?
            && (s.expand <==> AllIn(c.required, done)) && (s.contract <==> s.contractPath.Some?)
            && (s.contractPath.None? ==> forall n | c.IsContract(n) :: n !in done)
            && (s.contractPath.Some? ==> c.IsContract(s.contractPath.value) && s.contractPath.value in done)
  {
    hide AssertContractPath, Completed, AllIn;
  }

  lemma OneAlternate(c: Catalogue, rows: seq<Row>, receipt: Option<Receipt>, r: Row)
    requires AssertContractPath(c, rows, receipt).Success? && r in rows && c.IsAlternate(r.name)
    ensures receipt.Some? && receipt.value.migration == r.name
  {
    hide Completed;
    AlternateRows(c, rows);
    var alternate := RowsOf(rows, c.IsAlternate);
    hide RowsOf;
    assert r in alternate;
  }

  /** What a passed check says about the history. */
  lemma StatusMeans(c: Catalogue, h: History, image: Image)
    requires c.Ordered() && Fenced(c, h) && Check(c, h, image).Success?
    ensures var s := Check(c, h, image).value;
            && Clean(c, h.rows)
            && (s.contractPath.None? ==> forall r | r in h.rows :: !c.IsContract(r.name))
            && (s.contractPath.Some? ==>
                  && c.IsContract(s.contractPath.value) && OnPath(c, h.rows, s.contractPath.value)
                  && AllIn(c.required, Completed(h.rows)))
            && (s.contractPath.Some? && c.IsAlternate(s.contractPath.value) ==>
                  s.receipt.Some? && s.receipt.value.migration == s.contractPath.value)
  {
    CheckReads(c, h, image);
    hide Check, AssertContractPath;
    var s := Check(c, h, image).value;
    if s.contractPath.Some? {
      var r :| r in h.rows && r.name == s.contractPath.value && r.finished && !r.rolledBack;
      if c.IsAlternate(r.name) {
        OneAlternate(c, h.rows, s.receipt, r);
      }
    } else {
      forall r | r in h.rows
        ensures !c.IsContract(r.name)
      {
        assert r.name !in Completed(h.rows) || !c.IsContract(r.name);
      }
    }
  }

  lemma PrepareFenced(c: Catalogue, h: History, image: Image, s: Release, exception: Option<ObservationException>,
                      plan: Plan, path: string)
    requires c.Ordered() && PlainImage(c, image) && Fenced(c, h) && OnPath(c, h.rows, path)
    ensures var h' := Prepare(c, h, image, s, exception, plan).0; Fenced(c, h') && OnPath(c, h'.rows, path)
    ensures h.rows <= Prepare(c, h, image, s, exception, plan).0.rows
  {
    if exception.Some? && !s.contract {
      var target := PreparationTarget(c, exception.value);
      PreparationBelowContract(c, exception.value);
      StagedFenced(c, h, image, target, None, None, plan.preparation, path);
      StagedAppends(c, h, image, target, None, None, plan.preparation);
    }
  }

  lemma StagedAppends(c: Catalogue, h: History, image: Image, target: string, alternate: Option<string>,
                      who: Option<Identity>, stop: Stop)
    ensures h.rows <= StagedMigrate(c, h, image, target, alternate, who, stop).0.rows
  {
    var staged := StageMigrationNames(c, image.names, target, alternate);
    if staged.Success? {
      DeployAppends(c, h, staged.value, image, who, stop);
    }
  }

  lemma {:induction false} LatestIsMax(names: seq<string>)
    ensures names != [] <==> Latest(names).Some?
    ensures Latest(names).Some? ==> Latest(names).value in names
    ensures Latest(names).Some? ==> forall n | n in names :: AtMost(n, Latest(names).value)
  {
    if names == [] {
    } else {
      LatestIsMax(names[1..]);
      if names[1..] != [] {
        var m := Latest(names[1..]).value;
        Total(names[0], m);
        forall n | n in names
          ensures AtMost(n, Latest(names).value)
        {
          if n in names[1..] && Less(m, names[0]) && n != m {
            Transitive(n, m, names[0]);
          }
        }
      }
    }
  }

  /** The path an accepted contract command stages is the path of any contract row there is. */
  function ChosenPath(c: Catalogue, s: Release, exception: Option<ObservationException>): string {
    if exception.Some? then ExceptionPath(c, exception.value)
    else if s.contractPath.Some? then s.contractPath.value
    else c.contract
  }

  lemma ContractFenced(c: Catalogue, h: History, image: Image, exception: Option<ObservationException>, plan: Plan)
    requires c.Ordered() && PlainImage(c, image) && Fenced(c, h) && Check(c, h, image).Success?
    ensures var (h', v) := RunContract(c, h, image, Check(c, h, image).value, exception, plan);
            && Fenced(c, h')
            && (v.Success? ==> OnPath(c, h'.rows, ChosenPath(c, Check(c, h, image).value, exception)))
  {
    var s := Check(c, h, image).value;
    StatusMeans(c, h, image);
    CheckReads(c, h, image);
    if s.expand && !Mismatched(c, s, exception) {
      var path := ChosenPath(c, s, exception);
      var (h1, v1) := Prepare(c, h, image, s, exception, plan);
      assert OnPath(c, h.rows, path);
      PrepareFenced(c, h, image, s, exception, plan, path);
      CompletedGrows(h.rows, h1.rows);
      hide Check, Completed, Prepare, Mismatched, StageContract, Fenced, OnPath;
      if v1.Success? {
        StageFenced(c, h1, image, s, exception, plan);
      }
    }
  }

  lemma StageFenced(c: Catalogue, h: History, image: Image, s: Release, exception: Option<ObservationException>,
                    plan: Plan)
    requires c.Ordered() && PlainImage(c, image) && Fenced(c, h) && AllIn(c.required, Completed(h.rows))
    requires s.contractPath.Some? ==> c.IsContract(s.contractPath.value)
    requires OnPath(c, h.rows, ChosenPath(c, s, exception))
    ensures var h' := StageContract(c, h, image, s, exception, plan).0;
            Fenced(c, h') && OnPath(c, h'.rows, ChosenPath(c, s, exception))
  {
    hide StagedMigrate, Recheck, Fenced, Completed, AllIn, Latest, OnPath;
    var latest := Latest(image.names);
    if latest.Some? {
      var alternate := StagedAlternate(c, s, exception);
      var who := if exception.Some? then Some(exception.value.identity) else None;
      StagedFenced(c, h, image, latest.value, alternate, who, plan.deploy, ChosenPath(c, s, exception));
    }
  }

  lemma ExpandFenced(c: Catalogue, h: History, image: Image, plan: Plan)
    requires c.Ordered() && PlainImage(c, image) && Fenced(c, h) && Check(c, h, image).Success?
    ensures Fenced(c, RunExpand(c, h, image, Check(c, h, image).value, plan).0)
  {
    var s := Check(c, h, image).value;
    StatusMeans(c, h, image);
    if !s.contract && !s.expand {
      PreparationBelowContract(c, ObservationException(AgeOnly, Identity("", "", "", "", "")));
      StagedFenced(c, h, image, c.ceiling, None, None, plan.deploy, c.contract);
    }
  }

  lemma ExecuteFenced(c: Catalogue, h: History, image: Image, command: Command, plan: Plan)
    requires c.Ordered() && PlainImage(c, image) && Fenced(c, h)
    ensures Fenced(c, Execute(c, h, image, command, plan).0)
  {
    if Check(c, h, image).Success? {
      match command {
        case ApplyExpand => ExpandFenced(c, h, image, plan);
        case ApplyContract(exception) => ContractFenced(c, h, image, exception, plan);
        case _ =>
      }
    }
  }

  /**
   * Over every run of commands, on any images, with any deploy stopping anywhere: the history never
   * holds two contract rows, and none before every required expand migration is complete.
   */
  lemma {:induction false} FenceHolds(c: Catalogue, h: History, inputs: seq<Input>)
    requires c.Ordered() && Fenced(c, h) && forall i | i in inputs :: PlainImage(c, i.image)
    ensures Fenced(c, Run(c, h, inputs))
    decreases |inputs|
  {
    if inputs == [] {
    } else {
      var i := inputs[0];
      assert i in inputs;
      ExecuteFenced(c, h, i.image, i.command, i.plan);
      FenceHolds(c, Execute(c, h, i.image, i.command, i.plan).0, inputs[1..]);
    }
  }

  /** An unfinished or rolled-back release row blocks every later command for good. */
  lemma {:induction false} FailedRowBlocks(c: Catalogue, h: History, inputs: seq<Input>)
    requires HasFailedRow(c, h.rows)
    ensures Run(c, h, inputs) == h
    ensures forall i | i in inputs :: Execute(c, h, i.image, i.command, i.plan).1 == Failure(FailedRows)
    decreases |inputs|
  {
    if inputs == [] {
    } else {
      FailedRowBlocks(c, h, inputs[1..]);
      assert forall i | i in inputs :: i == inputs[0] || i in inputs[1..];
    }
  }

  lemma ContractAppends(c: Catalogue, h: History, image: Image, s: Release, exception: Option<ObservationException>,
                        plan: Plan)
    ensures h.rows <= RunContract(c, h, image, s, exception, plan).0.rows
  {
    hide StagedMigrate, Recheck, Mismatched, StagedAlternate;
    var h1 := Prepare(c, h, image, s, exception, plan).0;
    if exception.Some? {
      StagedAppends(c, h, image, PreparationTarget(c, exception.value), None, None, plan.preparation);
    }
    var latest := Latest(image.names);
    if latest.Some? {
      var alternate := StagedAlternate(c, s, exception);
      var who := if exception.Some? then Some(exception.value.identity) else None;
      StagedAppends(c, h1, image, latest.value, alternate, who, plan.deploy);
    }
  }

  lemma ExecuteAppends(c: Catalogue, h: History, image: Image, command: Command, plan: Plan)
    ensures h.rows <= Execute(c, h, image, command, plan).0.rows
  {
    hide Check, RunContract, StagedMigrate, Recheck;
    if Check(c, h, image).Success? {
      if command.ApplyExpand? {
        StagedAppends(c, h, image, c.ceiling, None, None, plan.deploy);
      } else if command.ApplyContract? {
        ContractAppends(c, h, image, Check(c, h, image).value, command.exception, plan);
      }
    }
  }

  lemma {:induction false} RunAppends(c: Catalogue, h: History, inputs: seq<Input>)
    ensures h.rows <= Run(c, h, inputs).rows
    decreases |inputs|
  {
    if inputs == [] {
    } else {
      var i := inputs[0];
      ExecuteAppends(c, h, i.image, i.command, i.plan);
      RunAppends(c, Execute(c, h, i.image, i.command, i.plan).0, inputs[1..]);
    }
  }

  /** Once the phase 2 check passes, the phase 1 check never passes again, on any image. */
  lemma PhaseTwoIsFinal(c: Catalogue, h: History, image: Image, inputs: seq<Input>, image': Image)
    requires Recheck(c, h, image, Phase2).Success?
    ensures Recheck(c, Run(c, h, inputs), image', Phase1).Failure?
  {
    RunAppends(c, h, inputs);
    var h' := Run(c, h, inputs);
    CompletedGrows(h.rows, h'.rows);
    CheckReads(c, h, image);
    hide Run, Check, AssertContractPath, AllIn, Completed;
    if Check(c, h', image').Success? {
      CheckReads(c, h', image');
    }
  }
}
