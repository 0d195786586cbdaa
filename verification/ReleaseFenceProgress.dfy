/** What a successful command establishes, that an undisturbed release succeeds, and the command itself. */
module ReleaseFenceProgress {
  import opened Wrappers
  import opened StringOrder
  import opened ReleaseNames
  import opened ReleaseFence
  import opened ReleaseFenceProofs
  import opened ReleaseFenceReceipts

  /** A successful contract command leaves the phase 2 schema, on the path that was asked for. */
  lemma ContractVerdict(c: Catalogue, h: History, image: Image, exception: Option<ObservationException>, plan: Plan)
    requires c.Ordered() && PlainImage(c, image) && Fenced(c, h)
    requires Execute(c, h, image, ApplyContract(exception), plan).1.Success?
    ensures var h' := Execute(c, h, image, ApplyContract(exception), plan).0;
            var before, after := Check(c, h, image).value, Check(c, h', image);
            && after.Success? && after.value.expand && after.value.projectChanges
            && after.value.contractPath == Some(ChosenPath(c, before, exception))
  {
    ContractFenced(c, h, image, exception, plan);
    ContractRechecks(c, h, image, exception, plan);
    var h' := Execute(c, h, image, ApplyContract(exception), plan).0;
    hide RunContract, Execute, ChosenPath, AllIn, ReadReceipt, AssertContractPath;
    StatusMeans(c, h', image);
    PathUnique(c, h'.rows, ChosenPath(c, Check(c, h, image).value, exception),
               Check(c, h', image).value.contractPath.value);
  }

  lemma ContractRechecks(c: Catalogue, h: History, image: Image, exception: Option<ObservationException>, plan: Plan)
    requires Execute(c, h, image, ApplyContract(exception), plan).1.Success?
    ensures Check(c, h, image).Success?
    ensures var s := Check(c, h, image).value;
            Execute(c, h, image, ApplyContract(exception), plan) == RunContract(c, h, image, s, exception, plan)
    ensures var after := Check(c, Execute(c, h, image, ApplyContract(exception), plan).0, image);
            after.Success? && RuntimeVerdict(after.value, Phase2).Success?
            && (after.value.contract <==> after.value.contractPath.Some?)
            && (after.value.contractPath.Some? ==>
                  after.value.contractPath.value in
                    Completed(Execute(c, h, image, ApplyContract(exception), plan).0.rows))
  {
    hide AllIn, ReadReceipt, AssertContractPath, StagedMigrate, Prepare, StagedAlternate, Mismatched, HasFailedRow;
  }

  lemma PathUnique(c: Catalogue, rows: seq<Row>, path: string, path': string)
    requires OnPath(c, rows, path) && c.IsContract(path') && path' in Completed(rows)
    ensures path' == path
  {
  }

  /** An image with every migration the release needs. */
  ghost predicate FullImage(c: Catalogue, image: Image) {
    && PlainImage(c, image) && HasPreparations(c, image)
    && (forall r | r in c.required :: r in image.names)
    && c.contract in image.names && c.projectChange in image.names && c.ceiling in image.names
  }

  /** Nothing stops a deploy, the registry agrees and the authorization is granted. */
  ghost predicate Undisturbed(plan: Plan, image: Image) {
    && |image.names| < plan.preparation.completes && |image.names| < plan.deploy.completes
    && plan.registrySeeded && plan.registryVerified && plan.authorized
  }

  /** Migration deploys refuse a history with an unfinished row of any name. */
  ghost predicate AllFinished(rows: seq<Row>) {
    forall r | r in rows :: r.finished
  }

  lemma {:induction false} DeployFinishes(c: Catalogue, h: History, names: seq<string>, image: Image,
                                          who: Option<Identity>, stop: Stop)
    requires AllFinished(h.rows) && Deploy(c, h, names, image, who, stop).1
    ensures AllFinished(Deploy(c, h, names, image, who, stop).0.rows)
    decreases |names|
  {
    if names == [] {
    } else if HasLiveRow(h.rows, names[0]) {
      DeployFinishes(c, h, names[1..], image, who, stop);
    } else {
      DeployFinishes(c, Applied(c, h, names[0], image, who), names[1..], image, who,
                     stop.(completes := stop.completes - 1));
    }
  }

  /** A database from before the contract, with nothing left unfinished. */
  ghost predicate BeforeContract(c: Catalogue, h: History) {
    && AllFinished(h.rows) && Clean(c, h.rows) && h.receipts == [] && c.baseline in Completed(h.rows)
    && forall r | r in h.rows :: !c.IsContract(r.name)
  }

  lemma {:induction false} SelectedSize(c: Catalogue, names: seq<string>, target: string, alternate: Option<string>)
    ensures |Selected(c, names, target, alternate)| <= |names|
  {
    if names == [] {
    } else {
      SelectedSize(c, names[1..], target, alternate);
    }
  }

  lemma StagedSize(c: Catalogue, names: seq<string>, target: string, alternate: Option<string>)
    requires StageMigrationNames(c, names, target, alternate).Success?
    ensures |StageMigrationNames(c, names, target, alternate).value| <= |names| + 1
  {
    var selected := Selected(c, names, target, alternate);
    SelectedSize(c, names, target, alternate);
    SortedIsSort(selected);
    assert |multiset(Sorted(selected))| == |multiset(selected)|;
    if alternate.Some? {
      SortedIsSort(selected + [alternate.value]);
      assert |multiset(Sorted(selected + [alternate.value]))| == |multiset(selected + [alternate.value])|;
    }
  }

  /** A deploy nothing stops succeeds, and completes every staged release migration. */
  lemma StagedSucceeds(c: Catalogue, h: History, image: Image, target: string, alternate: Option<string>,
                       who: Option<Identity>, stop: Stop)
    requires PlainImage(c, image) && Clean(c, h.rows) && target in image.names
    requires |image.names| < stop.completes
    requires alternate.Some? ==> c.IsAlternate(alternate.value) && target != c.contract && who.Some?
    ensures var (h', v) := StagedMigrate(c, h, image, target, alternate, who, stop);
            && v.Success? && Clean(c, h'.rows) && h.rows <= h'.rows
            && forall n | c.IsRelease(n) &&
                          (|| (n in image.names && AtMost(n, target) && !(alternate.Some? && n == c.contract))
                           || (alternate == Some(n) && AtMost(c.contract, target))) :: n in Completed(h'.rows)
  {
    SelectedMembers(c, image.names, target, alternate, target);
    var staged := StageMigrationNames(c, image.names, target, alternate).value;
    StagedSize(c, image.names, target, alternate);
    forall n
      ensures n in staged <==>
              || (n in image.names && AtMost(n, target) && !(alternate.Some? && n == c.contract))
              || (alternate == Some(n) && AtMost(c.contract, target))
    {
      StagedMembers(c, image.names, target, alternate, n);
    }
    DeploySucceeds(c, h, staged, image, who, stop);
    DeployCompletes(c, h, staged, image, who, stop);
    DeployAppends(c, h, staged, image, who, stop);
  }

  lemma {:induction false} NoAlternates(c: Catalogue, rows: seq<Row>)
    requires forall r | r in rows :: !c.IsAlternate(r.name)
    ensures RowsOf(rows, c.IsAlternate) == []
  {
    if rows == [] {
    } else {
      assert rows[0] in rows && forall r | r in rows[1..] :: r in rows;
      NoAlternates(c, rows[1..]);
    }
  }

  lemma BeforeContractPasses(c: Catalogue, h: History, image: Image)
    requires c.Ordered() && BeforeContract(c, h)
    ensures Fenced(c, h) && Receipted(c, h)
    ensures Check(c, h, image).Success?
    ensures var s := Check(c, h, image).value; s.baseline && !s.contract && s.receipt.None?
    ensures Check(c, h, image).value.expand <==> AllIn(c.required, Completed(h.rows))
  {
    NoAlternates(c, h.rows);
  }

  /** A deploy below the contract leaves a database from before the contract. */
  lemma StillBefore(c: Catalogue, h: History, image: Image, target: string, stop: Stop)
    requires c.Ordered() && FullImage(c, image) && BeforeContract(c, h)
    requires AtMost(target, c.trafficPrep) && target in image.names && |image.names| < stop.completes
    ensures var (h', v) := StagedMigrate(c, h, image, target, None, None, stop);
            && v.Success? && BeforeContract(c, h') && Completed(h.rows) <= Completed(h'.rows)
            && forall n | n in image.names && c.IsRelease(n) && AtMost(n, target) :: n in Completed(h'.rows)
  {
    var h' := StagedMigrate(c, h, image, target, None, None, stop).0;
    BelowContract(c, target);
    StagedSucceeds(c, h, image, target, None, None, stop);
    DeployFinishes(c, h, StageMigrationNames(c, image.names, target, None).value, image, None, stop);
    CompletedGrows(h.rows, h'.rows);
    assert Fenced(c, h) && OnPath(c, h.rows, c.contract) && OnPath(c, h.rows, c.age);
    StagedFenced(c, h, image, target, None, None, stop, c.contract);
    StagedFenced(c, h, image, target, None, None, stop, c.age);
    BeforeContractPasses(c, h, image);
    StagedReceipted(c, h, image, target, None, None, stop, c.contract);
    assert forall r | r in h'.rows :: !c.IsContract(r.name);
    assert h'.receipts == [] by {
      if h'.receipts != [] {
        ReceiptHasRow(c, h');
      }
    }
  }

  /** Undisturbed, the expand command succeeds on a database from before the contract. */
  lemma ExpandSucceeds(c: Catalogue, h: History, image: Image, plan: Plan)
    requires c.Ordered() && FullImage(c, image) && Undisturbed(plan, image) && BeforeContract(c, h)
    ensures var (h', v) := Execute(c, h, image, ApplyExpand, plan);
            v.Success? && BeforeContract(c, h') && AllIn(c.required, Completed(h'.rows))
  {
    BeforeContractPasses(c, h, image);
    var h' := Execute(c, h, image, ApplyExpand, plan).0;
    StillBefore(c, h, image, c.ceiling, plan.deploy);
    BeforeContractPasses(c, h', image);
  }

  /** The undisturbed contract deploy completes the chosen contract and the change requests. */
  lemma ContractDeploys(c: Catalogue, h: History, image: Image, s: Release, exception: Option<ObservationException>,
                        plan: Plan)
    requires c.Ordered() && FullImage(c, image) && Undisturbed(plan, image) && BeforeContract(c, h)
    requires AllIn(c.required, Completed(h.rows)) && s.expand && !s.contract && s.contractPath.None? && s.receipt.None?
    ensures var (h', v) := RunContract(c, h, image, s, exception, plan);
            && v == Recheck(c, h', image, Phase2) && Clean(c, h'.rows)
            && c.baseline in Completed(h'.rows) && AllIn(c.required, Completed(h'.rows))
            && c.projectChange in Completed(h'.rows) && ChosenPath(c, s, exception) in Completed(h'.rows)
  {
    hide StagedMigrate, Recheck, HasFailedRow, Latest;
    var h1 := Prepare(c, h, image, s, exception, plan).0;
    if exception.Some? {
      PreparationReachable(c, exception.value);
      StillBefore(c, h, image, PreparationTarget(c, exception.value), plan.preparation);
    }
    LatestAboveContract(c, image);
    LatestIsMax(image.names);
    var latest := Latest(image.names).value;
    var who := if exception.Some? then Some(exception.value.identity) else None;
    StagedSucceeds(c, h1, image, latest, StagedAlternate(c, s, exception), who, plan.deploy);
    var h2 := StagedMigrate(c, h1, image, latest, StagedAlternate(c, s, exception), who, plan.deploy).0;
    CompletedGrows(h1.rows, h2.rows);
    Irreflexive(c.contract);
    assert c.projectChange != c.contract;
  }

  /** Undisturbed, the contract command then succeeds too, on the original or any exception path. */
  lemma ContractSucceeds(c: Catalogue, h: History, image: Image, exception: Option<ObservationException>, plan: Plan)
    requires c.Ordered() && FullImage(c, image) && Undisturbed(plan, image) && BeforeContract(c, h)
    requires AllIn(c.required, Completed(h.rows))
    ensures Execute(c, h, image, ApplyContract(exception), plan).1.Success?
  {
    hide RunContract, AssertContractPath, Completed, AllIn, Check, FullImage, Undisturbed, Fenced, Receipted;
    BeforeContractPasses(c, h, image);
    CheckReads(c, h, image);
    var s := Check(c, h, image).value;
    ContractDeploys(c, h, image, s, exception, plan);
    FinalCheck(c, h, image, exception, plan);
    var h' := RunContract(c, h, image, s, exception, plan).0;
    RecheckPasses(c, h', image);
  }

  lemma RecheckPasses(c: Catalogue, h: History, image: Image)
    requires Check(c, h, image).Success? && c.baseline in Completed(h.rows) && AllIn(c.required, Completed(h.rows))
    requires c.projectChange in Completed(h.rows) && exists n :: c.IsContract(n) && n in Completed(h.rows)
    ensures Recheck(c, h, image, Phase2).Success?
  {
    hide Completed, AllIn, AssertContractPath, ReadReceipt, HasFailedRow;
  }

  lemma PreparationReachable(c: Catalogue, e: ObservationException)
    requires c.Ordered()
    ensures AtMost(PreparationTarget(c, e), c.trafficPrep)
  {
    if c.exceptionPrep != c.bridgePrep && c.bridgePrep != c.trafficPrep {
      Transitive(c.exceptionPrep, c.bridgePrep, c.trafficPrep);
    }
  }

  lemma LatestAboveContract(c: Catalogue, image: Image)
    requires c.Ordered() && FullImage(c, image)
    ensures Latest(image.names).Some?
    ensures var latest := Latest(image.names).value;
            !Less(latest, c.projectChange) && AtMost(c.contract, latest) && latest != c.contract
            && AtMost(c.projectChange, latest)
  {
    LatestIsMax(image.names);
    var latest := Latest(image.names).value;
    assert AtMost(c.projectChange, latest);
    if c.projectChange != latest {
      Asymmetric(c.projectChange, latest);
      Transitive(c.contract, c.projectChange, latest);
    } else {
      Irreflexive(latest);
    }
    Asymmetric(c.contract, latest);
  }

  /** After the contract deploy nothing makes the closing check fail. */
  lemma FinalCheck(c: Catalogue, h: History, image: Image, exception: Option<ObservationException>, plan: Plan)
    requires c.Ordered() && FullImage(c, image) && Fenced(c, h) && Receipted(c, h) && Check(c, h, image).Success?
    requires h.receipts == []
    ensures var h' := RunContract(c, h, image, Check(c, h, image).value, exception, plan).0;
            !HasFailedRow(c, h'.rows) ==> Check(c, h', image).Success?
  {
    var h' := RunContract(c, h, image, Check(c, h, image).value, exception, plan).0;
    ContractFenced(c, h, image, exception, plan);
    ContractReceipted(c, h, image, exception, plan);
    if !HasFailedRow(c, h'.rows) {
      NoFalseAlarm(c, h');
      ContractReceiptsOwnImage(c, h, image, exception, plan);
    }
  }

  lemma {:induction false} DeployReceiptsOwnImage(c: Catalogue, h: History, names: seq<string>, image: Image,
                                                  who: Option<Identity>, stop: Stop)
    requires forall x | x in h.receipts :: x.checksum == image.checksum(x.migration)
    ensures forall x | x in Deploy(c, h, names, image, who, stop).0.receipts ::
              x.checksum == image.checksum(x.migration)
    decreases |names|
  {
    if names == [] {
    } else {
      if HasLiveRow(h.rows, names[0]) {
        DeployReceiptsOwnImage(c, h, names[1..], image, who, stop);
      } else if !(stop.completes == 0 || (c.IsAlternate(names[0]) && who.None?)) {
        DeployReceiptsOwnImage(c, Applied(c, h, names[0], image, who), names[1..], image, who,
                               stop.(completes := stop.completes - 1));
      }
    }
  }

  lemma StagedReceiptsOwnImage(c: Catalogue, h: History, image: Image, target: string, alternate: Option<string>,
                               who: Option<Identity>, stop: Stop)
    requires forall x | x in h.receipts :: x.checksum == image.checksum(x.migration)
    ensures forall x | x in StagedMigrate(c, h, image, target, alternate, who, stop).0.receipts ::
              x.checksum == image.checksum(x.migration)
  {
    var staged := StageMigrationNames(c, image.names, target, alternate);
    if staged.Success? {
      DeployReceiptsOwnImage(c, h, staged.value, image, who, stop);
    }
  }

  lemma ContractReceiptsOwnImage(c: Catalogue, h: History, image: Image, exception: Option<ObservationException>,
                                 plan: Plan)
    requires h.receipts == [] && Check(c, h, image).Success?
    ensures forall x | x in RunContract(c, h, image, Check(c, h, image).value, exception, plan).0.receipts ::
              x.checksum == image.checksum(x.migration)
  {
    var s := Check(c, h, image).value;
    var h1 := Prepare(c, h, image, s, exception, plan).0;
    if exception.Some? {
      StagedReceiptsOwnImage(c, h, image, PreparationTarget(c, exception.value), None, None, plan.preparation);
    }
    var latest := Latest(image.names);
    if latest.Some? {
      var who := if exception.Some? then Some(exception.value.identity) else None;
      StagedReceiptsOwnImage(c, h1, image, latest.value, StagedAlternate(c, s, exception), who, plan.deploy);
    }
  }
}
