/** The release command as it runs: it reads the history, deploys step by step, and reads it again. */
module ReleaseCommand {
  import opened Wrappers
  import opened StringOrder
  import opened ReleaseNames
  import opened ReleaseFence
  import opened ReleaseFenceProofs
  import opened ReleaseVerdicts

  class Database {
    const c: Catalogue
    var rows: seq<Row>
    var receipts: seq<Receipt>

    constructor (c: Catalogue, rows: seq<Row>, receipts: seq<Receipt>)
      ensures this.c == c && Contents() == History(rows, receipts)
    {
      this.c, this.rows, this.receipts := c, rows, receipts;
    }

    function Contents(): History
      reads this
    {
      History(rows, receipts)
    }

    /** Deploy the staged names one after another until done or stopped. */
    method MigrateDeploy(names: seq<string>, image: Image, who: Option<Identity>, stop: Stop) returns (ok: bool)
      modifies this
      ensures (Contents(), ok) == Deploy(c, old(Contents()), names, image, who, stop)
    {
      var left := stop.completes;
      for i := 0 to |names|
        invariant Deploy(c, old(Contents()), names, image, who, stop)
                  == Deploy(c, Contents(), names[i..], image, who, stop.(completes := left))
      {
        var name := names[i];
        assert names[i..][0] == name && names[i..][1..] == names[i + 1..];
        if !HasLiveRow(rows, name) {
          if left == 0 || (c.IsAlternate(name) && who.None?) {
            var after := Unfinished(c, Contents(), name, image, who, stop);
            rows, receipts := after.rows, after.receipts;
            return false;
          }
          receipts := WithReceipt(c, Contents(), name, image, who);
          rows := rows + [Row(name, true, false, image.checksum(name))];
          left := left - 1;
        }
      }
      return true;
    }

    method Staged(image: Image, target: string, alternate: Option<string>, who: Option<Identity>, stop: Stop)
      returns (v: Verdict)
      modifies this
      ensures (Contents(), v) == StagedMigrate(c, old(Contents()), image, target, alternate, who, stop)
    {
      var staged := StageMigrationNames(c, image.names, target, alternate);
      if staged.Failure? {
        return Failure(staged.error);
      }
      var ok := MigrateDeploy(staged.value, image, who, stop);
      return if ok then Success(()) else Failure(DeployStopped);
    }

    method ApplyExpandSteps(image: Image, s: Release, plan: Plan) returns (v: Verdict)
      modifies this
      ensures (Contents(), v) == RunExpand(c, old(Contents()), image, s, plan)
    {
      if s.contract {
        return Failure(ContractApplied);
      }
      if !s.expand {
        v := Staged(image, c.ceiling, None, None, plan.deploy);
        if v.Failure? {
          return;
        }
      }
      if !plan.registrySeeded {
        return Failure(RegistryProblem);
      }
      return Recheck(c, Contents(), image, Phase1);
    }

    method ApplyContractSteps(image: Image, s: Release, exception: Option<ObservationException>, plan: Plan)
      returns (v: Verdict)
      modifies this
      ensures (Contents(), v) == RunContract(c, old(Contents()), image, s, exception, plan)
    {
      if !s.expand {
        return Failure(ExpandMissing);
      }
      if !plan.registrySeeded || !plan.registryVerified {
        return Failure(RegistryProblem);
      }
      if Mismatched(c, s, exception) {
        return Failure(ExceptionMismatch);
      }
      if exception.Some? && !s.contract {
        v := Staged(image, PreparationTarget(c, exception.value), None, None, plan.preparation);
        if v.Failure? {
          return;
        }
        if !plan.authorized {
          return Failure(Unauthorized);
        }
      }
      var latest := Latest(image.names);
      if latest.None? || Less(latest.value, c.projectChange) {
        return Failure(StaleImage);
      }
      var who := if exception.Some? then Some(exception.value.identity) else None;
      v := Staged(image, latest.value, StagedAlternate(c, s, exception), who, plan.deploy);
      if v.Success? {
        v := Recheck(c, Contents(), image, Phase2);
      }
    }

    /** One command. It does what the specification says, and it keeps the fence. */
    method RunCommand(image: Image, command: Command, plan: Plan) returns (v: Verdict)
      modifies this
      ensures (Contents(), v) == Execute(c, old(Contents()), image, command, plan)
      ensures c.Ordered() && PlainImage(c, image) && old(Fenced(c, Contents())) ==> Fenced(c, Contents())
      ensures old(!Sound(c, Contents(), image)) ==> v.Failure? && Contents() == old(Contents())
      ensures command.Status? ==> Contents() == old(Contents()) && (v.Success? <==> Sound(c, Contents(), image))
      ensures command.AssertRuntime? ==>
                && Contents() == old(Contents())
                && (v.Success? <==> Fit(c, Contents(), image, command.phase) && plan.registryVerified)
      ensures command.ApplyExpand? && v.Success? ==> Fit(c, Contents(), image, Phase1) && plan.registrySeeded
      ensures command.ApplyContract? && v.Success? ==>
                Fit(c, Contents(), image, Phase2) && plan.registrySeeded && plan.registryVerified
    {
      ghost var h := Contents();
      CommandExact(c, h, image, command, plan);
      hide Sound, Fit;
      if c.Ordered() && PlainImage(c, image) && Fenced(c, Contents()) {
        ExecuteFenced(c, Contents(), image, command, plan);
      }
      var s := Check(c, Contents(), image);
      if s.Failure? {
        return Failure(s.error);
      }
      match command {
        case Status => return Success(());
        case AssertRuntime(phase) =>
          v := RuntimeVerdict(s.value, phase);
          if v.Success? && !plan.registryVerified {
            v := Failure(RegistryProblem);
          }
        case ApplyExpand =>
          if !s.value.baseline {
            return Failure(NoBaseline);
          }
          v := ApplyExpandSteps(image, s.value, plan);
        case ApplyContract(exception) =>
          if !s.value.baseline {
            return Failure(NoBaseline);
          }
          v := ApplyContractSteps(image, s.value, exception, plan);
      }
    }
  }
}
