/**
 * The release migration fence as a state machine over the migration history and the exception
 * receipts. Every deploy may stop half-way and leave an unfinished row.
 *
 * A migration deploy applies the staged, not yet applied names in order. An alternate contract
 * migration writes its receipt in the transaction that applies it.
 */
module ReleaseFence {
  import opened Wrappers
  import opened Sorting
  import opened StringOrder
  import opened ReleaseNames

  datatype Row = Row(name: string, finished: bool, rolledBack: bool, checksum: string)

  datatype Identity = Identity(exceptionId: string, sourceSha: string, image: string, actor: string, runId: string)

  datatype Profile = AgeOnly | ImageBridge36 | ImageBridgeTraffic

  datatype ObservationException = ObservationException(profile: Profile, identity: Identity)

  /** `valid` stands for the authorization match, the scope, the times and the recorded evidence. */
  datatype Receipt = Receipt(migration: string, identity: Identity, checksum: string, valid: bool)

  datatype History = History(rows: seq<Row>, receipts: seq<Receipt>)

  /** The migrations directory of a release image, and the checksum of each alternate contract file. */
  datatype Image = Image(names: seq<string>, checksum: string -> string)

  datatype Phase = Phase1 | Phase2

  datatype Command =
    | Status
    | ApplyExpand
    | ApplyContract(exception: Option<ObservationException>)
    | AssertRuntime(phase: Phase)

  /** How far one deploy gets: this many migrations, then possibly an unfinished row and its receipt. */
  datatype Stop = Stop(completes: nat, leavesUnfinished: bool, receiptWritten: bool)

  /** Everything around one command that the command does not decide. */
  datatype Plan = Plan(preparation: Stop, deploy: Stop, registrySeeded: bool, registryVerified: bool, authorized: bool)

  datatype Refusal =
    | FailedRows | TooManyReceipts | ReceiptChecksum | MixedPaths | ReceiptWithoutMigration | InvalidReceipt
    | NoBaseline | WrongPhase | ContractApplied | ExpandMissing | ExceptionMismatch | Unauthorized
    | RegistryProblem | TargetMissing | UnknownAlternate | StaleImage | DeployStopped

  type Verdict = Result<(), Refusal>

  // ----- reading the history -----

  function Completed(rows: seq<Row>): set<string> {
    set r | r in rows && r.finished && !r.rolledBack :: r.name
  }

  predicate HasFailedRow(c: Catalogue, rows: seq<Row>) {
    exists r :: r in rows && c.IsRelease(r.name) && (!r.finished || r.rolledBack)
  }

  predicate AllIn(names: seq<string>, s: set<string>) {
    forall n | n in names :: n in s
  }

  function RowsOf(rows: seq<Row>, p: string -> bool): seq<Row> {
    if rows == [] then []
    else if p(rows[0].name) then [rows[0]] + RowsOf(rows[1..], p)
    else RowsOf(rows[1..], p)
  }

  function ReadReceipt(h: History, image: Image): Result<Option<Receipt>, Refusal> {
    if |h.receipts| > 1 then Failure(TooManyReceipts)
    else if h.receipts == [] then Success(None)
    else if h.receipts[0].checksum != image.checksum(h.receipts[0].migration) then Failure(ReceiptChecksum)
    else Success(Some(h.receipts[0]))
  }

  function AssertContractPath(c: Catalogue, rows: seq<Row>, receipt: Option<Receipt>): Verdict {
    var alternate := RowsOf(rows, c.IsAlternate);
    var done := Completed(rows);
    if HasFailedRow(c, rows) then Failure(FailedRows)
    else if (exists r :: r in rows && r.name == c.contract) && alternate != [] then Failure(MixedPaths)
    else if alternate == [] then if receipt.Some? then Failure(ReceiptWithoutMigration) else Success(())
    else if || |alternate| != 1 || receipt.None? || !receipt.value.valid
            || receipt.value.migration != alternate[0].name
            || (receipt.value.migration == c.bridge && c.bridgePrep !in done)
            || (receipt.value.migration == c.traffic && (c.bridgePrep !in done || c.trafficPrep !in done))
            || alternate[0].checksum != receipt.value.checksum
            || c.exceptionPrep !in done
    then Failure(InvalidReceipt)
    else Success(())
  }

  datatype Release = Release(
    baseline: bool, expand: bool, contract: bool, contractPath: Option<string>, projectChanges: bool,
    receipt: Option<Receipt>)

  function ReleaseStatus(c: Catalogue, rows: seq<Row>, receipt: Option<Receipt>): Result<Release, Refusal> {
    var verdict := AssertContractPath(c, rows, receipt);
    if verdict.Failure? then Failure(verdict.error)
    else
      var done := Completed(rows);
      var path :=
        if c.traffic in done then Some(c.traffic) else if c.bridge in done then Some(c.bridge)
        else if c.age in done then Some(c.age) else if c.contract in done then Some(c.contract) else None;
      Success(Release(c.baseline in done, AllIn(c.required, done), path.Some?, path, c.projectChange in done, receipt))
  }

  function RuntimeVerdict(s: Release, phase: Phase): Verdict {
    if !s.baseline then Failure(NoBaseline)
    else if phase == Phase1 && (!s.expand || s.contract) then Failure(WrongPhase)
    else if phase == Phase2 && (!s.expand || !s.contract || !s.projectChanges) then Failure(WrongPhase)
    else Success(())
  }

  // ----- staging and deploying -----

  function Sorted(names: seq<string>): seq<string> {
    Sort(names, Less)
  }

  function Selected(c: Catalogue, names: seq<string>, target: string, alternate: Option<string>): seq<string> {
    if names == [] then []
    else
      var rest := Selected(c, names[1..], target, alternate);
      if AtMost(names[0], target) && !(alternate.Some? && names[0] == c.contract) then [names[0]] + rest else rest
  }

  function StageMigrationNames(c: Catalogue, names: seq<string>, target: string, alternate: Option<string>)
    : Result<seq<string>, Refusal>
  {
    var selected := Selected(c, names, target, alternate);
    if alternate.Some? && !c.IsAlternate(alternate.value) then Failure(UnknownAlternate)
    else if target !in selected then Failure(TargetMissing)
    else if alternate.Some? && AtMost(c.contract, target) then Success(Sorted(selected + [alternate.value]))
    else Success(Sorted(selected))
  }

  predicate HasLiveRow(rows: seq<Row>, name: string) {
    exists r :: r in rows && r.name == name && !r.rolledBack
  }

  function WithReceipt(c: Catalogue, h: History, name: string, image: Image, who: Option<Identity>): seq<Receipt> {
    if c.IsAlternate(name) && who.Some?
    then h.receipts + [Receipt(name, who.value, image.checksum(name), true)]
    else h.receipts
  }

  function Applied(c: Catalogue, h: History, name: string, image: Image, who: Option<Identity>): History {
    History(h.rows + [Row(name, true, false, image.checksum(name))], WithReceipt(c, h, name, image, who))
  }

  function Unfinished(c: Catalogue, h: History, name: string, image: Image, who: Option<Identity>,
                      stop: Stop): History {
    if !stop.leavesUnfinished then h
    else History(h.rows + [Row(name, false, false, image.checksum(name))],
                 if stop.receiptWritten then WithReceipt(c, h, name, image, who) else h.receipts)
  }

  /** Apply the names in order; an alternate contract needs an authorization to consume. */
  function Deploy(c: Catalogue, h: History, names: seq<string>, image: Image, who: Option<Identity>, stop: Stop)
    : (History, bool)
    decreases |names|
  {
    if names == [] then (h, true)
    else if HasLiveRow(h.rows, names[0]) then Deploy(c, h, names[1..], image, who, stop)
    else if stop.completes == 0 || (c.IsAlternate(names[0]) && who.None?) then
      (Unfinished(c, h, names[0], image, who, stop), false)
    else
      Deploy(c, Applied(c, h, names[0], image, who), names[1..], image, who, stop.(completes := stop.completes - 1))
  }

  function StagedMigrate(c: Catalogue, h: History, image: Image, target: string, alternate: Option<string>,
                         who: Option<Identity>, stop: Stop): (History, Verdict)
  {
    var staged := StageMigrationNames(c, image.names, target, alternate);
    if staged.Failure? then (h, Failure(staged.error))
    else
      var (h', ok) := Deploy(c, h, staged.value, image, who, stop);
      (h', if ok then Success(()) else Failure(DeployStopped))
  }

  // ----- commands -----

  function ExceptionPath(c: Catalogue, e: ObservationException): string {
    match e.profile
    case AgeOnly => c.age
    case ImageBridge36 => c.bridge
    case ImageBridgeTraffic => c.traffic
  }

  function PreparationTarget(c: Catalogue, e: ObservationException): string {
    match e.profile
    case AgeOnly => c.exceptionPrep
    case ImageBridge36 => c.bridgePrep
    case ImageBridgeTraffic => c.trafficPrep
  }

  function Latest(names: seq<string>): Option<string> {
    if names == [] then None
    else
      var rest := Latest(names[1..]);
      if rest.Some? && AtMost(names[0], rest.value) then rest else Some(names[0])
  }

  function Check(c: Catalogue, h: History, image: Image): Result<Release, Refusal> {
    if HasFailedRow(c, h.rows) then Failure(FailedRows)
    else
      var receipt := ReadReceipt(h, image);
      if receipt.Failure? then Failure(receipt.error) else ReleaseStatus(c, h.rows, receipt.value)
  }

  /** The check every applying command ends with. */
  function Recheck(c: Catalogue, h: History, image: Image, phase: Phase): Verdict {
    var s := Check(c, h, image);
    if s.Failure? then Failure(s.error) else RuntimeVerdict(s.value, phase)
  }

  function RunExpand(c: Catalogue, h: History, image: Image, s: Release, plan: Plan): (History, Verdict) {
    if s.contract then (h, Failure(ContractApplied))
    else
      var (h', v) := if s.expand then (h, Success(()))
                     else StagedMigrate(c, h, image, c.ceiling, None, None, plan.deploy);
      if v.Failure? then (h', v)
      else if !plan.registrySeeded then (h', Failure(RegistryProblem))
      else (h', Recheck(c, h', image, Phase1))
  }

  function Prepare(c: Catalogue, h: History, image: Image, s: Release, exception: Option<ObservationException>,
                   plan: Plan)
    : (History, Verdict)
  {
    if exception.None? || s.contract then (h, Success(()))
    else
      var (h', v) := StagedMigrate(c, h, image, PreparationTarget(c, exception.value), None, None, plan.preparation);
      if v.Failure? then (h', v) else (h', if plan.authorized then Success(()) else Failure(Unauthorized))
  }

  /** The exception does not fit the contract that is already applied. */
  predicate Mismatched(c: Catalogue, s: Release, exception: Option<ObservationException>) {
    exception.Some? &&
    (|| s.contractPath == Some(c.contract)
     || (s.receipt.Some?
         && (s.receipt.value.identity != exception.value.identity
             || s.receipt.value.migration != ExceptionPath(c, exception.value))))
  }

  /** The alternate to stage: the requested one, or the one already recorded. */
  function StagedAlternate(c: Catalogue, s: Release, exception: Option<ObservationException>): Option<string> {
    if exception.Some? then Some(ExceptionPath(c, exception.value))
    else if s.contractPath.Some? && c.IsAlternate(s.contractPath.value) then s.contractPath
    else None
  }

  /** The contract deploy proper, on the prepared history. */
  function StageContract(c: Catalogue, h: History, image: Image, s: Release, exception: Option<ObservationException>,
                         plan: Plan): (History, Verdict)
  {
    var latest := Latest(image.names);
    if latest.None? || Less(latest.value, c.projectChange) then (h, Failure(StaleImage))
    else
      var alternate := StagedAlternate(c, s, exception);
      var who := if exception.Some? then Some(exception.value.identity) else None;
      var (h', v) := StagedMigrate(c, h, image, latest.value, alternate, who, plan.deploy);
      if v.Failure? then (h', v) else (h', Recheck(c, h', image, Phase2))
  }

  function RunContract(c: Catalogue, h: History, image: Image, s: Release, exception: Option<ObservationException>,
                       plan: Plan): (History, Verdict)
  {
    if !s.expand then (h, Failure(ExpandMissing))
    else if !plan.registrySeeded || !plan.registryVerified then (h, Failure(RegistryProblem))
    else if Mismatched(c, s, exception) then (h, Failure(ExceptionMismatch))
    else
      var (h1, v1) := Prepare(c, h, image, s, exception, plan);
      if v1.Failure? then (h1, v1) else StageContract(c, h1, image, s, exception, plan)
  }

  /** One operator command on one image: the history it leaves and its verdict. */
  function Execute(c: Catalogue, h: History, image: Image, command: Command, plan: Plan): (History, Verdict) {
    var s := Check(c, h, image);
    if s.Failure? then (h, Failure(s.error))
    else
      match command
      case Status => (h, Success(()))
      case AssertRuntime(phase) =>
        var v := RuntimeVerdict(s.value, phase);
        (h, if v.Success? && !plan.registryVerified then Failure(RegistryProblem) else v)
      case ApplyExpand =>
        if !s.value.baseline then (h, Failure(NoBaseline)) else RunExpand(c, h, image, s.value, plan)
      case ApplyContract(exception) =>
        if !s.value.baseline then (h, Failure(NoBaseline)) else RunContract(c, h, image, s.value, exception, plan)
  }

  datatype Input = Input(image: Image, command: Command, plan: Plan)

  /** A run: commands one after another, each possibly on another image. */
  function Run(c: Catalogue, h: History, inputs: seq<Input>): History
    decreases |inputs|
  {
    if inputs == [] then h
    else Run(c, Execute(c, h, inputs[0].image, inputs[0].command, inputs[0].plan).0, inputs[1..])
  }
}
