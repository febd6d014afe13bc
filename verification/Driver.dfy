/**
 * The workflow driver of experiments/personal_assistant_e2e/run.py, run against an arbitrary
 * service: any reply to any call, correct or not.
 */
module Driver {
  import opened Wrappers
  import opened Json
  import opened Text

  // ---------------------------------------------------------------- the service as seen by the driver

  datatype State = State(events: seq<Json>, tasks: seq<Json>, files: map<string, Json>)

  datatype Preview = Preview(id: string, token: string, hash: string)

  datatype FileChange = FileChange(source: string, destination: string, area: string)

  /** The entries of a receipt that the driver looks at; each may be absent. */
  datatype Receipt = Receipt(
    event: Option<map<string, Json>>, task: Option<map<string, Json>>, change: Option<FileChange>, replayed: bool)

  /** The service the run started with, or the one reopened on the same sandbox. */
  datatype Handle = Original | Reopened

  datatype Call =
    | ReadState(on: Handle)
    | Prepare(raw: string)
    | Cancel(id: string, token: string)
    | Approve(on: Handle, id: string, token: string, hash: string)
    | ExternalUpdate
    | Reopen
    | PrepareUndo(id: string)
    | ReadAudit

  datatype Exception = GuardError(message: string) | OSError | AssertionError(what: string) | OtherError

  /** What a call returns or raises. */
  datatype Reply =
    | StateIs(state: State)
    | PreviewIs(preview: Preview)
    | ReceiptIs(receipt: Receipt)
    | Done
    | Raises(exception: Exception)

  datatype Exchange = Exchange(call: Call, reply: Reply)

  /** A block of code either finishes with a value or raises. */
  datatype Outcome<+T> = Value(value: T) | Raise(exception: Exception) {
    predicate IsFailure() { Raise? }
    function PropagateFailure<U>(): Outcome<U> requires Raise? { Raise(exception) }
    function Extract(): T requires Value? { value }
  }

  /** The service: its replies depend in any way whatever on everything it has been asked. */
  class Service {
    const oracle: (seq<Exchange>, Call) -> Reply
    var log: seq<Exchange>

    constructor (oracle: (seq<Exchange>, Call) -> Reply)
      ensures this.oracle == oracle && log == []
    {
      this.oracle := oracle;
      log := [];
    }

    /** Exactly this call has been added to the log. */
    twostate predicate Logged(call: Call)
      reads this
    {
      |log| == |old(log)| + 1 && old(log) <= log && log[|old(log)|].call == call
    }

    method Ask(call: Call) returns (reply: Reply)
      modifies this
      ensures Logged(call) && reply == oracle(old(log), call) == log[|old(log)|].reply
    {
      reply := oracle(log, call);
      log := log + [Exchange(call, reply)];
    }

    /** A call that must not raise; what it returns is ignored. */
    method Run(call: Call) returns (r: Outcome<()>)
      modifies this
      ensures Logged(call) && r == AsDone(log[|old(log)|].reply)
    {
      var reply := Ask(call);
      r := AsDone(reply);
    }

    method GetState(on: Handle) returns (r: Outcome<State>)
      modifies this
      ensures Logged(ReadState(on)) && r == AsState(log[|old(log)|].reply)
    {
      var reply := Ask(ReadState(on));
      r := AsState(reply);
    }

    method GetPreview(call: Call) returns (r: Outcome<Preview>)
      modifies this
      ensures Logged(call) && r == AsPreview(log[|old(log)|].reply)
    {
      var reply := Ask(call);
      r := AsPreview(reply);
    }

    method GetReceipt(call: Call) returns (r: Outcome<Receipt>)
      modifies this
      ensures Logged(call) && r == AsReceipt(log[|old(log)|].reply)
    {
      var reply := Ask(call);
      r := AsReceipt(reply);
    }
  }

  function AsDone(reply: Reply): Outcome<()> {
    if reply.Raises? then Raise(reply.exception) else Value(())
  }

  function AsState(reply: Reply): Outcome<State> {
    match reply
    case StateIs(state) => Value(state)
    case Raises(e) => Raise(e)
    case _ => Raise(OtherError)
  }

  function AsPreview(reply: Reply): Outcome<Preview> {
    match reply
    case PreviewIs(preview) => Value(preview)
    case Raises(e) => Raise(e)
    case _ => Raise(OtherError)
  }

  function AsReceipt(reply: Reply): Outcome<Receipt> {
    match reply
    case ReceiptIs(receipt) => Value(receipt)
    case Raises(e) => Raise(e)
    case _ => Raise(OtherError)
  }

  // ---------------------------------------------------------------- comparing states

  predicate SameState(a: State, b: State) {
    && PyEqual(List(a.events), List(b.events))
    && PyEqual(List(a.tasks), List(b.tasks))
    && PyEqual(Object(a.files), Object(b.files))
  }

  // ---------------------------------------------------------------- the scenario

  datatype Effect =
    | EventEffect(event: map<string, Json>)
    | TaskEffect(task: map<string, Json>)
    | FileEffect(source: string, destination: string, quarantine: bool)

  datatype Mode = ApproveMode | CancelMode | StaleMode | TamperedMode | ReplayMode | UndoMode

  /** Blocked scenarios carry the expected reason, the others the expected effect. */
  datatype Scenario = Scenario(outcome: string, mode: Mode, reason: Option<string>, effect: Effect)

  const BLOCK := "block"
  const WRONG_HASH := "not-the-preview-hash"

  /** `assert_effect`. */
  function CheckEffect(c: Scenario, state: State, before: State, receipt: Receipt): Outcome<()> {
    match c.effect
    case EventEffect(event) =>
      if receipt.event.None? then Raise(OtherError)
      else
        var made := receipt.event.value;
        if !PyEqual(Object(made - {"event_id"}), Object(event)) then Raise(AssertionError("event_fields_mismatch"))
        else if !SameState(state, before.(events := before.events + [Object(made)])) then Raise(AssertionError(""))
        else Value(())
    case TaskEffect(task) =>
      if receipt.task.None? then Raise(OtherError)
      else
        var made := receipt.task.value;
        if "task_id" !in task && "task_id" !in made then Raise(OtherError)
        else if !PyEqual(Object(if "task_id" in task then made else made - {"task_id"}), Object(task))
        then Raise(AssertionError("task_fields_mismatch"))
        else if !SameState(state, before.(tasks := [Object(made)])) then Raise(AssertionError(""))
        else Value(())
    case FileEffect(source, destination, quarantine) =>
      if receipt.change.None? then Raise(OtherError)
      else
        var change := receipt.change.value;
        var from, to := "files/" + source, change.area + "/" + change.destination;
        if change.source != source then Raise(AssertionError(""))
        else if quarantine && change.area != "trash" then Raise(AssertionError(""))
        else if !quarantine && !(change.destination == destination && change.area == "files") then
          Raise(AssertionError(""))
        else if from !in before.files then Raise(OtherError)
        else if !SameState(state, before.(files := (before.files - {from})[to := before.files[from]]))
        then Raise(AssertionError("file_effect_or_content_mismatch"))
        else Value(())
  }

  predicate SameFiles(a: map<string, Json>, b: map<string, Json>) {
    PyEqual(Object(a), Object(b))
  }

  predicate SameList(a: seq<Json>, b: seq<Json>) {
    PyEqual(List(a), List(b))
  }

  /** The expected effect, written out: exactly one thing changed, in the way the receipt says. */
  lemma EffectIs(c: Scenario, state: State, before: State, receipt: Receipt)
    ensures CheckEffect(c, state, before, receipt).Value? <==>
      match c.effect
      case EventEffect(event) =>
        && receipt.event.Some?
        && SameFiles(receipt.event.value - {"event_id"}, event)
        && SameList(state.events, before.events + [Object(receipt.event.value)])
        && SameList(state.tasks, before.tasks) && SameFiles(state.files, before.files)
      case TaskEffect(task) =>
        && receipt.task.Some?
        && ("task_id" in task || "task_id" in receipt.task.value)
        && SameFiles(if "task_id" in task then receipt.task.value else receipt.task.value - {"task_id"}, task)
        && SameList(state.tasks, [Object(receipt.task.value)])
        && SameList(state.events, before.events) && SameFiles(state.files, before.files)
      case FileEffect(source, destination, quarantine) =>
        && receipt.change.Some?
        && receipt.change.value.source == source
        && (if quarantine then receipt.change.value.area == "trash"
            else receipt.change.value.area == "files" && receipt.change.value.destination == destination)
        && ("files/" + source) in before.files
        && SameFiles(state.files, (before.files - {"files/" + source})[
             receipt.change.value.area + "/" + receipt.change.value.destination := before.files["files/" + source]])
        && SameList(state.events, before.events) && SameList(state.tasks, before.tasks)
  {
  }

  // ---------------------------------------------------------------- the steps after a preview

  function ApproveCall(on: Handle, p: Preview): Call {
    Approve(on, p.id, p.token, p.hash)
  }

  /** `try: approve(...); raise AssertionError(what) except GuardError as exc: assert text in str(exc)`. */
  function Refusal(reply: Reply, what: string, text: string): Outcome<()> {
    match reply
    case Raises(GuardError(message)) => if Contains(message, text) then Value(()) else Raise(AssertionError(""))
    case Raises(e) => Raise(e)
    case _ => Raise(AssertionError(what))
  }

  predicate Refused(e: Exchange, call: Call, text: string) {
    e.call == call && e.reply.Raises? && e.reply.exception.GuardError? && Contains(e.reply.exception.message, text)
  }

  predicate Returned(e: Exchange, call: Call) {
    e.call == call && !e.reply.Raises?
  }

  predicate Observed(e: Exchange, on: Handle, state: State) {
    e.call == ReadState(on) && e.reply.StateIs? && SameState(e.reply.state, state)
  }

  predicate Receipted(e: Exchange, call: Call) {
    e.call == call && e.reply.ReceiptIs?
  }

  /** Cancelled, approval refused as cancelled, nothing changed. */
  predicate CancelScript(d: seq<Exchange>, p: Preview, before: State) {
    && |d| == 3
    && Returned(d[0], Cancel(p.id, p.token))
    && Refused(d[1], Approve(Original, p.id, p.token, p.hash), "not_pending:cancelled")
    && Observed(d[2], Original, before)
  }

  /** Approval refused because of the external change, which is all that changed. */
  predicate StaleScript(d: seq<Exchange>, p: Preview) {
    && |d| == 4
    && Returned(d[0], ExternalUpdate)
    && d[1].call == ReadState(Original) && d[1].reply.StateIs?
    && Refused(d[2], Approve(Original, p.id, p.token, p.hash), "state_changed")
    && Observed(d[3], Original, d[1].reply.state)
  }

  /** Approval under another hash refused, nothing changed, then cancelled. */
  predicate TamperedScript(d: seq<Exchange>, p: Preview, before: State) {
    && |d| == 3
    && Refused(d[0], Approve(Original, p.id, p.token, "not-the-preview-hash"), "hash_mismatch")
    && Observed(d[1], Original, before)
    && Returned(d[2], Cancel(p.id, p.token))
  }

  /** Approved once, with the expected effect, which a reopened service also sees. */
  predicate ExecuteScript(d: seq<Exchange>, c: Scenario, p: Preview, before: State) {
    && |d| == 4
    && Receipted(d[0], Approve(Original, p.id, p.token, p.hash))
    && d[1].call == ReadState(Original) && d[1].reply.StateIs?
    && CheckEffect(c, d[1].reply.state, before, d[0].reply.receipt).Value?
    && Returned(d[2], Reopen)
    && Observed(d[3], Reopened, d[1].reply.state)
  }

  /** Approved again, recognised as a replay, nothing changed. */
  predicate ReplayScript(d: seq<Exchange>, p: Preview, executed: State) {
    && |d| == 2
    && Receipted(d[0], Approve(Reopened, p.id, p.token, p.hash)) && d[0].reply.receipt.replayed
    && Observed(d[1], Reopened, executed)
  }

  /** Undo previewed without effect, approved, and the original state is back. */
  predicate UndoScript(d: seq<Exchange>, p: Preview, before: State, executed: State) {
    && |d| == 4
    && d[0].call == PrepareUndo(p.id) && d[0].reply.PreviewIs?
    && Observed(d[1], Reopened, executed)
    && Receipted(d[2], Approve(Reopened, d[0].reply.preview.id, d[0].reply.preview.token, d[0].reply.preview.hash))
    && Observed(d[3], Reopened, before)
  }

  /** The positions of the approval calls. */
  function Approvals(d: seq<Exchange>): set<int> {
    set i | 0 <= i < |d| && d[i].call.Approve?
  }

  /** Where a run of this mode approves, counting the three exchanges before the mode's own steps. */
  function ExpectedApprovals(mode: Mode): set<int> {
    match mode
    case CancelMode => {4}
    case StaleMode => {5}
    case TamperedMode => {3}
    case ApproveMode => {3}
    case ReplayMode => {3, 7}
    case UndoMode => {3, 9}
  }

  /** The last call raised, or was answered with something else than it asks for. */
  ghost predicate Stuck(d: seq<Exchange>) {
    d != [] && var e := d[|d| - 1];
      match e.call
      case ReadState(_) => !e.reply.StateIs?
      case Prepare(_) => !e.reply.PreviewIs?
      case PrepareUndo(_) => !e.reply.PreviewIs?
      case Approve(_, _, _, _) => !e.reply.ReceiptIs?
      case _ => e.reply.Raises?
  }

  /** The receipt lacks the entry that the effect is compared with, or the file was not there before. */
  ghost predicate LacksEntry(c: Scenario, before: State, receipt: Receipt) {
    match c.effect
    case EventEffect(_) => receipt.event.None?
    case TaskEffect(task) => receipt.task.None? || ("task_id" !in task && "task_id" !in receipt.task.value)
    case FileEffect(source, _, _) => receipt.change.None? || ("files/" + source) !in before.files
  }

  /** Why an exception that nothing catches comes out of the steps of a mode. */
  ghost predicate Escapes(d: seq<Exchange>, c: Scenario, before: State) {
    || Stuck(d)
    || (|d| >= 1 && d[0].reply.ReceiptIs? && LacksEntry(c, before, d[0].reply.receipt))
  }

  /** All approvals are at these positions, the list starting at the offset. */
  predicate ApprovesOnlyAt(d: seq<Exchange>, positions: set<int>, offset: nat) {
    forall i | 0 <= i < |d| && d[i].call.Approve? :: i + offset in positions
  }

  method CancelSteps(s: Service, p: Preview, before: State) returns (r: Outcome<()>)
    modifies s
    ensures old(s.log) <= s.log && (r.Value? <==> CancelScript(s.log[|old(s.log)|..], p, before))
    ensures ApprovesOnlyAt(s.log[|old(s.log)|..], {1}, 0)
    ensures r.Raise? && r.exception.OtherError? ==> Stuck(s.log[|old(s.log)|..])
  {
    var _ :- s.Run(Cancel(p.id, p.token));
    var reply := s.Ask(ApproveCall(Original, p));
    var _ :- Refusal(reply, "cancelled_plan_executed", "not_pending:cancelled");
    var state :- s.GetState(Original);
    r := if SameState(state, before) then Value(()) else Raise(AssertionError(""));
  }

  method StaleSteps(s: Service, p: Preview) returns (r: Outcome<()>)
    modifies s
    ensures old(s.log) <= s.log && (r.Value? <==> StaleScript(s.log[|old(s.log)|..], p))
    ensures ApprovesOnlyAt(s.log[|old(s.log)|..], {2}, 0)
    ensures r.Raise? && r.exception.OtherError? ==> Stuck(s.log[|old(s.log)|..])
  {
    var _ :- s.Run(ExternalUpdate);
    var external :- s.GetState(Original);
    var reply := s.Ask(ApproveCall(Original, p));
    var _ :- Refusal(reply, "stale_plan_executed", "state_changed");
    var state :- s.GetState(Original);
    r := if SameState(state, external) then Value(()) else Raise(AssertionError(""));
  }

  method TamperedSteps(s: Service, p: Preview, before: State) returns (r: Outcome<()>)
    modifies s
    ensures old(s.log) <= s.log && (r.Value? <==> TamperedScript(s.log[|old(s.log)|..], p, before))
    ensures ApprovesOnlyAt(s.log[|old(s.log)|..], {0}, 0)
    ensures r.Raise? && r.exception.OtherError? ==> Stuck(s.log[|old(s.log)|..])
  {
    var reply := s.Ask(Approve(Original, p.id, p.token, WRONG_HASH));
    var _ :- Refusal(reply, "changed_plan_approved", "hash_mismatch");
    var state :- s.GetState(Original);
    if !SameState(state, before) {
      return Raise(AssertionError(""));
    }
    r := s.Run(Cancel(p.id, p.token));
  }

  method ExecuteSteps(s: Service, c: Scenario, p: Preview, before: State) returns (r: Outcome<State>)
    modifies s
    ensures old(s.log) <= s.log && (r.Value? <==> ExecuteScript(s.log[|old(s.log)|..], c, p, before))
    ensures ApprovesOnlyAt(s.log[|old(s.log)|..], {0}, 0)
    ensures r.Value? ==> r.value == s.log[|old(s.log)| + 1].reply.state
    ensures |s.log| <= |old(s.log)| + 4
    ensures r.Raise? && r.exception.OtherError? ==> Escapes(s.log[|old(s.log)|..], c, before)
  {
    var receipt :- s.GetReceipt(ApproveCall(Original, p));
    var executed :- s.GetState(Original);
    var _ :- CheckEffect(c, executed, before, receipt);
    var _ :- s.Run(Reopen);
    var state :- s.GetState(Reopened);
    r := if SameState(state, executed) then Value(executed) else Raise(AssertionError("persistence_mismatch"));
  }

  method ReplaySteps(s: Service, p: Preview, executed: State) returns (r: Outcome<()>)
    modifies s
    ensures old(s.log) <= s.log && (r.Value? <==> ReplayScript(s.log[|old(s.log)|..], p, executed))
    ensures ApprovesOnlyAt(s.log[|old(s.log)|..], {0}, 0)
    ensures r.Raise? && r.exception.OtherError? ==> Stuck(s.log[|old(s.log)|..])
  {
    var repeated :- s.GetReceipt(ApproveCall(Reopened, p));
    if !repeated.replayed {
      return Raise(AssertionError(""));
    }
    var state :- s.GetState(Reopened);
    r := if SameState(state, executed) then Value(()) else Raise(AssertionError(""));
  }

  method UndoSteps(s: Service, p: Preview, before: State, executed: State) returns (r: Outcome<()>)
    modifies s
    ensures old(s.log) <= s.log && (r.Value? <==> UndoScript(s.log[|old(s.log)|..], p, before, executed))
    ensures ApprovesOnlyAt(s.log[|old(s.log)|..], {2}, 0)
    ensures r.Raise? && r.exception.OtherError? ==> Stuck(s.log[|old(s.log)|..])
  {
    var undo :- s.GetPreview(PrepareUndo(p.id));
    var seen :- s.GetState(Reopened);
    if !SameState(seen, executed) {
      return Raise(AssertionError("undo_without_approval"));
    }
    var _ :- s.GetReceipt(ApproveCall(Reopened, undo));
    var state :- s.GetState(Reopened);
    r := if SameState(state, before) then Value(()) else Raise(AssertionError("restore_mismatch"));
  }

  // ---------------------------------------------------------------- exercise

  /** What the mode of the scenario demands after an untouched preview. */
  predicate ModeScript(d: seq<Exchange>, c: Scenario, p: Preview, before: State) {
    match c.mode
    case CancelMode => CancelScript(d, p, before)
    case StaleMode => StaleScript(d, p)
    case TamperedMode => TamperedScript(d, p, before)
    case ApproveMode => ExecuteScript(d, c, p, before)
    case ReplayMode =>
      |d| == 6 && ExecuteScript(d[..4], c, p, before) && ReplayScript(d[4..], p, d[1].reply.state)
    case UndoMode =>
      |d| == 8 && ExecuteScript(d[..4], c, p, before) && UndoScript(d[4..], p, before, d[1].reply.state)
  }

  method ModeSteps(s: Service, c: Scenario, p: Preview, before: State) returns (r: Outcome<()>)
    modifies s
    ensures old(s.log) <= s.log && (r.Value? <==> ModeScript(s.log[|old(s.log)|..], c, p, before))
    ensures ApprovesOnlyAt(s.log[|old(s.log)|..], ExpectedApprovals(c.mode), 3)
    ensures r.Raise? && r.exception.OtherError? ==> Escapes(s.log[|old(s.log)|..], c, before)
  {
    match c.mode {
      case CancelMode => r := CancelSteps(s, p, before);
      case StaleMode => r := StaleSteps(s, p);
      case TamperedMode => r := TamperedSteps(s, p, before);
      case ApproveMode =>
        var _ :- ExecuteSteps(s, c, p, before);
        r := Value(());
      case ReplayMode =>
        r := ExecuteThenReplay(s, c, p, before);
      case UndoMode =>
        r := ExecuteThenUndo(s, c, p, before);
    }
  }

  method ExecuteThenReplay(s: Service, c: Scenario, p: Preview, before: State) returns (r: Outcome<()>)
    requires c.mode == ReplayMode
    modifies s
    ensures old(s.log) <= s.log && (r.Value? <==> ModeScript(s.log[|old(s.log)|..], c, p, before))
    ensures ApprovesOnlyAt(s.log[|old(s.log)|..], ExpectedApprovals(c.mode), 3)
    ensures r.Raise? && r.exception.OtherError? ==> Escapes(s.log[|old(s.log)|..], c, before)
  {
    ghost var start := |s.log|;
    var executed :- ExecuteSteps(s, c, p, before);
    ghost var first, mid := s.log[start..], |s.log|;
    r := ReplaySteps(s, p, executed);
    ghost var d := s.log[start..];
    assert d[..4] == first && d[4..] == s.log[mid..];
  }

  method ExecuteThenUndo(s: Service, c: Scenario, p: Preview, before: State) returns (r: Outcome<()>)
    requires c.mode == UndoMode
    modifies s
    ensures old(s.log) <= s.log && (r.Value? <==> ModeScript(s.log[|old(s.log)|..], c, p, before))
    ensures ApprovesOnlyAt(s.log[|old(s.log)|..], ExpectedApprovals(c.mode), 3)
    ensures r.Raise? && r.exception.OtherError? ==> Escapes(s.log[|old(s.log)|..], c, before)
  {
    ghost var start := |s.log|;
    var executed :- ExecuteSteps(s, c, p, before);
    ghost var first, mid := s.log[start..], |s.log|;
    r := UndoSteps(s, p, before, executed);
    ghost var d := s.log[start..];
    assert d[..4] == first && d[4..] == s.log[mid..];
  }

  /** What one run records. */
  datatype Row = Row(
    before: State, previewCreated: bool, intact: bool, passed: bool, error: Option<Exception>, after: State)

  /** What a row's entries say about the exchange it came from. */
  predicate RowTells(row: Row, d: seq<Exchange>) {
    && |d| >= 4 && d[0].reply == StateIs(row.before)
    && (row.previewCreated <==> d[1].reply.PreviewIs?)
    && (row.intact <==> Observed(d[2], Original, row.before))
    && d[|d| - 2] == Exchange(ReadState(Original), StateIs(row.after)) && d[|d| - 1].call == ReadAudit
    && (row.error.None? <==> row.previewCreated && row.passed)
    && (row.previewCreated ==> row.error != Some(OtherError))
    && (!row.previewCreated ==> d[1].reply.Raises? && row.error == Some(d[1].reply.exception))
  }

  /** Why no row comes out: the service failed where nothing catches it, or the case lacks its entry. */
  ghost predicate NoRow(d: seq<Exchange>, c: Scenario) {
    || Stuck(d)
    || (|d| == 3 && d[1].reply.Raises? && c.outcome == "block" && c.reason == None)
    || (|d| >= 4 && d[0].reply.StateIs? && d[3].reply.ReceiptIs?
        && LacksEntry(c, d[0].reply.state, d[3].reply.receipt))
  }

  /** The guard refused the plan for the expected reason and changed nothing. */
  predicate BlockScript(d: seq<Exchange>, c: Scenario, raw: string) {
    && |d| == 4 && c.outcome == "block" && c.reason.Some?
    && d[0].call == ReadState(Original) && d[0].reply.StateIs?
    && Refused(d[1], Prepare(raw), c.reason.value)
    && Observed(d[2], Original, d[0].reply.state)
    && Returned(d[3], ReadAudit)
  }

  /** A preview that changed nothing, for a case not to be blocked, then what the mode demands. */
  predicate PreviewScript(d: seq<Exchange>, c: Scenario, raw: string) {
    && |d| >= 5 && c.outcome != "block"
    && d[0].call == ReadState(Original) && d[0].reply.StateIs?
    && d[1].call == Prepare(raw) && d[1].reply.PreviewIs?
    && Observed(d[2], Original, d[0].reply.state)
    && ModeScript(d[3..|d| - 2], c, d[1].reply.preview, d[0].reply.state)
    && d[|d| - 2].call == ReadState(Original) && d[|d| - 2].reply.StateIs?
    && Returned(d[|d| - 1], ReadAudit)
  }

  /**
   * Nothing is ever approved in a scenario that must be blocked, nor before a preview has been
   * seen to leave the state alone.
   */
  ghost predicate ApprovalsAreEarned(d: seq<Exchange>, c: Scenario) {
    forall i | 0 <= i < |d| && d[i].call.Approve? ::
      && c.outcome != "block"
      && i >= 3 && d[0].reply.StateIs? && d[1].reply.PreviewIs? && Observed(d[2], Original, d[0].reply.state)
  }

  /**
   * `exercise`. A row passes exactly when the exchange with the service follows the script of a
   * correct refusal or of a correct run of the mode. On every path, also on those that end in an
   * exception, approvals are earned and only asked for where the mode provides for them.
   */
  method Exercise(s: Service, c: Scenario, raw: string) returns (r: Outcome<Row>)
    requires s.log == []
    modifies s
    ensures ApprovalsAreEarned(s.log, c)
    ensures Approvals(s.log) <= ExpectedApprovals(c.mode)
    ensures r.Value? ==> (r.value.passed <==> BlockScript(s.log, c, raw) || PreviewScript(s.log, c, raw))
    ensures r.Value? ==> RowTells(r.value, s.log)
    ensures r.Raise? ==> NoRow(s.log, c)
  {
    var before :- s.GetState(Original);
    var prepared := s.Ask(Prepare(raw));
    if prepared.Raises? && prepared.exception.GuardError? {
      r := AfterRefusal(s, c, raw, before, prepared.exception.message);
      return;
    }
    var preview :- AsPreview(prepared);
    r := AfterPreview(s, c, raw, before, preview);
  }

  method AfterPreview(s: Service, c: Scenario, raw: string, before: State, preview: Preview) returns (r: Outcome<Row>)
    requires s.log == [Exchange(ReadState(Original), StateIs(before)), Exchange(Prepare(raw), PreviewIs(preview))]
    modifies s
    ensures ApprovalsAreEarned(s.log, c) && ApprovesOnlyAt(s.log, ExpectedApprovals(c.mode), 0)
    ensures r.Value? ==> (r.value.passed <==> PreviewScript(s.log, c, raw)) && !BlockScript(s.log, c, raw)
    ensures r.Value? ==> RowTells(r.value, s.log)
    ensures r.Raise? ==> NoRow(s.log, c)
  {
    var seen :- s.GetState(Original);
    var intact := SameState(seen, before);
    ghost var head := s.log;
    var result := if !intact then Raise(AssertionError("mutation_before_approval"))
                  else if c.outcome == BLOCK then Raise(AssertionError("guard_failed_to_block"))
                  else Value(());
    if result.Value? {
      result := ModeSteps(s, c, preview, before);
    }
    if result.Raise? && result.exception.OtherError? {
      return Raise(OtherError);
    }
    ghost var middle := s.log[3..];
    var after :- s.GetState(Original);
    var _ :- s.Run(ReadAudit);
    assert s.log[..3] == head;
    assert s.log[3..|s.log| - 2] == middle;
    r := Value(Row(before, true, intact, result.Value?, if result.Raise? then Some(result.exception) else None, after));
  }

  method AfterRefusal(s: Service, c: Scenario, raw: string, before: State, message: string) returns (r: Outcome<Row>)
    requires s.log ==
      [Exchange(ReadState(Original), StateIs(before)), Exchange(Prepare(raw), Raises(GuardError(message)))]
    modifies s
    ensures forall i | 0 <= i < |s.log| :: !s.log[i].call.Approve?
    ensures r.Value? ==> (r.value.passed <==> BlockScript(s.log, c, raw)) && !PreviewScript(s.log, c, raw)
    ensures r.Value? ==> RowTells(r.value, s.log)
    ensures r.Raise? ==> NoRow(s.log, c)
  {
    var after :- s.GetState(Original);
    var intact := SameState(after, before);
    if c.outcome == BLOCK && c.reason.None? {
      return Raise(OtherError);
    }
    var passed := c.outcome == BLOCK && Contains(message, c.reason.value) && intact;
    var _ :- s.Run(ReadAudit);
    r := Value(Row(before, false, intact, passed, Some(GuardError(message)), after));
  }

  // ---------------------------------------------------------------- what a pass tells

  lemma ExpectedApprovalCount(mode: Mode)
    ensures |ExpectedApprovals(mode)| == if mode in {ReplayMode, UndoMode} then 2 else 1
  {
  }

  lemma PassMiddle(d: seq<Exchange>, c: Scenario, raw: string)
    requires PreviewScript(d, c, raw)
    ensures forall i | 3 <= i < |d| - 2 :: d[i] == d[3..|d| - 2][i - 3]
    ensures !d[0].call.Approve? && !d[1].call.Approve? && !d[2].call.Approve?
    ensures !d[|d| - 2].call.Approve? && !d[|d| - 1].call.Approve?
  {
  }

  lemma ExecuteApprovals(d: seq<Exchange>, c: Scenario, p: Preview, before: State)
    requires ExecuteScript(d, c, p, before)
    ensures forall i | 0 <= i < 4 :: d[i].call.Approve? <==> i == 0
  {
  }

  lemma ShortModeApprovals(m: seq<Exchange>, c: Scenario, p: Preview, before: State)
    requires ModeScript(m, c, p, before) && c.mode !in {ReplayMode, UndoMode}
    ensures forall i | 0 <= i < |m| :: m[i].call.Approve? <==> i + 3 in ExpectedApprovals(c.mode)
    ensures forall i | i in ExpectedApprovals(c.mode) :: 3 <= i < |m| + 3
  {
    if c.mode == ApproveMode {
      ExecuteApprovals(m, c, p, before);
    }
  }

  lemma ReplayApprovals(m: seq<Exchange>, c: Scenario, p: Preview, before: State)
    requires ModeScript(m, c, p, before) && c.mode == ReplayMode
    ensures forall i | 0 <= i < |m| :: m[i].call.Approve? <==> i == 0 || i == 4
    ensures |m| == 6
  {
    ExecuteApprovals(m[..4], c, p, before);
    assert forall i | 0 <= i < 4 :: m[i] == m[..4][i];
    assert forall i | 4 <= i < 6 :: m[i] == m[4..][i - 4];
  }

  lemma UndoApprovals(m: seq<Exchange>, c: Scenario, p: Preview, before: State)
    requires ModeScript(m, c, p, before) && c.mode == UndoMode
    ensures forall i | 0 <= i < |m| :: m[i].call.Approve? <==> i == 0 || i == 6
    ensures |m| == 8
  {
    ExecuteApprovals(m[..4], c, p, before);
    assert forall i | 0 <= i < 4 :: m[i] == m[..4][i];
    assert forall i | 4 <= i < 8 :: m[i] == m[4..][i - 4];
  }

  lemma ModeApprovals(m: seq<Exchange>, c: Scenario, p: Preview, before: State)
    requires ModeScript(m, c, p, before)
    ensures forall i | 0 <= i < |m| :: m[i].call.Approve? <==> i + 3 in ExpectedApprovals(c.mode)
    ensures forall i | i in ExpectedApprovals(c.mode) :: 3 <= i < |m| + 3
  {
    match c.mode
    case ReplayMode => ReplayApprovals(m, c, p, before);
    case UndoMode => UndoApprovals(m, c, p, before);
    case _ => ShortModeApprovals(m, c, p, before);
  }

  lemma ApprovalsFromMiddle(d: seq<Exchange>, m: seq<Exchange>, expected: set<int>)
    requires |d| == |m| + 5 && forall i | 3 <= i < |d| - 2 :: d[i] == m[i - 3]
    requires !d[0].call.Approve? && !d[1].call.Approve? && !d[2].call.Approve?
    requires !d[|d| - 2].call.Approve? && !d[|d| - 1].call.Approve?
    requires forall i | 0 <= i < |m| :: m[i].call.Approve? <==> i + 3 in expected
    requires forall i | i in expected :: 3 <= i < |m| + 3
    ensures Approvals(d) == expected
  {
    forall i ensures i in Approvals(d) <==> i in expected {
      if 3 <= i < |d| - 2 {
        assert m[i - 3].call.Approve? <==> (i - 3) + 3 in expected;
      }
    }
  }

  /** A passing run approves the previewed plan exactly once, and once more to replay or undo it. */
  lemma PassApprovesOnce(d: seq<Exchange>, c: Scenario, raw: string)
    requires PreviewScript(d, c, raw)
    ensures Approvals(d) == ExpectedApprovals(c.mode)
    ensures |ExpectedApprovals(c.mode)| == if c.mode in {ReplayMode, UndoMode} then 2 else 1
  {
    ExpectedApprovalCount(c.mode);
    PassMiddle(d, c, raw);
    ModeApprovals(d[3..|d| - 2], c, d[1].reply.preview, d[0].reply.state);
    ApprovalsFromMiddle(d, d[3..|d| - 2], ExpectedApprovals(c.mode));
  }

  /** Where a passing run in these modes last looks at the state before it is closed. */
  function LastLook(mode: Mode): nat {
    match mode
    case CancelMode => 5
    case TamperedMode => 4
    case UndoMode => 10
    case _ => 0
  }

  /** After cancelling, tampering or undoing, the original state is back and no approval follows. */
  lemma PassRestoresState(d: seq<Exchange>, c: Scenario, raw: string)
    requires PreviewScript(d, c, raw) && c.mode in {CancelMode, TamperedMode, UndoMode}
    ensures LastLook(c.mode) < |d|
    ensures Observed(d[LastLook(c.mode)], if c.mode == UndoMode then Reopened else Original, d[0].reply.state)
    ensures forall i | i in Approvals(d) :: i < LastLook(c.mode)
  {
    PassMiddle(d, c, raw);
    PassApprovesOnce(d, c, raw);
    var m := d[3..|d| - 2];
    if c.mode == UndoMode {
      assert m[4..][3] == m[7];
    }
  }
}
