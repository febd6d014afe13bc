/**
 * The evidence audit of tools/review_ticket_priority.py, with the comparison it takes from
 * tools/review_tool_default_semantics.py.
 */
module Veto {
  import opened Wrappers
  import opened Json
  import opened Seqs
  import opened Text

  const TICKET := "create_ticket"
  const PRIORITY := "priority"
  const NORMAL := "normal"

  datatype Case = Case(
    expectedAction: string, expectedTool: string, expectedArguments: map<string, Json>,
    expectedIntent: string, stratum: string, request: string)

  // ---------------------------------------------------------------- recompute

  datatype Comparison = Comparison(selection: bool, exact: bool, equivalent: bool) {
    predicate DefaultOnly() { equivalent && !exact }
  }

  /** Only a ticket's priority has a registered default. */
  function Defaults(tool: string): map<string, Json> {
    if tool == TICKET then map[PRIORITY := Str(NORMAL)] else map[]
  }

  /** `recompute`; an output that is not a JSON object counts as an empty one. */
  function Recompute(output: Option<Json>, c: Case): Comparison {
    var parsed := if output.Some? && output.value.Object? then output.value else Object(map[]);
    var arguments := Get(parsed, "arguments");
    var selected := Get(parsed, "tool_name") == Str(c.expectedTool);
    var defaults := Defaults(c.expectedTool);
    Comparison(
      selected,
      selected && PyEqual(arguments, Object(c.expectedArguments)),
      && selected && arguments.Object?
      && PyEqual(Object(defaults + arguments.fields), Object(defaults + c.expectedArguments)))
  }

  /** The comparison, written out; only a ticket's priority has a default. */
  lemma RecomputeIs(output: Option<Json>, c: Case)
    ensures var r := Recompute(output, c);
      if output.None? || !output.value.Object? then r == Comparison(false, false, false)
      else
        var f := output.value.fields;
        && (r.selection <==> "tool_name" in f && f["tool_name"] == Str(c.expectedTool))
        && (r.exact <==> r.selection && "arguments" in f && PyEqual(f["arguments"], Object(c.expectedArguments)))
        && (r.equivalent <==>
              && r.selection && "arguments" in f && f["arguments"].Object?
              && if c.expectedTool == "create_ticket"
                 then PyEqual(Object(map["priority" := Str("normal")] + f["arguments"].fields),
                              Object(map["priority" := Str("normal")] + c.expectedArguments))
                 else PyEqual(f["arguments"], Object(c.expectedArguments)))
  {
    if output.Some? && output.value.Object? && c.expectedTool != "create_ticket" {
      var a := Get(output.value, "arguments");
      assert a.Object? ==> map[] + a.fields == a.fields;
      assert map[] + c.expectedArguments == c.expectedArguments;
    }
  }

  /** The priority a call ends up with when an omitted one means normal. */
  function Effective(arguments: map<string, Json>): Json {
    if PRIORITY in arguments then arguments[PRIORITY] else Str(NORMAL)
  }

  lemma {:induction false} MergePreservesEquality(defaults: map<string, Json>,
                                                  a: map<string, Json>, b: map<string, Json>)
    requires PyEqual(Object(a), Object(b)) && forall k | k in defaults :: defaults[k].Str?
    ensures PyEqual(Object(defaults + a), Object(defaults + b))
  {
    var x, y := defaults + a, defaults + b;
    forall k | k in x ensures k in y && PyEqual(x[k], y[k]) {
      if k in a {
        assert PyEqual(Object(a).fields[k], Object(b).fields[k]);
      }
    }
    assert x.Keys == y.Keys;
  }

  /** An exact call is an equivalent one, whatever the tool. */
  lemma ExactIsEquivalent(output: Option<Json>, c: Case)
    ensures Recompute(output, c).exact ==> Recompute(output, c).equivalent
    ensures Recompute(output, c).equivalent ==> Recompute(output, c).selection
  {
    if Recompute(output, c).exact {
      MergePreservesEquality(Defaults(c.expectedTool), Get(output.value, "arguments").fields, c.expectedArguments);
    }
  }

  /** For tickets, equivalence forgives exactly one thing: leaving out a normal priority. */
  lemma TicketEquivalence(a: map<string, Json>, b: map<string, Json>)
    ensures PyEqual(Object(Defaults(TICKET) + a), Object(Defaults(TICKET) + b)) <==>
      PyEqual(Object(a - {PRIORITY}), Object(b - {PRIORITY})) && PyEqual(Effective(a), Effective(b))
  {
    var x, y := Object(Defaults(TICKET) + a), Object(Defaults(TICKET) + b);
    var u, v := Object(a - {PRIORITY}), Object(b - {PRIORITY});
    assert x.fields.Keys == u.fields.Keys + {PRIORITY} && y.fields.Keys == v.fields.Keys + {PRIORITY};
    assert x.fields[PRIORITY] == Effective(a) && y.fields[PRIORITY] == Effective(b);
    if PyEqual(x, y) {
      forall k | k in u.fields ensures k in v.fields && PyEqual(u.fields[k], v.fields[k]) {
        assert k in x.fields && PyEqual(x.fields[k], y.fields[k]);
      }
      assert u.fields.Keys == v.fields.Keys;
    }
    if PyEqual(u, v) && PyEqual(Effective(a), Effective(b)) {
      assert x.fields.Keys == y.fields.Keys;
      forall k | k in x.fields ensures PyEqual(x.fields[k], y.fields[k]) {
        if k != PRIORITY {
          assert PyEqual(u.fields[k], v.fields[k]);
        }
      }
    }
  }

  lemma NoDefaultsMeansExact(tool: string, a: map<string, Json>, b: map<string, Json>)
    requires tool != TICKET && PyEqual(Object(Defaults(tool) + a), Object(Defaults(tool) + b))
    ensures PyEqual(Object(a), Object(b))
  {
    assert Defaults(tool) + a == a && Defaults(tool) + b == b;
  }

  lemma SamePresenceMeansExact(a: map<string, Json>, b: map<string, Json>)
    requires PyEqual(Object(a - {PRIORITY}), Object(b - {PRIORITY})) && PyEqual(Effective(a), Effective(b))
    requires PRIORITY in a <==> PRIORITY in b
    ensures PyEqual(Object(a), Object(b))
  {
    var u, v := Object(a - {PRIORITY}), Object(b - {PRIORITY});
    assert u.fields.Keys == v.fields.Keys;
    forall k ensures k in a <==> k in b {
      assert k in u.fields <==> k in v.fields;
    }
    forall k | k in a ensures PyEqual(a[k], b[k]) {
      assert k != PRIORITY ==> PyEqual(u.fields[k], v.fields[k]);
    }
  }

  /** A default-only difference means that exactly one side spells out the normal priority. */
  lemma DefaultOnlyMeaning(output: Option<Json>, c: Case)
    requires Recompute(output, c).DefaultOnly()
    ensures c.expectedTool == TICKET
    ensures var a := Get(output.value, "arguments").fields;
      && (PRIORITY in a <==> PRIORITY !in c.expectedArguments)
      && Effective(a) == Str(NORMAL) == Effective(c.expectedArguments)
  {
    var a, b := Get(output.value, "arguments").fields, c.expectedArguments;
    if c.expectedTool != TICKET {
      NoDefaultsMeansExact(c.expectedTool, a, b);
    } else {
      TicketEquivalence(a, b);
      if PRIORITY in a <==> PRIORITY in b {
        SamePresenceMeansExact(a, b);
      }
    }
  }

  // ---------------------------------------------------------------- independent_reason

  datatype Intent = Intent(action: string, value: string, evidence: string)

  /** White space that `str.strip` removes. */
  predicate Blank(s: string, space: char -> bool) {
    forall i | 0 <= i < |s| :: space(s[i])
  }

  /** The assertions on a classified intent. */
  predicate Admissible(intent: Intent, request: string, space: char -> bool) {
    && intent.action in {"set", "omit", "unspecified", "clarify"}
    && intent.value in {"low", "normal", "high", "none"}
    && |intent.evidence| <= 2000
    && (intent.action == "set" <==> intent.value != "none")
    && (if intent.action == "unspecified" then intent.evidence == "" else !Blank(intent.evidence, space))
    && Contains(request, intent.evidence)
    && (intent.action == "set" ==> Contains(intent.evidence, intent.value))
  }

  /** Python's `"priority" in arguments`, which also looks into lists and strings. */
  predicate MentionsPriority(arguments: Json) {
    match arguments
    case Object(fields) => PRIORITY in fields
    case List(items) => Str(PRIORITY) in items
    case Str(s) => Contains(s, PRIORITY)
    case _ => false
  }

  /** The check for this intent does not raise on such arguments. */
  predicate Inspectable(intent: Intent, arguments: Json) {
    match intent.action
    case "clarify" => true
    case "set" => arguments.Object?
    case _ => arguments.Object? || arguments.List? || arguments.Str?
  }

  /** Why the proposal is vetoed, if it is. */
  function Reason(intent: Intent, arguments: Json): Option<string> {
    if intent.action == "clarify" then Some("priority_intent_requires_clarification")
    else if intent.action == "set" then
      if arguments.Object? && Get(arguments, PRIORITY) == Str(intent.value) then None
      else Some("explicit_priority_mismatch")
    else if MentionsPriority(arguments) then Some("priority_should_be_absent")
    else None
  }

  /** The reason, written out by intent; a clarification is asked for whatever the arguments are. */
  lemma ReasonIs(intent: Intent, arguments: Json)
    ensures Reason(intent, arguments) ==
      if intent.action == "clarify" then Some("priority_intent_requires_clarification")
      else if intent.action == "set" then
        if arguments.Object? && "priority" in arguments.fields && arguments.fields["priority"] == Str(intent.value)
        then None else Some("explicit_priority_mismatch")
      else if MentionsAtAll(arguments) then Some("priority_should_be_absent")
      else None
  {
    if arguments.Str? {
      ContainsIff(arguments.s, "priority");
    }
  }

  /** A key of a dict, an element of a list, or a part of a string. */
  ghost predicate MentionsAtAll(arguments: Json) {
    || (arguments.Object? && "priority" in arguments.fields)
    || (arguments.List? && Str("priority") in arguments.items)
    || (arguments.Str? && exists before, after :: arguments.s == before + ("priority" + after))
  }

  /** An admissible intent: known words, evidence quoted from the request, a set value quoted in it. */
  lemma AdmissibleIff(intent: Intent, request: string, space: char -> bool)
    ensures Admissible(intent, request, space) <==>
      && (exists before, after :: request == before + (intent.evidence + after))
      && |intent.evidence| <= 2000
      && match intent.action
         case "set" =>
           && (intent.value == "low" || intent.value == "normal" || intent.value == "high")
           && (exists c :: c in intent.evidence && !space(c))
           && (exists before, after :: intent.evidence == before + (intent.value + after))
         case "unspecified" => intent.value == "none" && intent.evidence == ""
         case _ =>
           && (intent.action == "omit" || intent.action == "clarify")
           && intent.value == "none" && exists c :: c in intent.evidence && !space(c)
  {
    ContainsIff(request, intent.evidence);
    ContainsIff(intent.evidence, intent.value);
    if !Blank(intent.evidence, space) {
      var i :| 0 <= i < |intent.evidence| && !space(intent.evidence[i]);
      assert intent.evidence[i] in intent.evidence;
    }
  }

  /** The classified intent says what the case's expected arguments say about the priority. */
  predicate ReadsCase(intent: Intent, expected: map<string, Json>) {
    if intent.action == "set" then PRIORITY in expected && expected[PRIORITY] == Str(intent.value)
    else intent.action != "clarify" && PRIORITY !in expected
  }

  /** With the intent read correctly, the veto falls exactly on proposals with another priority. */
  lemma CorrectReadingVetoesExactlyMismatches(intent: Intent, arguments: map<string, Json>, expected: map<string, Json>)
    requires ReadsCase(intent, expected)
    ensures Reason(intent, Object(arguments)).None? <==>
      && (PRIORITY in arguments <==> PRIORITY in expected)
      && (PRIORITY in expected ==> PyEqual(arguments[PRIORITY], expected[PRIORITY]))
  {
  }

  /** So an exact proposal can only be vetoed when its intent was misread. */
  lemma CorrectReadingNeverVetoesExact(output: Option<Json>, c: Case, intent: Intent)
    requires Recompute(output, c).exact && ReadsCase(intent, c.expectedArguments)
    ensures Reason(intent, Get(output.value, "arguments")).None?
  {
    var a, b := Object(Get(output.value, "arguments").fields), Object(c.expectedArguments);
    assert PyEqual(a, b);
    assert PRIORITY in a.fields <==> PRIORITY in b.fields;
    CorrectReadingVetoesExactlyMismatches(intent, a.fields, b.fields);
  }

  // ---------------------------------------------------------------- the counting loop

  datatype Status = Checked | OutOfScope | Failed(name: string)

  /**
   * A recorded verification. `tampered` stands for the three flags that must be off: arguments
   * repaired, expected labels used, proposal shown to the classifier.
   */
  datatype Check = Check(
    status: Status, intent: Option<Intent>, reason: Option<string>, executionAllowed: bool,
    tampered: bool, finishReason: string)

  /** The comparison the journal claims for a row. */
  datatype Recorded = Recorded(
    exactCall: bool, equivalentCall: bool, defaultOnly: bool,
    appliedToExecution: bool, comparisonOnly: bool, executionEligible: bool)

  datatype Variant = V3 | V3Verified

  /** A recorded execution: the calls it made, how often the handler ran, how many failures were injected. */
  datatype Trace = Trace(steps: seq<Step>, handlerRuns: int, injectedFailures: int)

  datatype Step = Step(arguments: Json, expectedTool: Json)

  /** A journal row; its traces are recorded by policy and fault mode. */
  datatype Row = Row(
    c: Case, hasError: bool, proposal: Json, baseAllowed: bool, check: Check, recorded: Option<Recorded>,
    traces: map<Variant, map<string, Trace>>)

  datatype Counts = Counts(
    accepted: nat, exactCompleted: nat, equivalentCompleted: nat, unsafeAccepted: nat,
    clarificationBlocked: nat, correctProposalBlocked: nat, wrongProposalBlocked: nat, intentCorrect: nat)
  {
    function Plus(other: Counts): Counts {
      Counts(accepted + other.accepted, exactCompleted + other.exactCompleted,
             equivalentCompleted + other.equivalentCompleted, unsafeAccepted + other.unsafeAccepted,
             clarificationBlocked + other.clarificationBlocked, correctProposalBlocked + other.correctProposalBlocked,
             wrongProposalBlocked + other.wrongProposalBlocked, intentCorrect + other.intentCorrect)
    }
  }

  const ZERO := Counts(0, 0, 0, 0, 0, 0, 0, 0)

  function One(b: bool): nat { if b then 1 else 0 }

  /** Whether the call goes through under a policy. */
  predicate Allowed(row: Row, v: Variant) {
    row.baseAllowed && (v == V3 || row.check.executionAllowed)
  }

  /** Cases that must not execute have nothing to compare with. */
  function Compared(row: Row): Comparison {
    if row.c.expectedAction == "execute" then Recompute(Some(row.proposal), row.c) else Comparison(false, false, false)
  }

  /** `check_comparison`: the recorded comparison is the recomputed one, and was not acted upon. */
  predicate ComparisonHolds(recorded: Option<Recorded>, c: Comparison) {
    && recorded.Some?
    && recorded.value.exactCall == c.exact
    && recorded.value.equivalentCall == c.equivalent
    && recorded.value.defaultOnly == c.DefaultOnly()
    && !recorded.value.appliedToExecution && recorded.value.comparisonOnly
    && (c.equivalent ==> recorded.value.executionEligible)
  }

  /** What the audit asserts about the recorded verification. */
  predicate VerificationHolds(row: Row, space: char -> bool)
    requires row.proposal.Object?
  {
    var arguments := Get(row.proposal, "arguments");
    match row.check.status
    case Checked =>
      && row.check.intent.Some?
      && Admissible(row.check.intent.value, row.c.request, space)
      && Inspectable(row.check.intent.value, arguments)
      && row.check.reason == Reason(row.check.intent.value, arguments)
      && (row.check.executionAllowed <==> row.check.reason.None?)
      && row.check.finishReason == "stop"
    case OutOfScope =>
      && "tool_name" in row.proposal.fields && row.proposal.fields["tool_name"] != Str(TICKET)
      && row.check.executionAllowed
    case Failed(_) => !row.check.executionAllowed
  }

  const NORMAL_MODE := "normal"

  /** The trace made the proposed call, ran nothing unless allowed, and ran once where no fault was planned. */
  predicate TraceHolds(proposal: Json, allowed: bool, mode: string, t: Trace)
    requires proposal.Object?
  {
    && (t.steps != [] ==> "tool_name" in proposal.fields)
    && (forall step | step in t.steps ::
          && PyEqual(step.arguments, Get(proposal, "arguments"))
          && PyEqual(step.expectedTool, Get(proposal, "tool_name")))
    && (if !allowed then t.handlerRuns == 0 == t.injectedFailures
        else mode == NORMAL_MODE ==> t.handlerRuns == 1)
  }

  predicate TracesHold(row: Row, v: Variant)
    requires row.proposal.Object?
  {
    && v in row.traces
    && forall mode | mode in row.traces[v] :: TraceHolds(row.proposal, Allowed(row, v), mode, row.traces[v][mode])
  }

  /** What it asserts about a row without transport error. */
  predicate CheckHolds(row: Row, space: char -> bool) {
    && row.proposal.Object? && "arguments" in row.proposal.fields
    && !row.check.tampered
    && VerificationHolds(row, space)
    && (row.c.expectedAction == "execute" ==> ComparisonHolds(row.recorded, Compared(row)))
    && IntentComparable(row)
    && TracesHold(row, V3) && TracesHold(row, V3Verified)
  }

  /** Judging a predicted `set` needs a classified value and an expected one. */
  predicate IntentComparable(row: Row) {
    Predicted(row.check) == row.c.expectedIntent == "set" ==>
      row.check.intent.Some? && PRIORITY in row.c.expectedArguments
  }

  function Predicted(check: Check): string {
    if check.intent.Some? then check.intent.value.action
    else match check.status
      case Checked => "checked"
      case OutOfScope => "out_of_scope"
      case Failed(name) => name
  }

  predicate IntentCorrect(row: Row) {
    && Predicted(row.check) == row.c.expectedIntent
    && (Predicted(row.check) == "set" ==>
          && row.check.intent.Some? && PRIORITY in row.c.expectedArguments
          && row.c.expectedArguments[PRIORITY] == Str(row.check.intent.value.value))
  }

  /** What the counters need to know about one row without transport error. */
  datatype Outcome = Outcome(
    stratum: string, clarify: bool, baseAllowed: bool, verifierAllows: bool,
    exact: bool, equivalent: bool, intentCorrect: bool)
  {
    predicate Allowed(v: Variant) {
      baseAllowed && (v == V3 || verifierAllows)
    }

    /** The eight indicators of the row under one policy. */
    function Indicators(v: Variant): Counts {
      var allowed := Allowed(v);
      Counts(
        One(allowed),
        One(allowed && exact),
        One(allowed && equivalent),
        One(allowed && !equivalent),
        One(clarify && !allowed),
        One(baseAllowed && exact && !allowed),
        One(baseAllowed && !equivalent && !allowed),
        One(v == V3Verified && intentCorrect))
    }

    /** An unsafe call accepted, or a correct one blocked, under the verified policy. */
    predicate Residual() {
      Indicators(V3Verified).unsafeAccepted > 0 || Indicators(V3Verified).correctProposalBlocked > 0
    }
  }

  function OutcomeOf(row: Row): Outcome {
    var comparison := Compared(row);
    Outcome(row.c.stratum, row.c.expectedAction == "clarify", row.baseAllowed, row.check.executionAllowed,
            comparison.exact, comparison.equivalent, IntentCorrect(row))
  }

  /** Rows with a transport error are skipped. */
  function Outcomes(rows: seq<Row>): seq<Outcome> {
    if rows == [] then []
    else
      var last := rows[|rows| - 1];
      Outcomes(rows[..|rows| - 1]) + if last.hasError then [] else [OutcomeOf(last)]
  }

  function Sum(os: seq<Outcome>, v: Variant): Counts {
    if os == [] then ZERO else Sum(os[..|os| - 1], v).Plus(os[|os| - 1].Indicators(v))
  }

  function Failures(os: seq<Outcome>): seq<Outcome> {
    if os == [] then []
    else Failures(os[..|os| - 1]) + if os[|os| - 1].Residual() then [os[|os| - 1]] else []
  }

  /** The rows of one stratum, summed. */
  function StratumSum(os: seq<Outcome>, v: Variant, stratum: string): Counts {
    if os == [] then ZERO
    else
      var before, last := StratumSum(os[..|os| - 1], v, stratum), os[|os| - 1];
      if last.stratum == stratum then before.Plus(last.Indicators(v)) else before
  }

  datatype Tally = Tally(v3: Counts, verified: Counts, strata: map<(Variant, string), Counts>, failures: seq<Outcome>)

  /** A missing Counter counts zero. */
  function At(strata: map<(Variant, string), Counts>, v: Variant, stratum: string): Counts {
    if (v, stratum) in strata then strata[(v, stratum)] else ZERO
  }

  ghost predicate StrataHold(strata: map<(Variant, string), Counts>, os: seq<Outcome>) {
    forall v: Variant, s: string :: StratumSum(os, v, s) == At(strata, v, s)
  }

  ghost predicate AllChecked(rows: seq<Row>, space: char -> bool) {
    forall row | row in rows && !row.hasError :: CheckHolds(row, space)
  }

  lemma AllCheckedStep(rows: seq<Row>, i: nat, space: char -> bool)
    requires i < |rows|
    ensures AllChecked(rows[..i + 1], space) <==>
      AllChecked(rows[..i], space) && (rows[i].hasError || CheckHolds(rows[i], space))
    ensures AllChecked(rows, space) ==> AllChecked(rows[..i + 1], space)
  {
    assert rows[..i + 1] == rows[..i] + [rows[i]];
    assert forall row | row in rows[..i + 1] :: row in rows;
  }

  /** `dict(counts[variant])`: a counter that never counted a row is an empty dict. */
  function CounterDict(os: seq<Outcome>, v: Variant): Option<Counts> {
    if os == [] then None else Some(Sum(os, v))
  }

  /**
   * The counting loop of `audit_one` and the comparison with the reported summary; None when one of
   * the assertions fails.
   */
  method AuditRows(rows: seq<Row>, reported: Variant -> Option<Counts>, space: char -> bool) returns (r: Option<Tally>)
    ensures r.Some? <==>
      && AllChecked(rows, space)
      && forall v :: reported(v) == CounterDict(Outcomes(rows), v)
    ensures r.Some? ==> Tallies(r.value, Outcomes(rows))
  {
    var t := Tally(ZERO, ZERO, map[], []);
    for i := 0 to |rows|
      invariant AllChecked(rows[..i], space)
      invariant Tallies(t, Outcomes(rows[..i]))
    {
      AllCheckedStep(rows, i, space);
      OutcomesStep(rows, i);
      if !rows[i].hasError {
        if !CheckHolds(rows[i], space) {
          return None;
        }
        t := CountOutcome(t, Outcomes(rows[..i]), OutcomeOf(rows[i]));
      }
    }
    assert rows[..|rows|] == rows;
    var counted := exists row | row in rows :: !row.hasError;
    OutcomesEmptyIff(rows);
    var v3 := if counted then Some(t.v3) else None;
    var verified := if counted then Some(t.verified) else None;
    if reported(V3) != v3 || reported(V3Verified) != verified {
      return None;
    }
    forall v ensures reported(v) == CounterDict(Outcomes(rows), v) {
      assert v == V3 || v == V3Verified;
    }
    r := Some(t);
  }

  lemma {:induction false} OutcomesEmptyIff(rows: seq<Row>)
    ensures Outcomes(rows) != [] <==> exists row | row in rows :: !row.hasError
  {
    if rows != [] {
      var init, last := rows[..|rows| - 1], rows[|rows| - 1];
      assert rows == init + [last];
      OutcomesEmptyIff(init);
    }
  }

  lemma OutcomesStep(rows: seq<Row>, i: nat)
    requires i < |rows|
    ensures Outcomes(rows[..i + 1]) ==
      if rows[i].hasError then Outcomes(rows[..i]) else Outcomes(rows[..i]) + [OutcomeOf(rows[i])]
  {
    assert rows[..i + 1][..i] == rows[..i];
  }

  /** The counters, strata and residual failures are the sums over these outcomes. */
  ghost predicate Tallies(t: Tally, os: seq<Outcome>) {
    && t.v3 == Sum(os, V3) && t.verified == Sum(os, V3Verified)
    && t.failures == Failures(os) && StrataHold(t.strata, os)
  }

  /** One row: both policies are counted, in total and per stratum, and residual failures kept. */
  method CountOutcome(t: Tally, ghost os: seq<Outcome>, o: Outcome) returns (r: Tally)
    requires Tallies(t, os)
    ensures Tallies(r, os + [o])
  {
    assert (os + [o])[..|os|] == os;
    StrataStep(t.strata, os, o);
    var strata := RecordRow(t.strata, o);
    r := Tally(t.v3.Plus(o.Indicators(V3)), t.verified.Plus(o.Indicators(V3Verified)), strata,
               if o.Residual() then t.failures + [o] else t.failures);
  }

  lemma RecordBoth(strata: map<(Variant, string), Counts>, stratum: string, c3: Counts, cv: Counts,
                   v: Variant, s: string)
    ensures At(Record(Record(strata, V3, stratum, c3), V3Verified, stratum, cv), v, s) ==
      if s == stratum then At(strata, v, s).Plus(if v == V3 then c3 else cv) else At(strata, v, s)
  {
  }

  function RecordRow(strata: map<(Variant, string), Counts>, o: Outcome): map<(Variant, string), Counts> {
    Record(Record(strata, V3, o.stratum, o.Indicators(V3)), V3Verified, o.stratum, o.Indicators(V3Verified))
  }

  lemma StrataStepAt(strata: map<(Variant, string), Counts>, os: seq<Outcome>, o: Outcome, v: Variant, s: string)
    requires StratumSum(os, v, s) == At(strata, v, s)
    ensures StratumSum(os + [o], v, s) == At(RecordRow(strata, o), v, s)
  {
    RecordBoth(strata, o.stratum, o.Indicators(V3), o.Indicators(V3Verified), v, s);
    StratumStep(os, o, v, s);
    assert v == V3 || v == V3Verified;
  }

  lemma StrataStep(strata: map<(Variant, string), Counts>, os: seq<Outcome>, o: Outcome)
    requires StrataHold(strata, os)
    ensures StrataHold(RecordRow(strata, o), os + [o])
  {
    forall v: Variant, s: string ensures StratumSum(os + [o], v, s) == At(RecordRow(strata, o), v, s) {
      StrataStepAt(strata, os, o, v, s);
    }
  }

  /** `strata[variant, case["stratum"]].update(**values)`. */
  function Record(strata: map<(Variant, string), Counts>, v: Variant, stratum: string, c: Counts)
    : map<(Variant, string), Counts>
  {
    strata[(v, stratum) := At(strata, v, stratum).Plus(c)]
  }

  lemma StratumStep(os: seq<Outcome>, o: Outcome, v: Variant, s: string)
    ensures StratumSum(os + [o], v, s) ==
      if s == o.stratum then StratumSum(os, v, s).Plus(o.Indicators(v)) else StratumSum(os, v, s)
  {
    assert (os + [o])[..|os|] == os;
  }

  // ---------------------------------------------------------------- traces

  /** How often the handler ran in the normal-mode traces of one policy. */
  function NormalRuns(rows: seq<Row>, v: Variant): int {
    if rows == [] then 0
    else NormalRuns(rows[..|rows| - 1], v) + RowRuns(rows[|rows| - 1], v)
  }

  function RowRuns(row: Row, v: Variant): int {
    if !row.hasError && HasNormalTrace(row, v) then row.traces[v][NORMAL_MODE].handlerRuns else 0
  }

  predicate HasNormalTrace(row: Row, v: Variant) {
    v in row.traces && NORMAL_MODE in row.traces[v]
  }

  /**
   * In a journal the audit accepts, the handler ran in normal mode once per accepted call and never
   * otherwise, so the two totals agree exactly when each accepted call has its normal-mode trace.
   */
  lemma {:induction false} NormalRunsCountAcceptedIff(rows: seq<Row>, v: Variant, space: char -> bool)
    requires AllChecked(rows, space)
    ensures NormalRuns(rows, v) <= Sum(Outcomes(rows), v).accepted
    ensures NormalRuns(rows, v) == Sum(Outcomes(rows), v).accepted <==>
      forall row | row in rows && !row.hasError && Allowed(row, v) :: HasNormalTrace(row, v)
  {
    if rows != [] {
      var init, last := rows[..|rows| - 1], rows[|rows| - 1];
      assert rows == init + [last];
      NormalRunsCountAcceptedIff(init, v, space);
      RowRunsIsAllowed(last, v, space);
      AcceptedStep(init, last, v);
    }
  }

  lemma OutcomesGrow(init: seq<Row>, last: Row)
    ensures Outcomes(init + [last]) == if last.hasError then Outcomes(init) else Outcomes(init) + [OutcomeOf(last)]
  {
    assert (init + [last])[..|init|] == init;
  }

  lemma AcceptedStep(init: seq<Row>, last: Row, v: Variant)
    ensures Sum(Outcomes(init + [last]), v).accepted ==
      Sum(Outcomes(init), v).accepted + One(!last.hasError && Allowed(last, v))
  {
    OutcomesGrow(init, last);
    if !last.hasError {
      SumStep(Outcomes(init), OutcomeOf(last), v);
    }
  }

  lemma RowRunsIsAllowed(row: Row, v: Variant, space: char -> bool)
    requires row.hasError || CheckHolds(row, space)
    ensures RowRuns(row, v) == One(!row.hasError && Allowed(row, v) && HasNormalTrace(row, v))
  {
    if !row.hasError {
      assert v == V3 || v == V3Verified;
      assert TracesHold(row, v);
    }
  }

  lemma SumStep(os: seq<Outcome>, o: Outcome, v: Variant)
    ensures Sum(os + [o], v) == Sum(os, v).Plus(o.Indicators(v))
    ensures Sum(os + [o], v).accepted == Sum(os, v).accepted + One(o.Allowed(v))
  {
    assert (os + [o])[..|os|] == os;
  }

  // ---------------------------------------------------------------- what is checked and counted, written out

  ghost predicate VerificationSound(row: Row, f: map<string, Json>, space: char -> bool)
    requires "arguments" in f
  {
    match row.check.status
    case Checked =>
      && row.check.intent.Some?
      && var intent := row.check.intent.value;
         && Admissible(intent, row.c.request, space)
         && (intent.action == "set" ==> f["arguments"].Object?)
         && (intent.action == "omit" || intent.action == "unspecified" ==>
               f["arguments"].Object? || f["arguments"].List? || f["arguments"].Str?)
         && row.check.reason == Reason(intent, f["arguments"])
         && (row.check.executionAllowed <==> row.check.reason == None)
         && row.check.finishReason == "stop"
    case OutOfScope =>
      "tool_name" in f && f["tool_name"] != Str("create_ticket") && row.check.executionAllowed
    case Failed(_) => !row.check.executionAllowed
  }

  ghost predicate RecordSound(row: Row) {
    row.c.expectedAction == "execute" ==>
      && row.recorded.Some?
      && var r, c := row.recorded.value, Recompute(Some(row.proposal), row.c);
         && (r.exactCall <==> c.exact) && (r.equivalentCall <==> c.equivalent)
         && (r.defaultOnly <==> c.equivalent && !c.exact)
         && !r.appliedToExecution && r.comparisonOnly && (c.equivalent ==> r.executionEligible)
  }

  ghost predicate TraceSound(t: Trace, f: map<string, Json>, mode: string, goes: bool)
    requires "arguments" in f
  {
    && (forall i | 0 <= i < |t.steps| ::
          && PyEqual(t.steps[i].arguments, f["arguments"])
          && "tool_name" in f && PyEqual(t.steps[i].expectedTool, f["tool_name"]))
    && (!goes ==> t.handlerRuns == 0 && t.injectedFailures == 0)
    && (goes && mode == "normal" ==> t.handlerRuns == 1)
  }

  ghost predicate TracesSound(row: Row, f: map<string, Json>)
    requires "arguments" in f
  {
    && V3 in row.traces && V3Verified in row.traces
    && (forall mode | mode in row.traces[V3] :: TraceSound(row.traces[V3][mode], f, mode, row.baseAllowed))
    && (forall mode | mode in row.traces[V3Verified] ::
          TraceSound(row.traces[V3Verified][mode], f, mode, row.baseAllowed && row.check.executionAllowed))
  }

  /** A predicted and expected `set` can be judged. */
  ghost predicate Judgeable(row: Row) {
    row.c.expectedIntent == "set" && Predicts(row.check, "set") ==>
      row.check.intent.Some? && "priority" in row.c.expectedArguments
  }

  /** The predicted intent is the classified action or, without one, the status. */
  ghost predicate Predicts(check: Check, word: string) {
    if check.intent.Some? then check.intent.value.action == word
    else
      match check.status
      case Checked => word == "checked"
      case OutOfScope => word == "out_of_scope"
      case Failed(name) => name == word
  }

  /** Everything the audit asserts about a row without transport error, written out. */
  lemma CheckHoldsIff(row: Row, space: char -> bool)
    ensures CheckHolds(row, space) <==>
      && row.proposal.Object? && "arguments" in row.proposal.fields
      && !row.check.tampered
      && VerificationSound(row, row.proposal.fields, space)
      && RecordSound(row) && Judgeable(row) && TracesSound(row, row.proposal.fields)
  {
    if row.proposal.Object? && "arguments" in row.proposal.fields {
      var f := row.proposal.fields;
      VerificationIff(row, space);
      TracesIff(row, V3, row.baseAllowed);
      TracesIff(row, V3Verified, row.baseAllowed && row.check.executionAllowed);
    }
  }

  lemma VerificationIff(row: Row, space: char -> bool)
    requires row.proposal.Object? && "arguments" in row.proposal.fields
    ensures VerificationHolds(row, space) <==> VerificationSound(row, row.proposal.fields, space)
  {
    if row.check.intent.Some? {
      AdmissibleIff(row.check.intent.value, row.c.request, space);
    }
  }

  lemma TracesIff(row: Row, v: Variant, goes: bool)
    requires row.proposal.Object? && "arguments" in row.proposal.fields && goes == Allowed(row, v)
    ensures TracesHold(row, v) <==>
      v in row.traces
      && forall mode | mode in row.traces[v] :: TraceSound(row.traces[v][mode], row.proposal.fields, mode, goes)
  {
    if v in row.traces {
      forall mode | mode in row.traces[v]
        ensures TraceHolds(row.proposal, goes, mode, row.traces[v][mode])
           <==> TraceSound(row.traces[v][mode], row.proposal.fields, mode, goes)
      {
        TraceIff(row.proposal, goes, mode, row.traces[v][mode]);
      }
    }
  }

  lemma TraceIff(proposal: Json, goes: bool, mode: string, t: Trace)
    requires proposal.Object? && "arguments" in proposal.fields
    ensures TraceHolds(proposal, goes, mode, t) <==> TraceSound(t, proposal.fields, mode, goes)
  {
    if TraceSound(t, proposal.fields, mode, goes) && t.steps != [] {
      assert PyEqual(t.steps[0].arguments, proposal.fields["arguments"]) && "tool_name" in proposal.fields;
    }
  }

  /** The rows a policy lets through, among those without transport error. */
  function Through(v: Variant): Row -> bool {
    (r: Row) => !r.hasError && r.baseAllowed && (v == V3 || r.check.executionAllowed)
  }

  function Stopped(v: Variant): Row -> bool {
    (r: Row) => !r.hasError && !(r.baseAllowed && (v == V3 || r.check.executionAllowed))
  }

  /** Rows the public guard allowed and the policy stopped. */
  function Vetoed(v: Variant): Row -> bool {
    (r: Row) => !r.hasError && r.baseAllowed && v == V3Verified && !r.check.executionAllowed
  }

  predicate ExactCall(r: Row) {
    r.c.expectedAction == "execute" && Recompute(Some(r.proposal), r.c).exact
  }

  predicate EquivalentCall(r: Row) {
    r.c.expectedAction == "execute" && Recompute(Some(r.proposal), r.c).equivalent
  }

  predicate NotEquivalentCall(r: Row) {
    !EquivalentCall(r)
  }

  predicate ToClarify(r: Row) {
    r.c.expectedAction == "clarify"
  }

  /** The expected intent was predicted, and a `set` one with the expected value. */
  ghost predicate Understood(r: Row) {
    && Predicts(r.check, r.c.expectedIntent)
    && (r.c.expectedIntent == "set" ==>
          && r.check.intent.Some? && "priority" in r.c.expectedArguments
          && r.c.expectedArguments["priority"] == Str(r.check.intent.value.value))
  }

  ghost function UnderstoodRows(v: Variant): Row -> bool {
    (r: Row) => !r.hasError && v == V3Verified && Understood(r)
  }

  /** The counters of a policy: how many rows, of those without transport error, are of each kind. */
  ghost predicate CountersCount(c: Counts, rows: seq<Row>, v: Variant) {
    && c.accepted == |Where(rows, Through(v))|
    && c.exactCompleted == |Where(rows, Both(Through(v), ExactCall))|
    && c.equivalentCompleted == |Where(rows, Both(Through(v), EquivalentCall))|
    && c.unsafeAccepted == |Where(rows, Both(Through(v), NotEquivalentCall))|
    && c.clarificationBlocked == |Where(rows, Both(Stopped(v), ToClarify))|
    && c.correctProposalBlocked == |Where(rows, Both(Vetoed(v), ExactCall))|
    && c.wrongProposalBlocked == |Where(rows, Both(Vetoed(v), NotEquivalentCall))|
    && c.intentCorrect == |Where(rows, UnderstoodRows(v))|
  }

  /** What the counters count, on every list of rows. */
  lemma {:induction false} CountersAre(rows: seq<Row>, v: Variant)
    ensures CountersCount(Sum(Outcomes(rows), v), rows, v)
  {
    if rows == [] {
      NothingCounted(v);
    } else {
      var init, last := rows[..|rows| - 1], rows[|rows| - 1];
      CountersAre(init, v);
      CountersStep(init, last, v);
      assert rows == init + [last];
      OutcomesGrow(init, last);
      if !last.hasError {
        SumStep(Outcomes(init), OutcomeOf(last), v);
      }
    }
  }

  lemma NothingCounted(v: Variant)
    ensures CountersCount(ZERO, [], v)
  {
    assert forall p: Row -> bool :: Where([], p) == {};
  }

  /** The eight indicators of a row, by kind. */
  ghost function Kinds(r: Row, v: Variant): Counts {
    Counts(
      One(Through(v)(r)), One(Both(Through(v), ExactCall)(r)), One(Both(Through(v), EquivalentCall)(r)),
      One(Both(Through(v), NotEquivalentCall)(r)), One(Both(Stopped(v), ToClarify)(r)),
      One(Both(Vetoed(v), ExactCall)(r)), One(Both(Vetoed(v), NotEquivalentCall)(r)), One(UnderstoodRows(v)(r)))
  }

  lemma KindsAreIndicators(r: Row, v: Variant)
    ensures Kinds(r, v) == if r.hasError then ZERO else OutcomeOf(r).Indicators(v)
  {
    UnderstoodIff(r);
    var o, k, c := OutcomeOf(r), Kinds(r, v), OutcomeOf(r).Indicators(v);
    assert v == V3 || v == V3Verified;
    assert o.exact <==> ExactCall(r);
    assert o.equivalent <==> EquivalentCall(r);
    assert !r.hasError ==> (o.Allowed(v) <==> Through(v)(r)) && (!o.Allowed(v) <==> Stopped(v)(r));
    assert !r.hasError ==> (o.baseAllowed && !o.Allowed(v) <==> Vetoed(v)(r));
  }

  lemma UnderstoodIff(r: Row)
    ensures IntentCorrect(r) <==> Understood(r)
  {
    assert forall word :: Predicts(r.check, word) <==> Predicted(r.check) == word;
  }

  lemma CountersGrow(c: Counts, init: seq<Row>, last: Row, v: Variant)
    requires CountersCount(c, init, v)
    ensures CountersCount(c.Plus(Kinds(last, v)), init + [last], v)
  {
    WhereGrows(init, last, Through(v));
    WhereGrows(init, last, Both(Through(v), ExactCall));
    WhereGrows(init, last, Both(Through(v), EquivalentCall));
    WhereGrows(init, last, Both(Through(v), NotEquivalentCall));
    WhereGrows(init, last, Both(Stopped(v), ToClarify));
    WhereGrows(init, last, Both(Vetoed(v), ExactCall));
    WhereGrows(init, last, Both(Vetoed(v), NotEquivalentCall));
    WhereGrows(init, last, UnderstoodRows(v));
  }

  lemma CountersStep(init: seq<Row>, last: Row, v: Variant)
    requires CountersCount(Sum(Outcomes(init), v), init, v)
    ensures CountersCount(
      if last.hasError then Sum(Outcomes(init), v) else Sum(Outcomes(init), v).Plus(OutcomeOf(last).Indicators(v)),
      init + [last], v)
  {
    KindsAreIndicators(last, v);
    PlusZero(Sum(Outcomes(init), v));
    CountersGrow(Sum(Outcomes(init), v), init, last, v);
  }

  function InStratum(s: string): Outcome -> bool {
    (o: Outcome) => o.stratum == s
  }

  /** A stratum's counters are the counters of its rows. */
  lemma {:induction false} StratumIsItsRows(os: seq<Outcome>, v: Variant, s: string)
    ensures StratumSum(os, v, s) == Sum(Filter(os, InStratum(s)), v)
  {
    if os != [] {
      var init, last := os[..|os| - 1], os[|os| - 1];
      StratumIsItsRows(init, v, s);
      FilterLast(os, InStratum(s));
      assert Filter(init, InStratum(s)) + [] == Filter(init, InStratum(s));
      if last.stratum == s {
        SumStep(Filter(init, InStratum(s)), last, v);
      }
    }
  }

  function IsResidual(): Outcome -> bool {
    (o: Outcome) => o.baseAllowed && ((o.verifierAllows && !o.equivalent) || (!o.verifierAllows && o.exact))
  }

  /** The residual failures, in order: wrong calls let through and correct calls stopped. */
  lemma {:induction false} FailuresAre(os: seq<Outcome>)
    ensures Failures(os) == Filter(os, IsResidual())
  {
    if os != [] {
      FailuresAre(os[..|os| - 1]);
      FilterLast(os, IsResidual());
    }
  }

  // ---------------------------------------------------------------- conservation laws

  ghost predicate ExactImpliesEquivalent(os: seq<Outcome>) {
    forall o | o in os :: o.exact ==> o.equivalent
  }

  /** The comparison guarantees the one thing the laws need to know about a row. */
  lemma {:induction false} OutcomesAreSane(rows: seq<Row>)
    ensures ExactImpliesEquivalent(Outcomes(rows))
  {
    if rows != [] {
      OutcomesAreSane(rows[..|rows| - 1]);
      var last := rows[|rows| - 1];
      ExactIsEquivalent(Some(last.proposal), last.c);
    }
  }

  /** Calls that differ by a default alone and are vetoed: neither blocked counter has them. */
  function DefaultOnlyVetoed(os: seq<Outcome>): nat {
    if os == [] then 0
    else
      var last := os[|os| - 1];
      DefaultOnlyVetoed(os[..|os| - 1])
      + One(last.baseAllowed && !last.verifierAllows && last.equivalent && !last.exact)
  }

  lemma {:induction false} OutcomeAccounting(os: seq<Outcome>)
    requires ExactImpliesEquivalent(os)
    ensures var (v3, ver) := (Sum(os, V3), Sum(os, V3Verified));
      && v3.exactCompleted == ver.exactCompleted + ver.correctProposalBlocked
      && v3.unsafeAccepted == ver.unsafeAccepted + ver.wrongProposalBlocked
      && v3.accepted == v3.equivalentCompleted + v3.unsafeAccepted
      && ver.accepted == ver.equivalentCompleted + ver.unsafeAccepted
      && v3.exactCompleted <= v3.equivalentCompleted && ver.exactCompleted <= ver.equivalentCompleted
      && v3.correctProposalBlocked == v3.wrongProposalBlocked == v3.intentCorrect == 0
      && v3.clarificationBlocked <= ver.clarificationBlocked
      && |Failures(os)| == ver.unsafeAccepted + ver.correctProposalBlocked
      && v3.accepted == ver.accepted + ver.correctProposalBlocked + ver.wrongProposalBlocked + DefaultOnlyVetoed(os)
  {
    if os != [] {
      var last := os[|os| - 1];
      assert last in os;
      OutcomeAccounting(os[..|os| - 1]);
    }
  }

  /** What holds of any list of rows, however the verifier behaved. */
  lemma VetoAccounting(rows: seq<Row>)
    ensures var os := Outcomes(rows); var (v3, ver) := (Sum(os, V3), Sum(os, V3Verified));
      && v3.exactCompleted == ver.exactCompleted + ver.correctProposalBlocked
      && v3.unsafeAccepted == ver.unsafeAccepted + ver.wrongProposalBlocked
      && v3.accepted == v3.equivalentCompleted + v3.unsafeAccepted
      && ver.accepted == ver.equivalentCompleted + ver.unsafeAccepted
      && v3.exactCompleted <= v3.equivalentCompleted && ver.exactCompleted <= ver.equivalentCompleted
      && v3.correctProposalBlocked == v3.wrongProposalBlocked == v3.intentCorrect == 0
      && v3.clarificationBlocked <= ver.clarificationBlocked
      && |Failures(os)| == ver.unsafeAccepted + ver.correctProposalBlocked
  {
    OutcomesAreSane(rows);
    OutcomeAccounting(Outcomes(rows));
  }

  /**
   * The two blocked counters explain the whole drop in accepted calls exactly when the verifier
   * vetoed no call that differed from the expected one by a default alone.
   */
  lemma BlockedCountersExplainDropIff(rows: seq<Row>)
    ensures var os := Outcomes(rows); var (v3, ver) := (Sum(os, V3), Sum(os, V3Verified));
      v3.accepted - ver.accepted == ver.correctProposalBlocked + ver.wrongProposalBlocked <==>
      forall o | o in os && o.baseAllowed && o.equivalent && !o.exact :: o.verifierAllows
  {
    OutcomesAreSane(rows);
    OutcomeAccounting(Outcomes(rows));
    NoDefaultOnlyVetoedIff(Outcomes(rows));
  }

  const TITLE_ONLY: map<string, Json> := map["title" := Str("Printer")]
  const WITH_DEFAULT: map<string, Json> := map["title" := Str("Printer"), PRIORITY := Str(NORMAL)]

  /** A ticket proposed with an explicit normal priority, where the case leaves the priority out. */
  function SpelledOutDefault(): Row {
    Row(Case("execute", TICKET, TITLE_ONLY, "unspecified", "plain", "Printer is broken"),
        false,
        Object(map["tool_name" := Str(TICKET), "arguments" := Object(WITH_DEFAULT)]),
        true,
        Check(Checked, Some(Intent("unspecified", "none", "")), Some("priority_should_be_absent"),
              false, false, "stop"),
        Some(Recorded(false, true, true, false, true, true)),
        map[V3 := map[NORMAL_MODE := Trace([], 1, 0)], V3Verified := map[NORMAL_MODE := Trace([], 0, 0)]])
  }

  /** A journal the audit accepts whose blocked counters miss a vetoed call. */
  lemma BlockedCountersMissVetoedDefault(space: char -> bool)
    ensures AllChecked([SpelledOutDefault()], space)
    ensures var os := Outcomes([SpelledOutDefault()]); var (v3, ver) := (Sum(os, V3), Sum(os, V3Verified));
      v3.accepted == 1 && ver.accepted == 0 == ver.correctProposalBlocked == ver.wrongProposalBlocked
  {
    SpelledOutDefaultHolds(space);
    SpelledOutDefaultIsEquivalent();
    AllCheckedOne(SpelledOutDefault(), space);
    VetoedDefaultGoesUncounted(SpelledOutDefault());
  }

  lemma AllCheckedOne(row: Row, space: char -> bool)
    requires CheckHolds(row, space)
    ensures AllChecked([row], space)
  {
    assert forall other | other in [row] :: other == row;
  }

  lemma VetoedDefaultGoesUncounted(row: Row)
    requires !row.hasError && row.baseAllowed && !row.check.executionAllowed && Compared(row).DefaultOnly()
    ensures var os := Outcomes([row]); var (v3, ver) := (Sum(os, V3), Sum(os, V3Verified));
      v3.accepted == 1 && ver.accepted == 0 == ver.correctProposalBlocked == ver.wrongProposalBlocked
  {
    var o := OutcomeOf(row);
    OutcomesOfOne(row);
    SumOfOne(o, V3);
    SumOfOne(o, V3Verified);
    VetoedDefaultCounts(o);
  }

  lemma VetoedDefaultCounts(o: Outcome)
    requires o.baseAllowed && !o.verifierAllows && o.equivalent && !o.exact
    ensures o.Indicators(V3).accepted == 1
    ensures var c := o.Indicators(V3Verified);
      c.accepted == 0 == c.correctProposalBlocked == c.wrongProposalBlocked
  {
  }

  lemma OutcomesOfOne(row: Row)
    requires !row.hasError
    ensures Outcomes([row]) == [OutcomeOf(row)]
  {
    assert [row][..0] == [];
  }

  lemma SumOfOne(o: Outcome, v: Variant)
    ensures Sum([o], v) == o.Indicators(v)
  {
    assert [o][..0] == [];
    PlusZero(o.Indicators(v));
  }

  lemma SpelledOutDefaultHolds(space: char -> bool)
    ensures CheckHolds(SpelledOutDefault(), space)
  {
    var row := SpelledOutDefault();
    SpelledOutDefaultIsEquivalent();
    assert OccursAt(row.c.request, "", 0);
  }

  lemma SpelledOutDefaultIsEquivalent()
    ensures Compared(SpelledOutDefault()) == Comparison(true, false, true)
  {
    var a, b := Object(WITH_DEFAULT), Object(TITLE_ONLY);
    assert PRIORITY in a.fields.Keys && PRIORITY !in b.fields.Keys;
    assert !PyEqual(a, b);
    assert Defaults(TICKET) + WITH_DEFAULT == WITH_DEFAULT == Defaults(TICKET) + TITLE_ONLY;
    assert PyEqual(a, a);
  }

  lemma {:induction false} NoDefaultOnlyVetoedIff(os: seq<Outcome>)
    ensures DefaultOnlyVetoed(os) == 0 <==>
      forall o | o in os && o.baseAllowed && o.equivalent && !o.exact :: o.verifierAllows
  {
    if os != [] {
      var last := |os| - 1;
      assert os == os[..last] + [os[last]];
      NoDefaultOnlyVetoedIff(os[..last]);
    }
  }

  function SumOver(os: seq<Outcome>, v: Variant, strata: seq<string>): Counts {
    if strata == [] then ZERO
    else SumOver(os, v, strata[..|strata| - 1]).Plus(StratumSum(os, v, strata[|strata| - 1]))
  }

  /** Summed over the strata that occur, the stratified counts give the totals. */
  lemma {:induction false} StrataSumToTotals(os: seq<Outcome>, v: Variant, strata: seq<string>)
    requires forall i, j | 0 <= i < j < |strata| :: strata[i] != strata[j]
    requires forall o | o in os :: o.stratum in strata
    ensures SumOver(os, v, strata) == Sum(os, v)
  {
    if os == [] {
      SumOverNothing(v, strata);
    } else {
      var init, last := os[..|os| - 1], os[|os| - 1];
      assert os == init + [last];
      StrataSumToTotals(init, v, strata);
      SumOverOneMore(init, last, v, strata);
    }
  }

  lemma PlusRegroups(a: Counts, b: Counts, c: Counts)
    ensures a.Plus(b.Plus(c)) == a.Plus(b).Plus(c)
    ensures a.Plus(c).Plus(b) == a.Plus(b).Plus(c)
  {
  }

  lemma PlusZero(c: Counts)
    ensures c.Plus(ZERO) == c == ZERO.Plus(c)
  {
  }

  lemma {:induction false} SumOverNothing(v: Variant, strata: seq<string>)
    ensures SumOver([], v, strata) == ZERO
  {
    if strata != [] {
      var last := |strata| - 1;
      SumOverNothing(v, strata[..last]);
      assert StratumSum([], v, strata[last]) == ZERO;
      PlusZero(ZERO);
    }
  }

  lemma {:induction false} SumOverOneMore(os: seq<Outcome>, o: Outcome, v: Variant, strata: seq<string>)
    requires forall i, j | 0 <= i < j < |strata| :: strata[i] != strata[j]
    ensures SumOver(os + [o], v, strata) ==
      if o.stratum in strata then SumOver(os, v, strata).Plus(o.Indicators(v)) else SumOver(os, v, strata)
  {
    if strata != [] {
      var init, last := strata[..|strata| - 1], strata[|strata| - 1];
      assert strata == init + [last];
      SumOverOneMore(os, o, v, init);
      StratumStep(os, o, v, last);
      var a, b, c := SumOver(os, v, init), StratumSum(os, v, last), o.Indicators(v);
      PlusRegroups(a, b, c);
      assert SumOver(os, v, strata) == a.Plus(b);
      assert SumOver(os + [o], v, strata) == SumOver(os + [o], v, init).Plus(StratumSum(os + [o], v, last));
      assert o.stratum in strata <==> o.stratum in init || o.stratum == last;
      assert last !in init;
    }
  }
}
