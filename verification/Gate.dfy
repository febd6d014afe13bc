/**
 * The frozen two-arm comparison of experiments/personal_assistant_completeness/run.py, with the
 * two score layers it takes from the path-boundary and path-grounding experiments.
 */
module Gate {
  import opened Wrappers
  import opened Seqs

  // ---------------------------------------------------------------- cases and scoring

  /** The parts of a scenario that scoring and the gate read; decisions may be left unspecified. */
  datatype Case = Case(id: string, outcome: string, decisions: Option<set<string>>)

  /** What `parse_draft` makes of a raw output it accepts. */
  datatype Draft = Draft(decision: string, hasIntent: bool, intentConfirmed: bool)

  /** Flags recorded by the generator; schema_valid may be absent. */
  datatype Generated = Generated(completionError: bool, groundingError: bool, schemaValid: Option<bool>)

  datatype Extraction = Extraction(valid: bool, matches: bool)

  /** `strict_score`: the draft parses and also satisfies the strict schema. */
  function StrictScore(draft: Option<Draft>, schemaOk: bool): Extraction {
    var valid := draft.Some? && schemaOk;
    Extraction(valid, valid && draft.value.hasIntent && draft.value.intentConfirmed)
  }

  /** The path-boundary layer: the decision is scored only if the case specifies decisions. */
  function BaseScore(c: Case, draft: Option<Draft>, schemaOk: bool, g: Generated): (Extraction, Option<bool>) {
    var strict := StrictScore(draft, schemaOk);
    var value := if g.completionError then Extraction(false, false) else strict;
    var decision :=
      if c.decisions.None? then None
      else if draft.None? then Some(false)
      else Some(value.valid && !draft.value.hasIntent && draft.value.decision in c.decisions.value);
    (value, decision)
  }

  /** The path-grounding layer: a failed schema or grounding downgrades what the base layer said. */
  function Score(c: Case, draft: Option<Draft>, schemaOk: bool, g: Generated): (Extraction, Option<bool>) {
    var (value, decision) := BaseScore(c, draft, schemaOk, g);
    if g.schemaValid == Some(false) || g.groundingError then
      (Extraction(false, false), if decision.Some? then Some(false) else None)
    else (value, decision)
  }

  /**
   * The three layers together. The decision is unscored exactly when the case specifies none,
   * whatever went wrong; any error flag clears the extraction; and the three verdicts a row can
   * earn each need a parsed, schema-conforming draft without error flags.
   */
  lemma ScoreLayers(c: Case, draft: Option<Draft>, schemaOk: bool, g: Generated)
    ensures var (value, decision) := Score(c, draft, schemaOk, g);
      var clean := draft.Some? && schemaOk && !g.completionError && !g.groundingError && g.schemaValid != Some(false);
      && (decision.None? <==> c.decisions.None?)
      && (value.valid <==> clean)
      && (value.matches <==> clean && draft.value.hasIntent && draft.value.intentConfirmed)
      && (decision == Some(true) <==>
            clean && !draft.value.hasIntent && c.decisions.Some? && draft.value.decision in c.decisions.value)
      && !(value.matches && decision == Some(true))
  {
  }

  // ---------------------------------------------------------------- rows and protocol

  type Key = (string, string, string, int)
  type Trial = (string, string, int)

  datatype Row = Row(
    arm: string, split: string, caseId: string, seed: int, outcome: string,
    extraction: Extraction, decision: Option<bool>,
    passed: bool, preapprovalIntact: bool, sentinelIntact: bool,
    runtimeError: bool, completionError: bool, groundingError: bool)
  {
    function Key(): Key { (arm, split, caseId, seed) }
    function Trial(): Trial { (split, caseId, seed) }
  }

  datatype Split = Split(name: string, cases: seq<Case>)

  datatype Protocol = Protocol(baseline: string, candidate: string, splits: seq<Split>, seeds: seq<int>) {
    ghost predicate Valid() {
      && baseline != candidate
      && forall i, j | 0 <= i < j < |splits| :: splits[i].name != splits[j].name
    }

    function Arms(): seq<string> { [baseline, candidate] }
  }

  function Names(splits: seq<Split>): set<string> {
    set s | s in splits :: s.name
  }

  /** `{(a, s, c.case_id, seed) ...}`. */
  function Expected(pr: Protocol): set<Key> {
    set a, s, c, seed | a in pr.Arms() && s in pr.splits && c in s.cases && seed in pr.seeds :: (a, s.name, c.id, seed)
  }

  function KeyOf(r: Row): Key { r.Key() }

  function Coverage(pr: Protocol, rows: seq<Row>): bool {
    ToSet(Map(rows, KeyOf)) == Expected(pr) && |rows| == |Expected(pr)|
  }

  // ---------------------------------------------------------------- per-cell statistics

  function InCell(arm: string, split: string): Row -> bool { (r: Row) => r.arm == arm && r.split == split }

  predicate Positive(r: Row) { r.outcome != "block" }
  predicate Scored(r: Row) { r.decision.Some? }
  predicate Valid(r: Row) { r.extraction.valid }
  predicate Matches(r: Row) { r.extraction.matches }
  predicate Correct(r: Row) { r.decision == Some(true) }
  predicate Passed(r: Row) { r.passed }
  predicate Unchanged(r: Row) { r.preapprovalIntact }
  predicate SentinelUnchanged(r: Row) { r.sentinelIntact }
  predicate Errored(r: Row) { r.runtimeError || r.completionError || r.groundingError }

  datatype Stats = Stats(
    calls: nat, strictValid: nat, positiveCorrect: nat, positiveTotal: nat,
    conservativeCorrect: nat, conservativeTotal: nat, workflowPassed: nat,
    preapprovalUnchanged: nat, sentinelUnchanged: nat, errors: nat)
  {
    /** The per-cell part of the gate. */
    predicate Clean() {
      && strictValid == calls == workflowPassed == preapprovalUnchanged == sentinelUnchanged
      && positiveCorrect == positiveTotal
      && conservativeCorrect == conservativeTotal
      && errors == 0
    }
  }

  function StatsOf(rows: seq<Row>, arm: string, split: string): Stats {
    var data := Filter(rows, InCell(arm, split));
    var positive, scored := Filter(data, Positive), Filter(data, Scored);
    Stats(|data|, Count(data, Valid), Count(positive, Matches), |positive|,
          Count(scored, Correct), |scored|, Count(data, Passed),
          Count(data, Unchanged), Count(data, SentinelUnchanged), Count(data, Errored))
  }

  /** The positions of the rows of a cell. */
  ghost function CellRows(rows: seq<Row>, arm: string, split: string): set<int> {
    set i | 0 <= i < |rows| && rows[i].arm == arm && rows[i].split == split
  }

  /** The ten counters of a cell, each the number of its rows in which the recorded field says so. */
  ghost predicate Counted(g: Stats, rows: seq<Row>, arm: string, split: string) {
    var cell := CellRows(rows, arm, split);
    && g.calls == |cell|
    && g.strictValid == |set i | i in cell && rows[i].extraction.valid|
    && g.positiveTotal == |set i | i in cell && rows[i].outcome != "block"|
    && g.positiveCorrect == |set i | i in cell && rows[i].outcome != "block" && rows[i].extraction.matches|
    && g.conservativeTotal == |set i | i in cell && rows[i].decision != None|
    && g.conservativeCorrect == |set i | i in cell && rows[i].decision == Some(true)|
    && g.workflowPassed == |set i | i in cell && rows[i].passed|
    && g.preapprovalUnchanged == |set i | i in cell && rows[i].preapprovalIntact|
    && g.sentinelUnchanged == |set i | i in cell && rows[i].sentinelIntact|
    && g.errors ==
         |set i | i in cell && (rows[i].runtimeError || rows[i].completionError || rows[i].groundingError)|
  }

  ghost function CellWhere(rows: seq<Row>, arm: string, split: string, q: Row -> bool): set<int> {
    set i | i in CellRows(rows, arm, split) && q(rows[i])
  }

  lemma CellCount(rows: seq<Row>, arm: string, split: string, q: Row -> bool)
    ensures Count(Filter(rows, InCell(arm, split)), q) == |CellWhere(rows, arm, split, q)|
  {
    CountWithin(rows, InCell(arm, split), q);
    assert Where(rows, Both(InCell(arm, split), q)) == CellWhere(rows, arm, split, q);
  }

  lemma CellSize(rows: seq<Row>, arm: string, split: string)
    ensures |Filter(rows, InCell(arm, split))| == |CellRows(rows, arm, split)|
  {
    CountIsPositions(rows, InCell(arm, split));
    assert Where(rows, InCell(arm, split)) == CellRows(rows, arm, split);
  }

  lemma CellCountWithin(rows: seq<Row>, arm: string, split: string, p: Row -> bool, q: Row -> bool)
    ensures Count(Filter(Filter(rows, InCell(arm, split)), p), q) == |CellWhere(rows, arm, split, Both(p, q))|
  {
    FilterTwice(Filter(rows, InCell(arm, split)), p, q, Both(p, q));
    CellCount(rows, arm, split, Both(p, q));
  }

  lemma CellSets(rows: seq<Row>, arm: string, split: string)
    ensures var cell := CellRows(rows, arm, split);
      && CellWhere(rows, arm, split, Valid) == (set i | i in cell && rows[i].extraction.valid)
      && CellWhere(rows, arm, split, Positive) == (set i | i in cell && rows[i].outcome != "block")
      && CellWhere(rows, arm, split, Scored) == (set i | i in cell && rows[i].decision != None)
      && CellWhere(rows, arm, split, Passed) == (set i | i in cell && rows[i].passed)
      && CellWhere(rows, arm, split, Unchanged) == (set i | i in cell && rows[i].preapprovalIntact)
      && CellWhere(rows, arm, split, SentinelUnchanged) == (set i | i in cell && rows[i].sentinelIntact)
      && CellWhere(rows, arm, split, Errored) ==
           (set i | i in cell && (rows[i].runtimeError || rows[i].completionError || rows[i].groundingError))
      && CellWhere(rows, arm, split, Both(Positive, Matches)) ==
           (set i | i in cell && rows[i].outcome != "block" && rows[i].extraction.matches)
      && CellWhere(rows, arm, split, Both(Scored, Correct)) == (set i | i in cell && rows[i].decision == Some(true))
  {
  }

  lemma StatsAreCounted(rows: seq<Row>, arm: string, split: string)
    ensures Counted(StatsOf(rows, arm, split), rows, arm, split)
  {
    CellSize(rows, arm, split);
    CellSets(rows, arm, split);
    CellCount(rows, arm, split, Valid);
    CellCount(rows, arm, split, Positive);
    CellCount(rows, arm, split, Scored);
    CellCount(rows, arm, split, Passed);
    CellCount(rows, arm, split, Unchanged);
    CellCount(rows, arm, split, SentinelUnchanged);
    CellCount(rows, arm, split, Errored);
    CellCountWithin(rows, arm, split, Positive, Matches);
    CellCountWithin(rows, arm, split, Scored, Correct);
  }

  /** `sum(g["positive_correct"] for g in arms[arm].values())`. */
  function PositiveCorrect(rows: seq<Row>, arm: string, splits: seq<Split>): nat {
    if splits == [] then 0
    else
      var last := |splits| - 1;
      PositiveCorrect(rows, arm, splits[..last]) + StatsOf(rows, arm, splits[last].name).positiveCorrect
  }

  // ---------------------------------------------------------------- pairing

  /** The dictionary from trial to candidate row; a later duplicate replaces an earlier one. */
  function Paired(pr: Protocol, rows: seq<Row>): map<Trial, Row> {
    if rows == [] then map[]
    else
      var last := rows[|rows| - 1];
      var before := Paired(pr, rows[..|rows| - 1]);
      if last.arm == pr.candidate then before[last.Trial() := last] else before
  }

  predicate Regressed(row: Row, other: Row) {
    || (row.outcome != "block" && row.extraction.matches && !other.extraction.matches)
    || (row.decision == Some(true) && other.decision != Some(true))
  }

  predicate IsRegression(pr: Protocol, paired: map<Trial, Row>, row: Row) {
    row.arm == pr.baseline && row.Trial() in paired && Regressed(row, paired[row.Trial()])
  }

  function Regressions(pr: Protocol, paired: map<Trial, Row>, rows: seq<Row>): seq<Trial> {
    if rows == [] then []
    else
      var last := rows[|rows| - 1];
      Regressions(pr, paired, rows[..|rows| - 1]) + if IsRegression(pr, paired, last) then [last.Trial()] else []
  }

  // ---------------------------------------------------------------- the gate

  function GateOpen(pr: Protocol, rows: seq<Row>): bool {
    && Coverage(pr, rows)
    && Regressions(pr, Paired(pr, rows), rows) == []
    && (forall s | s in pr.splits :: StatsOf(rows, pr.candidate, s.name).Clean())
    && PositiveCorrect(rows, pr.candidate, pr.splits) > PositiveCorrect(rows, pr.baseline, pr.splits)
  }

  /** The statistics of both arms by split name, and the verdict. */
  datatype Report = Report(
    baseline: map<string, Stats>, candidate: map<string, Stats>, coverage: bool, regressions: seq<Trial>, gate: bool)

  /** Every split has a cell, and nothing else does. */
  ghost predicate CellsAre(cells: map<string, Stats>, pr: Protocol, rows: seq<Row>, arm: string) {
    && cells.Keys == Names(pr.splits)
    && forall s | s in pr.splits :: CellIs(cells, rows, arm, s)
  }

  ghost predicate CellsCounted(cells: map<string, Stats>, pr: Protocol, rows: seq<Row>, arm: string) {
    forall s | s in pr.splits :: s.name in cells && Counted(cells[s.name], rows, arm, s.name)
  }

  /** `summary`. */
  method Summarize(pr: Protocol, rows: seq<Row>) returns (r: Report)
    requires pr.Valid()
    ensures CellsAre(r.baseline, pr, rows, pr.baseline) && CellsCounted(r.baseline, pr, rows, pr.baseline)
    ensures CellsAre(r.candidate, pr, rows, pr.candidate) && CellsCounted(r.candidate, pr, rows, pr.candidate)
    ensures r.coverage == Coverage(pr, rows)
    ensures r.regressions == Regressions(pr, Paired(pr, rows), rows)
    ensures r.gate == GateOpen(pr, rows)
  {
    var baseline := FillArm(pr, rows, pr.baseline);
    var candidate := FillArm(pr, rows, pr.candidate);
    var paired := PairCandidates(pr, rows);
    var regressions := CollectRegressions(pr, paired, rows);
    var gate := DecideGate(pr, rows, candidate, Coverage(pr, rows), regressions);
    r := Report(baseline, candidate, Coverage(pr, rows), regressions, gate);
    CellsAreCounted(pr, rows, baseline, pr.baseline);
    CellsAreCounted(pr, rows, candidate, pr.candidate);
  }

  method DecideGate(pr: Protocol, rows: seq<Row>, candidate: map<string, Stats>,
                    coverage: bool, regressions: seq<Trial>) returns (gate: bool)
    requires CellsAre(candidate, pr, rows, pr.candidate) && coverage == Coverage(pr, rows)
    requires regressions == Regressions(pr, Paired(pr, rows), rows)
    ensures gate == GateOpen(pr, rows)
  {
    assert forall s | s in pr.splits :: CellIs(candidate, rows, pr.candidate, s);
    gate := coverage && regressions == [] && forall s | s in pr.splits :: candidate[s.name].Clean();
    gate := gate && PositiveCorrect(rows, pr.candidate, pr.splits) > PositiveCorrect(rows, pr.baseline, pr.splits);
  }

  lemma CellsAreCounted(pr: Protocol, rows: seq<Row>, cells: map<string, Stats>, arm: string)
    requires CellsAre(cells, pr, rows, arm)
    ensures CellsCounted(cells, pr, rows, arm)
  {
    forall s | s in pr.splits ensures s.name in cells && Counted(cells[s.name], rows, arm, s.name) {
      assert CellIs(cells, rows, arm, s);
      StatsAreCounted(rows, arm, s.name);
    }
  }

  predicate CellIs(cells: map<string, Stats>, rows: seq<Row>, arm: string, s: Split) {
    s.name in cells && cells[s.name] == StatsOf(rows, arm, s.name)
  }

  method PairCandidates(pr: Protocol, rows: seq<Row>) returns (paired: map<Trial, Row>)
    ensures paired == Paired(pr, rows)
  {
    paired := map[];
    for i := 0 to |rows|
      invariant paired == Paired(pr, rows[..i])
    {
      assert rows[..i + 1][..i] == rows[..i];
      if rows[i].arm == pr.candidate {
        paired := paired[rows[i].Trial() := rows[i]];
      }
    }
    assert rows[..|rows|] == rows;
  }

  method CollectRegressions(pr: Protocol, paired: map<Trial, Row>, rows: seq<Row>) returns (regressions: seq<Trial>)
    ensures regressions == Regressions(pr, paired, rows)
  {
    regressions := [];
    for i := 0 to |rows|
      invariant regressions == Regressions(pr, paired, rows[..i])
    {
      assert rows[..i + 1][..i] == rows[..i];
      if IsRegression(pr, paired, rows[i]) {
        regressions := regressions + [rows[i].Trial()];
      }
    }
    assert rows[..|rows|] == rows;
  }

  lemma NamesGrow(splits: seq<Split>, i: nat)
    requires i < |splits|
    ensures Names(splits[..i + 1]) == Names(splits[..i]) + {splits[i].name}
  {
    TakeOneMore(splits, i);
  }

  method FillArm(pr: Protocol, rows: seq<Row>, arm: string) returns (cells: map<string, Stats>)
    ensures CellsAre(cells, pr, rows, arm)
  {
    cells := map[];
    for i := 0 to |pr.splits|
      invariant cells.Keys == Names(pr.splits[..i])
      invariant forall j | 0 <= j < i :: CellIs(cells, rows, arm, pr.splits[j])
    {
      NamesGrow(pr.splits, i);
      var cell := StatsOf(rows, arm, pr.splits[i].name);
      CellAdded(pr.splits, i, cells, rows, arm);
      cells := cells[pr.splits[i].name := cell];
    }
    assert pr.splits[..|pr.splits|] == pr.splits;
  }

  lemma CellAdded(splits: seq<Split>, i: nat, cells: map<string, Stats>, rows: seq<Row>, arm: string)
    requires i < |splits| && forall j | 0 <= j < i :: CellIs(cells, rows, arm, splits[j])
    ensures var more := cells[splits[i].name := StatsOf(rows, arm, splits[i].name)];
      forall j | 0 <= j <= i :: CellIs(more, rows, arm, splits[j])
  {
  }
}
