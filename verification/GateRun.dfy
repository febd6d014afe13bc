/** The trial loop of `main`, and the verdict of a run that completes it. */
module GateRun {
  import opened Wrappers
  import opened Seqs
  import opened Gate
  import opened GateLaws

  /** What one trial yields: the generator, the workflow driver and the sentinel check. */
  datatype Observation = Observation(
    draft: Option<Draft>, schemaOk: bool, generated: Generated,
    passed: bool, preapprovalIntact: bool, sentinelIntact: bool, runtimeError: bool)

  /** Arm, split name, case and seed determine the trial. */
  type Trials = (string, string, Case, int) -> Observation

  function RowOf(trials: Trials, arm: string, split: string, c: Case, seed: int): Row {
    var o := trials(arm, split, c, seed);
    var (extraction, decision) := Score(c, o.draft, o.schemaOk, o.generated);
    Row(arm, split, c.id, seed, c.outcome, extraction, decision, o.passed, o.preapprovalIntact, o.sentinelIntact,
        o.runtimeError, o.generated.completionError, o.generated.groundingError)
  }

  function BothArms(pr: Protocol, trials: Trials, s: Split, c: Case, seed: int): seq<Row> {
    [RowOf(trials, pr.baseline, s.name, c, seed), RowOf(trials, pr.candidate, s.name, c, seed)]
  }

  function CaseRows(pr: Protocol, trials: Trials, s: Split, seed: int, n: nat): seq<Row>
    requires n <= |s.cases|
  {
    if n == 0 then [] else CaseRows(pr, trials, s, seed, n - 1) + BothArms(pr, trials, s, s.cases[n - 1], seed)
  }

  function SeedRows(pr: Protocol, trials: Trials, s: Split, n: nat): seq<Row>
    requires n <= |pr.seeds|
  {
    if n == 0 then [] else SeedRows(pr, trials, s, n - 1) + CaseRows(pr, trials, s, pr.seeds[n - 1], |s.cases|)
  }

  function SplitRows(pr: Protocol, trials: Trials, n: nat): seq<Row>
    requires n <= |pr.splits|
  {
    if n == 0 then [] else SplitRows(pr, trials, n - 1) + SeedRows(pr, trials, pr.splits[n - 1], |pr.seeds|)
  }

  function RunRows(pr: Protocol, trials: Trials): seq<Row> {
    SplitRows(pr, trials, |pr.splits|)
  }

  /** The draft parsed, conforms, and carries no error flag. */
  ghost predicate Clean(o: Observation) {
    && o.draft.Some? && o.schemaOk
    && !o.generated.completionError && !o.generated.groundingError && o.generated.schemaValid != Some(false)
  }

  ghost predicate ConfirmsIntent(o: Observation) {
    Clean(o) && o.draft.value.hasIntent && o.draft.value.intentConfirmed
  }

  ghost predicate DecidesAs(o: Observation, decisions: set<string>) {
    Clean(o) && !o.draft.value.hasIntent && o.draft.value.decision in decisions
  }

  /** What a row says about its trial: the case's outcome, every flag observed, and the two scores. */
  ghost predicate Records(r: Row, arm: string, split: string, c: Case, seed: int, o: Observation) {
    && r.arm == arm && r.split == split && r.caseId == c.id && r.seed == seed && r.outcome == c.outcome
    && r.passed == o.passed && r.preapprovalIntact == o.preapprovalIntact && r.sentinelIntact == o.sentinelIntact
    && r.runtimeError == o.runtimeError
    && r.completionError == o.generated.completionError && r.groundingError == o.generated.groundingError
    && (r.extraction.valid <==> Clean(o))
    && (r.extraction.matches <==> ConfirmsIntent(o))
    && r.decision == if c.decisions.None? then None else Some(DecidesAs(o, c.decisions.value))
  }

  lemma RowRecords(trials: Trials, arm: string, split: string, c: Case, seed: int)
    ensures Records(RowOf(trials, arm, split, c, seed), arm, split, c, seed, trials(arm, split, c, seed))
  {
    var o := trials(arm, split, c, seed);
    ScoreLayers(c, o.draft, o.schemaOk, o.generated);
  }

  /** `for split: for seed: for case: for arm: rows.append(row)`. */
  method RunTrials(pr: Protocol, trials: Trials) returns (rows: seq<Row>)
    ensures rows == RunRows(pr, trials)
  {
    rows := [];
    for i := 0 to |pr.splits|
      invariant rows == SplitRows(pr, trials, i)
    {
      var more := RunSplit(pr, trials, pr.splits[i]);
      rows := rows + more;
    }
  }

  method RunSplit(pr: Protocol, trials: Trials, s: Split) returns (rows: seq<Row>)
    ensures rows == SeedRows(pr, trials, s, |pr.seeds|)
  {
    rows := [];
    for j := 0 to |pr.seeds|
      invariant rows == SeedRows(pr, trials, s, j)
    {
      var more := RunSeed(pr, trials, s, pr.seeds[j]);
      rows := rows + more;
    }
  }

  method RunSeed(pr: Protocol, trials: Trials, s: Split, seed: int) returns (rows: seq<Row>)
    ensures rows == CaseRows(pr, trials, s, seed, |s.cases|)
  {
    rows := [];
    for k := 0 to |s.cases|
      invariant rows == CaseRows(pr, trials, s, seed, k)
    {
      rows := rows + BothArms(pr, trials, s, s.cases[k], seed);
    }
  }

  // ---------------------------------------------------------------- how often a key occurs

  function Occurrences(rows: seq<Row>, k: Key): nat {
    if rows == [] then 0
    else Occurrences(rows[..|rows| - 1], k) + if rows[|rows| - 1].Key() == k then 1 else 0
  }

  lemma {:induction false} OccurrencesAppend(a: seq<Row>, b: seq<Row>, k: Key)
    ensures Occurrences(a + b, k) == Occurrences(a, k) + Occurrences(b, k)
  {
    if b == [] {
      assert a + b == a;
    } else {
      assert (a + b)[..|a + b| - 1] == a + b[..|b| - 1];
      OccurrencesAppend(a, b[..|b| - 1], k);
    }
  }

  lemma {:induction false} OccurrencesIsMultiplicity(rows: seq<Row>, k: Key)
    ensures multiset(Map(rows, KeyOf))[k] == Occurrences(rows, k)
  {
    if rows != [] {
      var last := |rows| - 1;
      OccurrencesIsMultiplicity(rows[..last], k);
      assert Map(rows, KeyOf) == Map(rows[..last], KeyOf) + [rows[last].Key()];
    }
  }

  function IdCount(cases: seq<Case>, id: string): nat {
    if cases == [] then 0
    else IdCount(cases[..|cases| - 1], id) + if cases[|cases| - 1].id == id then 1 else 0
  }

  lemma {:induction false} CaseRowOccurrences(pr: Protocol, trials: Trials, s: Split, seed: int, n: nat, k: Key)
    requires pr.Valid() && n <= |s.cases|
    ensures Occurrences(CaseRows(pr, trials, s, seed, n), k)
      == if k.0 in pr.Arms() && k.1 == s.name && k.3 == seed then IdCount(s.cases[..n], k.2) else 0
  {
    if n > 0 {
      var c := s.cases[n - 1];
      CaseRowOccurrences(pr, trials, s, seed, n - 1, k);
      BothArmsOccurrences(pr, trials, s, c, seed, k);
      OccurrencesAppend(CaseRows(pr, trials, s, seed, n - 1), BothArms(pr, trials, s, c, seed), k);
      IdCountStep(s.cases, n, k.2);
    }
  }

  lemma IdCountStep(cases: seq<Case>, n: nat, id: string)
    requires 0 < n <= |cases|
    ensures IdCount(cases[..n], id) == IdCount(cases[..n - 1], id) + if cases[n - 1].id == id then 1 else 0
  {
    assert cases[..n][..n - 1] == cases[..n - 1];
  }

  lemma BothArmsOccurrences(pr: Protocol, trials: Trials, s: Split, c: Case, seed: int, k: Key)
    requires pr.Valid()
    ensures Occurrences(BothArms(pr, trials, s, c, seed), k)
      == if k.0 in pr.Arms() && k.1 == s.name && k.2 == c.id && k.3 == seed then 1 else 0
  {
    var rows := BothArms(pr, trials, s, c, seed);
    assert rows == [rows[0]] + [rows[1]];
    OccurrencesAppend([rows[0]], [rows[1]], k);
    assert [rows[0]][..0] == [] && [rows[1]][..0] == [];
  }

  lemma SeedStep(seeds: seq<int>, n: nat, seed: int)
    requires 0 < n <= |seeds| && forall i, j | 0 <= i < j < |seeds| :: seeds[i] != seeds[j]
    ensures seed in seeds[..n] <==> seed in seeds[..n - 1] || seed == seeds[n - 1]
    ensures seed in seeds[..n - 1] ==> seed != seeds[n - 1]
  {
    assert seeds[..n] == seeds[..n - 1] + [seeds[n - 1]];
  }

  lemma {:induction false} SeedRowOccurrences(pr: Protocol, trials: Trials, s: Split, n: nat, k: Key)
    requires pr.Valid() && n <= |pr.seeds| && forall i, j | 0 <= i < j < |pr.seeds| :: pr.seeds[i] != pr.seeds[j]
    ensures Occurrences(SeedRows(pr, trials, s, n), k)
      == if k.0 in pr.Arms() && k.1 == s.name && k.3 in pr.seeds[..n] then IdCount(s.cases, k.2) else 0
  {
    if n > 0 {
      var seed := pr.seeds[n - 1];
      SeedRowOccurrences(pr, trials, s, n - 1, k);
      CaseRowOccurrences(pr, trials, s, seed, |s.cases|, k);
      OccurrencesAppend(SeedRows(pr, trials, s, n - 1), CaseRows(pr, trials, s, seed, |s.cases|), k);
      assert s.cases[..|s.cases|] == s.cases;
      SeedStep(pr.seeds, n, k.3);
    }
  }

  function SplitCount(splits: seq<Split>, name: string, id: string): nat {
    if splits == [] then 0
    else
      var last := splits[|splits| - 1];
      SplitCount(splits[..|splits| - 1], name, id) + if last.name == name then IdCount(last.cases, id) else 0
  }

  lemma {:induction false} SplitRowOccurrences(pr: Protocol, trials: Trials, n: nat, k: Key)
    requires pr.Valid() && n <= |pr.splits| && forall i, j | 0 <= i < j < |pr.seeds| :: pr.seeds[i] != pr.seeds[j]
    ensures Occurrences(SplitRows(pr, trials, n), k)
      == if k.0 in pr.Arms() && k.3 in pr.seeds then SplitCount(pr.splits[..n], k.1, k.2) else 0
  {
    if n > 0 {
      var s := pr.splits[n - 1];
      SplitRowOccurrences(pr, trials, n - 1, k);
      OneSplitOccurrences(pr, trials, s, k);
      SplitCountStep(pr.splits, n, k.1, k.2);
      OccurrencesAppend(SplitRows(pr, trials, n - 1), SeedRows(pr, trials, s, |pr.seeds|), k);
    }
  }

  lemma OneSplitOccurrences(pr: Protocol, trials: Trials, s: Split, k: Key)
    requires pr.Valid() && forall i, j | 0 <= i < j < |pr.seeds| :: pr.seeds[i] != pr.seeds[j]
    ensures Occurrences(SeedRows(pr, trials, s, |pr.seeds|), k)
      == if k.0 in pr.Arms() && k.1 == s.name && k.3 in pr.seeds then IdCount(s.cases, k.2) else 0
  {
    SeedRowOccurrences(pr, trials, s, |pr.seeds|, k);
    assert pr.seeds[..|pr.seeds|] == pr.seeds;
  }

  lemma SplitCountStep(splits: seq<Split>, n: nat, name: string, id: string)
    requires 0 < n <= |splits|
    ensures SplitCount(splits[..n], name, id) ==
      SplitCount(splits[..n - 1], name, id) + if splits[n - 1].name == name then IdCount(splits[n - 1].cases, id) else 0
  {
    assert splits[..n][..n - 1] == splits[..n - 1];
  }

  lemma {:induction false} SplitCountOfName(splits: seq<Split>, i: nat, id: string)
    requires i < |splits| && forall a, b | 0 <= a < b < |splits| :: splits[a].name != splits[b].name
    ensures SplitCount(splits, splits[i].name, id) == IdCount(splits[i].cases, id)
  {
    var last := |splits| - 1;
    if i < last {
      SplitCountOfName(splits[..last], i, id);
    } else {
      SplitCountOfNone(splits[..last], splits[i].name, id);
    }
  }

  lemma {:induction false} SplitCountOfNone(splits: seq<Split>, name: string, id: string)
    requires forall a | 0 <= a < |splits| :: splits[a].name != name
    ensures SplitCount(splits, name, id) == 0
  {
    if splits != [] {
      SplitCountOfNone(splits[..|splits| - 1], name, id);
    }
  }

  ghost predicate Lists(cases: seq<Case>, id: string) {
    exists i | 0 <= i < |cases| :: cases[i].id == id
  }

  ghost predicate Repeats(cases: seq<Case>, id: string) {
    exists i, j | 0 <= i < j < |cases| :: cases[i].id == id == cases[j].id
  }

  lemma ListsStep(init: seq<Case>, c: Case, id: string)
    ensures Lists(init + [c], id) <==> Lists(init, id) || c.id == id
  {
    var cases := init + [c];
    if i :| 0 <= i < |init| && init[i].id == id {
      assert cases[i].id == id;
    }
    assert cases[|init|] == c;
  }

  lemma RepeatsStep(init: seq<Case>, c: Case, id: string)
    ensures Repeats(init + [c], id) <==> Repeats(init, id) || (Lists(init, id) && c.id == id)
  {
    var cases := init + [c];
    if i, j :| 0 <= i < j < |init| && init[i].id == id == init[j].id {
      assert cases[i].id == id == cases[j].id;
    }
    if c.id == id && Lists(init, id) {
      var i :| 0 <= i < |init| && init[i].id == id;
      assert cases[i].id == id == cases[|init|].id;
    }
    if i, j :| 0 <= i < j < |cases| && cases[i].id == id == cases[j].id {
      assert cases[i] == init[i];
      assert j < |init| ==> cases[j] == init[j];
    }
  }

  lemma {:induction false} IdCountIff(cases: seq<Case>, id: string)
    ensures IdCount(cases, id) > 0 <==> Lists(cases, id)
    ensures IdCount(cases, id) <= 1 <==> !Repeats(cases, id)
  {
    if cases != [] {
      var init, last := cases[..|cases| - 1], cases[|cases| - 1];
      IdCountIff(init, id);
      assert cases == init + [last];
      ListsStep(init, last, id);
      RepeatsStep(init, last, id);
    }
  }

  lemma IdCountMeaning(cases: seq<Case>, id: string)
    ensures IdCount(cases, id) > 0 <==> exists c :: c in cases && c.id == id
    ensures IdCount(cases, id) <= 1 <==> forall i, j | 0 <= i < j < |cases| :: !(cases[i].id == id == cases[j].id)
  {
    IdCountIff(cases, id);
    if i :| 0 <= i < |cases| && cases[i].id == id {
      assert cases[i] in cases;
    }
  }

  // ---------------------------------------------------------------- completed runs

  ghost predicate UniqueIds(cases: seq<Case>) {
    forall i, j | 0 <= i < j < |cases| :: cases[i].id != cases[j].id
  }

  ghost predicate UniqueCases(pr: Protocol) {
    forall s | s in pr.splits :: UniqueIds(s.cases)
  }

  ghost predicate GoodSeeds(pr: Protocol) {
    pr.seeds != [] && forall i, j | 0 <= i < j < |pr.seeds| :: pr.seeds[i] != pr.seeds[j]
  }

  lemma RunOccurrences(pr: Protocol, trials: Trials, k: Key)
    requires pr.Valid() && GoodSeeds(pr)
    ensures Occurrences(RunRows(pr, trials), k) ==
      if k.0 in pr.Arms() && k.3 in pr.seeds then SplitCount(pr.splits, k.1, k.2) else 0
  {
    SplitRowOccurrences(pr, trials, |pr.splits|, k);
    assert pr.splits[..|pr.splits|] == pr.splits;
  }

  lemma KeyOccurrences(pr: Protocol, trials: Trials, i: nat, k: Key)
    requires pr.Valid() && GoodSeeds(pr) && i < |pr.splits| && pr.splits[i].name == k.1
    requires k.0 in pr.Arms() && k.3 in pr.seeds
    ensures Occurrences(RunRows(pr, trials), k) == IdCount(pr.splits[i].cases, k.2)
  {
    RunOccurrences(pr, trials, k);
    SplitCountOfName(pr.splits, i, k.2);
  }

  lemma ExpectedHas(pr: Protocol, arm: string, s: Split, c: Case, seed: int)
    requires arm in pr.Arms() && s in pr.splits && c in s.cases && seed in pr.seeds
    ensures (arm, s.name, c.id, seed) in Expected(pr)
  {
  }

  lemma ExpectedIff(pr: Protocol, i: nat, k: Key)
    requires pr.Valid() && i < |pr.splits| && pr.splits[i].name == k.1
    ensures k in Expected(pr) <==> k.0 in pr.Arms() && k.3 in pr.seeds && IdCount(pr.splits[i].cases, k.2) > 0
  {
    IdCountMeaning(pr.splits[i].cases, k.2);
    if k in Expected(pr) {
      var s :| s in pr.splits && s.name == k.1 && exists c :: c in s.cases && c.id == k.2;
      SameNameSameSplit(pr, s, pr.splits[i]);
    }
    if k.0 in pr.Arms() && k.3 in pr.seeds && IdCount(pr.splits[i].cases, k.2) > 0 {
      var c :| c in pr.splits[i].cases && c.id == k.2;
      ExpectedHas(pr, k.0, pr.splits[i], c, k.3);
    }
  }

  /** With unique ids every key of the run occurs once, every other key never. */
  lemma OccursIffExpected(pr: Protocol, trials: Trials, k: Key)
    requires pr.Valid() && GoodSeeds(pr) && UniqueCases(pr)
    ensures Occurrences(RunRows(pr, trials), k) == if k in Expected(pr) then 1 else 0
  {
    RunOccurrences(pr, trials, k);
    if i :| 0 <= i < |pr.splits| && pr.splits[i].name == k.1 {
      SplitCountOfName(pr.splits, i, k.2);
      ExpectedIff(pr, i, k);
      assert UniqueIds(pr.splits[i].cases);
      IdCountMeaning(pr.splits[i].cases, k.2);
    } else {
      SplitCountOfNone(pr.splits, k.1, k.2);
    }
  }

  /** A completed run has full coverage if and only if no split lists a case id twice. */
  lemma CompletedRunCoverage(pr: Protocol, trials: Trials)
    requires pr.Valid() && GoodSeeds(pr)
    ensures Coverage(pr, RunRows(pr, trials)) <==> UniqueCases(pr)
  {
    var rows := RunRows(pr, trials);
    CoverageIsExactlyOnce(pr, rows);
    if UniqueCases(pr) {
      forall k ensures multiset(Map(rows, KeyOf))[k] == multiset(Expected(pr))[k] {
        OccursIffExpected(pr, trials, k);
        OccurrencesIsMultiplicity(rows, k);
      }
      assert multiset(Map(rows, KeyOf)) == multiset(Expected(pr));
    }
    if Coverage(pr, rows) {
      forall s | s in pr.splits ensures UniqueIds(s.cases) {
        CoverageMeansUniqueIds(pr, trials, s);
      }
    }
  }

  lemma CoverageMeansUniqueIds(pr: Protocol, trials: Trials, s: Split)
    requires pr.Valid() && GoodSeeds(pr) && s in pr.splits
    requires multiset(Map(RunRows(pr, trials), KeyOf)) == multiset(Expected(pr))
    ensures UniqueIds(s.cases)
  {
    var i :| 0 <= i < |pr.splits| && pr.splits[i] == s;
    forall a, b | 0 <= a < b < |s.cases| ensures s.cases[a].id != s.cases[b].id {
      var k := (pr.baseline, s.name, s.cases[a].id, pr.seeds[0]);
      KeyOccurrences(pr, trials, i, k);
      OccurrencesIsMultiplicity(RunRows(pr, trials), k);
      IdCountMeaning(s.cases, k.2);
    }
  }

  ghost predicate Comes(pr: Protocol, trials: Trials, r: Row, arm: string, s: Split, c: Case, seed: int) {
    arm in pr.Arms() && s in pr.splits && c in s.cases && seed in pr.seeds && r == RowOf(trials, arm, s.name, c, seed)
  }

  lemma {:induction false} CaseRowsCome(pr: Protocol, trials: Trials, s: Split, seed: int, n: nat, r: Row)
    requires n <= |s.cases| && r in CaseRows(pr, trials, s, seed, n)
    ensures exists arm, c :: arm in pr.Arms() && c in s.cases && r == RowOf(trials, arm, s.name, c, seed)
  {
    if r in CaseRows(pr, trials, s, seed, n - 1) {
      CaseRowsCome(pr, trials, s, seed, n - 1, r);
    } else {
      assert r in BothArms(pr, trials, s, s.cases[n - 1], seed);
      var arm := if r == RowOf(trials, pr.baseline, s.name, s.cases[n - 1], seed) then pr.baseline else pr.candidate;
      assert arm in pr.Arms() && r == RowOf(trials, arm, s.name, s.cases[n - 1], seed);
    }
  }

  lemma {:induction false} SeedRowsCome(pr: Protocol, trials: Trials, s: Split, n: nat, r: Row)
    requires n <= |pr.seeds| && s in pr.splits && r in SeedRows(pr, trials, s, n)
    ensures exists arm, c, seed :: Comes(pr, trials, r, arm, s, c, seed)
  {
    if r in SeedRows(pr, trials, s, n - 1) {
      SeedRowsCome(pr, trials, s, n - 1, r);
    } else {
      CaseRowsCome(pr, trials, s, pr.seeds[n - 1], |s.cases|, r);
      var arm, c :| arm in pr.Arms() && c in s.cases && r == RowOf(trials, arm, s.name, c, pr.seeds[n - 1]);
      assert Comes(pr, trials, r, arm, s, c, pr.seeds[n - 1]);
    }
  }

  lemma {:induction false} RowsCome(pr: Protocol, trials: Trials, n: nat, r: Row)
    requires n <= |pr.splits| && r in SplitRows(pr, trials, n)
    ensures exists arm, s, c, seed :: Comes(pr, trials, r, arm, s, c, seed)
  {
    if r in SplitRows(pr, trials, n - 1) {
      RowsCome(pr, trials, n - 1, r);
    } else {
      SeedRowsCome(pr, trials, pr.splits[n - 1], |pr.seeds|, r);
    }
  }

  lemma SameNameSameSplit(pr: Protocol, s: Split, t: Split)
    requires pr.Valid() && s in pr.splits && t in pr.splits && s.name == t.name
    ensures s == t
  {
    var i :| 0 <= i < |pr.splits| && pr.splits[i] == s;
    var j :| 0 <= j < |pr.splits| && pr.splits[j] == t;
  }

  /** Every listed trial is a row: the key occurs, and the row with that key is this one. */
  lemma TrialIsRow(pr: Protocol, trials: Trials, arm: string, s: Split, c: Case, seed: int)
    requires pr.Valid() && GoodSeeds(pr) && UniqueCases(pr)
    requires arm in pr.Arms() && s in pr.splits && c in s.cases && seed in pr.seeds
    ensures RowOf(trials, arm, s.name, c, seed) in RunRows(pr, trials)
  {
    var rows := RunRows(pr, trials);
    var k := (arm, s.name, c.id, seed);
    CompletedRunCoverage(pr, trials);
    assert k in Expected(pr);
    KeyHasRow(pr, rows, k);
    var r :| r in rows && r.Key() == k;
    RowsCome(pr, trials, |pr.splits|, r);
    var arm', s', c', seed' :| Comes(pr, trials, r, arm', s', c', seed');
    SameNameSameSplit(pr, s, s');
    SameIdSameCase(s.cases, c, c');
  }

  lemma SameIdSameCase(cases: seq<Case>, c: Case, d: Case)
    requires UniqueIds(cases) && c in cases && d in cases && c.id == d.id
    ensures c == d
  {
    var i :| 0 <= i < |cases| && cases[i] == c;
    var j :| 0 <= j < |cases| && cases[j] == d;
  }

  /** The rows of a run agree with the cases they belong to. */
  lemma RowsOfOneCaseAgree(pr: Protocol, trials: Trials, r: Row, q: Row)
    requires pr.Valid() && UniqueCases(pr) && r in RunRows(pr, trials) && q in RunRows(pr, trials)
    requires r.split == q.split && r.caseId == q.caseId
    ensures r.outcome == q.outcome && r.decision.Some? == q.decision.Some?
  {
    var s, c := CaseOfRow(pr, trials, r);
    var t, d := CaseOfRow(pr, trials, q);
    SameNameSameSplit(pr, s, t);
    SameIdSameCase(s.cases, c, d);
  }

  lemma CaseOfRow(pr: Protocol, trials: Trials, r: Row) returns (s: Split, c: Case)
    requires r in RunRows(pr, trials)
    ensures s in pr.splits && c in s.cases && r.split == s.name && r.caseId == c.id
    ensures r.outcome == c.outcome && (r.decision.Some? <==> c.decisions.Some?)
  {
    RowsCome(pr, trials, |pr.splits|, r);
    var arm, s', c', seed :| Comes(pr, trials, r, arm, s', c', seed);
    s, c := s', c';
  }

  function PairsOf(rows: seq<Row>): set<(string, string)> {
    set r | r in rows :: (r.split, r.caseId)
  }

  ghost function TableOf(rows: seq<Row>): CaseTable {
    map p | p in PairsOf(rows) :: Entry(rows, p)
  }

  ghost function Entry(rows: seq<Row>, p: (string, string)): (string, bool)
    requires p in PairsOf(rows)
  {
    var r :| r in rows && (r.split, r.caseId) == p;
    (r.outcome, r.decision.Some?)
  }

  lemma RunFollowsCases(pr: Protocol, trials: Trials)
    requires pr.Valid() && UniqueCases(pr)
    ensures FollowsCases(RunRows(pr, trials), TableOf(RunRows(pr, trials)))
  {
    var rows := RunRows(pr, trials);
    forall r, q | r in rows && q in rows && r.split == q.split && r.caseId == q.caseId
      ensures r.outcome == q.outcome && r.decision.Some? == q.decision.Some?
    {
      RowsOfOneCaseAgree(pr, trials, r, q);
    }
    AgreeingRowsFollowTable(rows);
  }

  lemma AgreeingRowsFollowTable(rows: seq<Row>)
    requires forall r, q | r in rows && q in rows && r.split == q.split && r.caseId == q.caseId ::
      r.outcome == q.outcome && r.decision.Some? == q.decision.Some?
    ensures FollowsCases(rows, TableOf(rows))
  {
  }

  /** A faultless trial of a case. */
  ghost predicate FaultlessTrial(c: Case, o: Observation) {
    && Clean(o) && !o.runtimeError && o.passed && o.preapprovalIntact && o.sentinelIntact
    && (c.outcome != "block" ==> o.draft.value.hasIntent && o.draft.value.intentConfirmed)
    && (c.decisions.Some? ==> !o.draft.value.hasIntent && o.draft.value.decision in c.decisions.value)
  }

  ghost predicate AllCandidateTrialsGood(pr: Protocol, trials: Trials) {
    forall s, c, seed | s in pr.splits && c in s.cases && seed in pr.seeds ::
      FaultlessTrial(c, trials(pr.candidate, s.name, c, seed))
  }

  ghost predicate SomeBaselineMiss(pr: Protocol, trials: Trials) {
    exists s, c, seed :: s in pr.splits && c in s.cases && seed in pr.seeds && c.outcome != "block"
      && !ConfirmsIntent(trials(pr.baseline, s.name, c, seed))
  }

  lemma GoodIffFaultless(trials: Trials, arm: string, split: string, c: Case, seed: int)
    ensures Good(RowOf(trials, arm, split, c, seed)) <==> FaultlessTrial(c, trials(arm, split, c, seed))
  {
    RowRecords(trials, arm, split, c, seed);
  }

  /**
   * From trial loop to verdict: a completed run passes exactly when no split lists a case twice,
   * the candidate is faultless on every case and seed and the baseline misses at least one positive.
   */
  lemma CompletedRunGate(pr: Protocol, trials: Trials)
    requires pr.Valid() && GoodSeeds(pr)
    ensures GateOpen(pr, RunRows(pr, trials)) <==>
      UniqueCases(pr) && AllCandidateTrialsGood(pr, trials) && SomeBaselineMiss(pr, trials)
  {
    CompletedRunCoverage(pr, trials);
    if UniqueCases(pr) {
      UniqueRunGate(pr, trials);
    }
  }

  lemma UniqueRunGate(pr: Protocol, trials: Trials)
    requires pr.Valid() && GoodSeeds(pr) && UniqueCases(pr)
    ensures GateOpen(pr, RunRows(pr, trials)) <==> AllCandidateTrialsGood(pr, trials) && SomeBaselineMiss(pr, trials)
  {
    var rows := RunRows(pr, trials);
    RunFollowsCases(pr, trials);
    CompletedRunCoverage(pr, trials);
    CoverageIsExactlyOnce(pr, rows);
    GateCharacterisation(pr, rows, TableOf(rows));
    CandidateGoodIff(pr, trials);
    BaselineMissIff(pr, trials);
  }

  lemma CandidateGoodIff(pr: Protocol, trials: Trials)
    requires pr.Valid() && GoodSeeds(pr) && UniqueCases(pr)
    ensures CandidateGood(pr, RunRows(pr, trials)) <==> AllCandidateTrialsGood(pr, trials)
  {
    var rows := RunRows(pr, trials);
    if CandidateGood(pr, rows) {
      forall s, c, seed | s in pr.splits && c in s.cases && seed in pr.seeds
        ensures FaultlessTrial(c, trials(pr.candidate, s.name, c, seed))
      {
        TrialIsRow(pr, trials, pr.candidate, s, c, seed);
        GoodIffFaultless(trials, pr.candidate, s.name, c, seed);
      }
    }
    if AllCandidateTrialsGood(pr, trials) {
      forall r | r in rows && r.arm == pr.candidate ensures Good(r) {
        RowsCome(pr, trials, |pr.splits|, r);
        var arm, s, c, seed :| Comes(pr, trials, r, arm, s, c, seed);
        GoodIffFaultless(trials, arm, s.name, c, seed);
        RowRecords(trials, arm, s.name, c, seed);
      }
    }
  }

  lemma BaselineMissIff(pr: Protocol, trials: Trials)
    requires pr.Valid() && GoodSeeds(pr) && UniqueCases(pr)
    ensures (exists r :: r in RunRows(pr, trials)
                         && r.arm == pr.baseline && r.outcome != "block" && !r.extraction.matches)
       <==> SomeBaselineMiss(pr, trials)
  {
    var rows := RunRows(pr, trials);
    if r :| r in rows && r.arm == pr.baseline && r.outcome != "block" && !r.extraction.matches {
      RowsCome(pr, trials, |pr.splits|, r);
      var arm, s, c, seed :| Comes(pr, trials, r, arm, s, c, seed);
      RowRecords(trials, arm, s.name, c, seed);
      assert !ConfirmsIntent(trials(pr.baseline, s.name, c, seed));
    }
    if SomeBaselineMiss(pr, trials) {
      var s, c, seed :| s in pr.splits && c in s.cases && seed in pr.seeds && c.outcome != "block"
        && !ConfirmsIntent(trials(pr.baseline, s.name, c, seed));
      TrialIsRow(pr, trials, pr.baseline, s, c, seed);
      RowRecords(trials, pr.baseline, s.name, c, seed);
      var r := RowOf(trials, pr.baseline, s.name, c, seed);
      assert r in rows && !r.extraction.matches;
    }
  }

  /** Every row of a run records the observation of one of its trials. */
  lemma RunRecords(pr: Protocol, trials: Trials, r: Row)
    requires r in RunRows(pr, trials)
    ensures exists arm, s, c, seed ::
      && arm in [pr.baseline, pr.candidate] && s in pr.splits && c in s.cases && seed in pr.seeds
      && Records(r, arm, s.name, c, seed, trials(arm, s.name, c, seed))
  {
    RowsCome(pr, trials, |pr.splits|, r);
    var arm, s, c, seed :| Comes(pr, trials, r, arm, s, c, seed);
    RowRecords(trials, arm, s.name, c, seed);
    assert arm in [pr.baseline, pr.candidate] && Records(r, arm, s.name, c, seed, trials(arm, s.name, c, seed));
  }

  // ---------------------------------------------------------------- the order of the rows

  /** The number of rows before the rows of split i. */
  function RowsBefore(pr: Protocol, i: nat): nat
    requires i <= |pr.splits|
  {
    if i == 0 then 0 else RowsBefore(pr, i - 1) + |pr.seeds| * (2 * |pr.splits[i - 1].cases|)
  }

  /** Where the loops put the trial of case k under seed j in split i, baseline first. */
  function Position(pr: Protocol, i: nat, j: nat, k: nat): nat
    requires i < |pr.splits|
  {
    RowsBefore(pr, i) + Offset(pr.splits[i], j, k)
  }

  function Offset(s: Split, j: nat, k: nat): nat {
    j * (2 * |s.cases|) + 2 * k
  }

  /** The two rows of a trial stand at this position. */
  predicate PairAt(rows: seq<Row>, at: nat, pair: seq<Row>) {
    at + 2 <= |rows| && rows[at..at + 2] == pair
  }

  lemma PairStays(a: seq<Row>, b: seq<Row>, at: nat, pair: seq<Row>)
    requires PairAt(a, at, pair)
    ensures PairAt(a + b, at, pair)
  {
    assert (a + b)[at..at + 2] == a[at..at + 2];
  }

  lemma PairMoves(a: seq<Row>, b: seq<Row>, at: nat, pair: seq<Row>)
    requires PairAt(b, at, pair)
    ensures PairAt(a + b, |a| + at, pair)
  {
    assert (a + b)[|a| + at..|a| + at + 2] == b[at..at + 2];
  }

  lemma {:induction false} CaseRowAt(pr: Protocol, trials: Trials, s: Split, seed: int, n: nat, k: nat)
    requires n <= |s.cases|
    ensures |CaseRows(pr, trials, s, seed, n)| == 2 * n
    ensures k < n ==> PairAt(CaseRows(pr, trials, s, seed, n), 2 * k, BothArms(pr, trials, s, s.cases[k], seed))
  {
    if n > 0 {
      var before, more := CaseRows(pr, trials, s, seed, n - 1), BothArms(pr, trials, s, s.cases[n - 1], seed);
      CaseRowAt(pr, trials, s, seed, n - 1, k);
      if k < n - 1 {
        PairStays(before, more, 2 * k, BothArms(pr, trials, s, s.cases[k], seed));
      } else if k == n - 1 {
        assert more[0..0 + 2] == more;
        PairMoves(before, more, 0, more);
      }
    }
  }

  lemma OneMoreBlock(n: nat, size: nat, j: nat)
    ensures (n + 1) * size == n * size + size
    ensures j < n ==> j * size + size <= n * size
  {
    if j < n {
      assert (n - j - 1) * size >= 0;
      assert n * size == j * size + (n - j - 1) * size + size;
    }
  }

  lemma {:induction false} SeedRowsLength(pr: Protocol, trials: Trials, s: Split, n: nat)
    requires n <= |pr.seeds|
    ensures |SeedRows(pr, trials, s, n)| == n * (2 * |s.cases|)
  {
    if n > 0 {
      SeedRowsLength(pr, trials, s, n - 1);
      CaseRowAt(pr, trials, s, pr.seeds[n - 1], |s.cases|, 0);
      OneMoreBlock(n - 1, 2 * |s.cases|, 0);
    }
  }

  lemma {:induction false} SeedRowAt(pr: Protocol, trials: Trials, s: Split, n: nat, j: nat, k: nat)
    requires j < n <= |pr.seeds| && k < |s.cases|
    ensures PairAt(SeedRows(pr, trials, s, n), Offset(s, j, k),
                   BothArms(pr, trials, s, s.cases[k], pr.seeds[j]))
  {
    var before, more := SeedRows(pr, trials, s, n - 1), CaseRows(pr, trials, s, pr.seeds[n - 1], |s.cases|);
    var pair := BothArms(pr, trials, s, s.cases[k], pr.seeds[j]);
    if j < n - 1 {
      SeedRowAt(pr, trials, s, n - 1, j, k);
      PairStays(before, more, Offset(s, j, k), pair);
    } else {
      SeedRowsLength(pr, trials, s, n - 1);
      CaseRowAt(pr, trials, s, pr.seeds[n - 1], |s.cases|, k);
      PairMoves(before, more, 2 * k, pair);
    }
  }

  lemma {:induction false} SplitRowsLength(pr: Protocol, trials: Trials, n: nat)
    requires n <= |pr.splits|
    ensures |SplitRows(pr, trials, n)| == RowsBefore(pr, n)
  {
    if n > 0 {
      SplitRowsLength(pr, trials, n - 1);
      SeedRowsLength(pr, trials, pr.splits[n - 1], |pr.seeds|);
    }
  }

  lemma LastSplitAt(pr: Protocol, trials: Trials, i: nat, j: nat, k: nat)
    requires i < |pr.splits| && j < |pr.seeds| && k < |pr.splits[i].cases|
    ensures PairAt(SplitRows(pr, trials, i + 1), Position(pr, i, j, k),
                   BothArms(pr, trials, pr.splits[i], pr.splits[i].cases[k], pr.seeds[j]))
  {
    var s := pr.splits[i];
    var before, more := SplitRows(pr, trials, i), SeedRows(pr, trials, s, |pr.seeds|);
    SplitRowsLength(pr, trials, i);
    SeedRowAt(pr, trials, s, |pr.seeds|, j, k);
    PairMoves(before, more, Offset(s, j, k), BothArms(pr, trials, s, s.cases[k], pr.seeds[j]));
  }

  lemma {:induction false} SplitRowAt(pr: Protocol, trials: Trials, n: nat, i: nat, j: nat, k: nat)
    requires i < n <= |pr.splits| && j < |pr.seeds| && k < |pr.splits[i].cases|
    ensures PairAt(SplitRows(pr, trials, n), Position(pr, i, j, k),
                   BothArms(pr, trials, pr.splits[i], pr.splits[i].cases[k], pr.seeds[j]))
  {
    if i < n - 1 {
      SplitRowAt(pr, trials, n - 1, i, j, k);
      PairStays(SplitRows(pr, trials, n - 1), SeedRows(pr, trials, pr.splits[n - 1], |pr.seeds|), Position(pr, i, j, k),
                BothArms(pr, trials, pr.splits[i], pr.splits[i].cases[k], pr.seeds[j]));
    } else {
      LastSplitAt(pr, trials, i, j, k);
    }
  }

  /**
   * The whole run in order: split by split, seed by seed, case by case, the baseline before the
   * candidate, each row recording its own trial, and nothing else.
   */
  lemma RunOrder(pr: Protocol, trials: Trials, i: nat, j: nat, k: nat)
    requires i < |pr.splits| && j < |pr.seeds| && k < |pr.splits[i].cases|
    ensures |RunRows(pr, trials)| == RowsBefore(pr, |pr.splits|)
    ensures var (rows, at, s) := (RunRows(pr, trials), Position(pr, i, j, k), pr.splits[i]);
      var (c, seed) := (s.cases[k], pr.seeds[j]);
      && at + 1 < |rows|
      && Records(rows[at], pr.baseline, s.name, c, seed, trials(pr.baseline, s.name, c, seed))
      && Records(rows[at + 1], pr.candidate, s.name, c, seed, trials(pr.candidate, s.name, c, seed))
  {
    SplitRowsLength(pr, trials, |pr.splits|);
    SplitRowAt(pr, trials, |pr.splits|, i, j, k);
    var s := pr.splits[i];
    var pair := BothArms(pr, trials, s, s.cases[k], pr.seeds[j]);
    PairElements(RunRows(pr, trials), Position(pr, i, j, k), pair);
    RowRecords(trials, pr.baseline, s.name, s.cases[k], pr.seeds[j]);
    RowRecords(trials, pr.candidate, s.name, s.cases[k], pr.seeds[j]);
  }

  lemma PairElements(rows: seq<Row>, at: nat, pair: seq<Row>)
    requires PairAt(rows, at, pair)
    ensures |pair| == 2 && at + 1 < |rows| && rows[at] == pair[0] && rows[at + 1] == pair[1]
  {
    assert rows[at] == rows[at..at + 2][0] && rows[at + 1] == rows[at..at + 2][1];
  }
}
