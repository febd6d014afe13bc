/** What the aggregated gate means row by row, and that only the rows matter, not their order. */
module GateLaws {
  import opened Wrappers
  import opened Seqs
  import opened Gate

  // ---------------------------------------------------------------- coverage

  ghost predicate KeysDistinct(rows: seq<Row>) {
    forall i, j | 0 <= i < j < |rows| :: rows[i].Key() != rows[j].Key()
  }

  ghost predicate KeysExpected(pr: Protocol, rows: seq<Row>) {
    forall r | r in rows :: r.Key() in Expected(pr)
  }

  /** Set equality plus length says that every expected trial occurs once and nothing else does. */
  lemma CoverageIsExactlyOnce(pr: Protocol, rows: seq<Row>)
    ensures Coverage(pr, rows) <==> multiset(Map(rows, KeyOf)) == multiset(Expected(pr))
  {
    var keys := Map(rows, KeyOf);
    SizeOfSet(keys);
    if multiset(keys) == multiset(Expected(pr)) {
      assert forall k :: k in keys <==> k in multiset(keys);
      assert ToSet(keys) == Expected(pr);
      assert |multiset(keys)| == |keys|;
    }
  }

  lemma CoverageKeys(pr: Protocol, rows: seq<Row>)
    requires Coverage(pr, rows)
    ensures KeysDistinct(rows) && KeysExpected(pr, rows)
  {
    var keys := Map(rows, KeyOf);
    SizeOfSet(keys);
    forall r | r in rows ensures r.Key() in Expected(pr) {
      var i :| 0 <= i < |rows| && rows[i] == r;
      assert keys[i] in ToSet(keys);
    }
    forall i, j | 0 <= i < j < |rows| ensures rows[i].Key() != rows[j].Key() {
      assert keys[i] != keys[j];
    }
  }

  /** A trial of the protocol. */
  ghost predicate Planned(pr: Protocol, arm: string, split: string, caseId: string, seed: int) {
    && (arm == pr.baseline || arm == pr.candidate) && seed in pr.seeds
    && exists s, c :: s in pr.splits && c in s.cases && s.name == split && c.id == caseId
  }

  ghost predicate HasRow(rows: seq<Row>, arm: string, split: string, caseId: string, seed: int) {
    exists r :: r in rows && r.arm == arm && r.split == split && r.caseId == caseId && r.seed == seed
  }

  /** Coverage, written out: every planned trial has a row, every row is planned, none is there twice. */
  lemma CoverageIs(pr: Protocol, rows: seq<Row>)
    ensures Coverage(pr, rows) <==>
      && (forall arm, split, caseId, seed | Planned(pr, arm, split, caseId, seed) ::
            HasRow(rows, arm, split, caseId, seed))
      && (forall r | r in rows :: Planned(pr, r.arm, r.split, r.caseId, r.seed))
      && (forall i, j | 0 <= i < j < |rows| ::
            rows[i].arm != rows[j].arm || rows[i].split != rows[j].split
            || rows[i].caseId != rows[j].caseId || rows[i].seed != rows[j].seed)
  {
    if Coverage(pr, rows) {
      CoverageKeys(pr, rows);
      CoveredTrialsHaveRows(pr, rows);
      forall r | r in rows ensures Planned(pr, r.arm, r.split, r.caseId, r.seed) {
        PlannedIff(pr, r.Key());
      }
      forall i, j | 0 <= i < j < |rows|
        ensures rows[i].arm != rows[j].arm || rows[i].split != rows[j].split
             || rows[i].caseId != rows[j].caseId || rows[i].seed != rows[j].seed
      {
        assert rows[i].Key() != rows[j].Key();
      }
    } else if KeysDistinct(rows) && forall r | r in rows :: Planned(pr, r.arm, r.split, r.caseId, r.seed) {
      UncoveredTrial(pr, rows);
    }
  }

  lemma CoveredTrialsHaveRows(pr: Protocol, rows: seq<Row>)
    requires Coverage(pr, rows)
    ensures forall arm, split, caseId, seed | Planned(pr, arm, split, caseId, seed) ::
      HasRow(rows, arm, split, caseId, seed)
  {
    forall arm, split, caseId, seed | Planned(pr, arm, split, caseId, seed)
      ensures HasRow(rows, arm, split, caseId, seed)
    {
      PlannedIff(pr, (arm, split, caseId, seed));
      KeyInRows(rows, (arm, split, caseId, seed));
    }
  }

  /** Distinct planned rows that do not cover the protocol leave a planned trial out. */
  lemma UncoveredTrial(pr: Protocol, rows: seq<Row>)
    requires !Coverage(pr, rows) && KeysDistinct(rows)
    requires forall r | r in rows :: Planned(pr, r.arm, r.split, r.caseId, r.seed)
    ensures exists k: Key :: Planned(pr, k.0, k.1, k.2, k.3) && !HasRow(rows, k.0, k.1, k.2, k.3)
  {
    var keys := ToSet(Map(rows, KeyOf));
    SizeOfSet(Map(rows, KeyOf));
    forall k | k in keys ensures k in Expected(pr) {
      KeyInRows(rows, k);
      PlannedIff(pr, k);
    }
    assert keys != Expected(pr);
    var k :| k in Expected(pr) && k !in keys;
    PlannedIff(pr, k);
    KeyInRows(rows, k);
  }

  lemma PlannedIff(pr: Protocol, k: Key)
    ensures k in Expected(pr) <==> Planned(pr, k.0, k.1, k.2, k.3)
  {
    if Planned(pr, k.0, k.1, k.2, k.3) {
      var s, c :| s in pr.splits && c in s.cases && s.name == k.1 && c.id == k.2;
      assert k.0 in pr.Arms() && k == (k.0, s.name, c.id, k.3);
    }
  }

  lemma KeyInRows(rows: seq<Row>, k: Key)
    ensures k in ToSet(Map(rows, KeyOf)) <==> HasRow(rows, k.0, k.1, k.2, k.3)
  {
    var keys := Map(rows, KeyOf);
    if k in keys {
      var i :| 0 <= i < |rows| && keys[i] == k;
      assert rows[i] in rows;
    }
    if HasRow(rows, k.0, k.1, k.2, k.3) {
      var r :| r in rows && r.arm == k.0 && r.split == k.1 && r.caseId == k.2 && r.seed == k.3;
      var i :| 0 <= i < |rows| && rows[i] == r;
      assert keys[i] == k;
    }
  }

  lemma SameKeySameRow(rows: seq<Row>, a: Row, b: Row)
    requires KeysDistinct(rows) && a in rows && b in rows && a.Key() == b.Key()
    ensures a == b
  {
    var i :| 0 <= i < |rows| && rows[i] == a;
    var j :| 0 <= j < |rows| && rows[j] == b;
  }

  // ---------------------------------------------------------------- cells

  /** A row that contributes no fault to any of the gate's counts. */
  predicate Good(r: Row) {
    && r.extraction.valid && r.passed && r.preapprovalIntact && r.sentinelIntact
    && !r.runtimeError && !r.completionError && !r.groundingError
    && (r.outcome != "block" ==> r.extraction.matches)
    && (r.decision == None || r.decision == Some(true))
  }

  /** The same in terms of what the gate counts. */
  predicate Faultless(r: Row) {
    && Valid(r) && Passed(r) && Unchanged(r) && SentinelUnchanged(r) && !Errored(r)
    && (Positive(r) ==> Matches(r))
    && (Scored(r) ==> Correct(r))
  }

  lemma GoodIsFaultless(r: Row)
    ensures Good(r) <==> Faultless(r)
  {
  }

  lemma CountIsNone<T>(s: seq<T>, p: T -> bool)
    ensures Count(s, p) == 0 <==> forall x | x in s :: !p(x)
  {
    if Count(s, p) > 0 {
      assert Filter(s, p)[0] in Filter(s, p);
    }
  }

  lemma CellCleanIff(rows: seq<Row>, arm: string, split: string)
    ensures StatsOf(rows, arm, split).Clean() <==>
      forall r | r in rows && r.arm == arm && r.split == split :: Good(r)
  {
    var data := Filter(rows, InCell(arm, split));
    CleanIsAllFaultless(data, Filter(data, Positive), Filter(data, Scored));
    assert forall r :: r in data <==> r in rows && r.arm == arm && r.split == split;
    forall r | r in data ensures Good(r) <==> Faultless(r) {
      GoodIsFaultless(r);
    }
  }

  lemma CleanIsAllFaultless(data: seq<Row>, positive: seq<Row>, scored: seq<Row>)
    requires positive == Filter(data, Positive) && scored == Filter(data, Scored)
    ensures Stats(|data|, Count(data, Valid), Count(positive, Matches), |positive|,
                  Count(scored, Correct), |scored|, Count(data, Passed),
                  Count(data, Unchanged), Count(data, SentinelUnchanged), Count(data, Errored)).Clean()
       <==> forall r | r in data :: Faultless(r)
  {
    CountIsAll(data, Valid);
    CountIsAll(data, Passed);
    CountIsAll(data, Unchanged);
    CountIsAll(data, SentinelUnchanged);
    CountIsAll(positive, Matches);
    CountIsAll(scored, Correct);
    CountIsNone(data, Errored);
  }

  // ---------------------------------------------------------------- sums over splits

  function HitIn(arm: string, names: set<string>): Row -> bool {
    (r: Row) => r.arm == arm && r.split in names && r.outcome != "block" && r.extraction.matches
  }

  lemma {:induction false} PositiveCorrectIsOneCount(rows: seq<Row>, arm: string, splits: seq<Split>)
    requires forall i, j | 0 <= i < j < |splits| :: splits[i].name != splits[j].name
    ensures PositiveCorrect(rows, arm, splits) == Count(rows, HitIn(arm, Names(splits)))
  {
    if splits == [] {
      CountIsNone(rows, HitIn(arm, Names(splits)));
    } else {
      var last := |splits| - 1;
      var before, name := splits[..last], splits[last].name;
      assert splits == before + [splits[last]];
      assert Names(splits) == Names(before) + {name};
      assert name !in Names(before);
      PositiveCorrectIsOneCount(rows, arm, before);
      CellHits(rows, arm, name);
      CountSplits(rows, HitIn(arm, Names(before)), HitIn(arm, {name}), HitIn(arm, Names(splits)));
    }
  }

  lemma CellHits(rows: seq<Row>, arm: string, split: string)
    ensures StatsOf(rows, arm, split).positiveCorrect == Count(rows, HitIn(arm, {split}))
  {
    var cellPositive := (r: Row) => r.arm == arm && r.split == split && Positive(r);
    FilterTwice(rows, InCell(arm, split), Positive, cellPositive);
    FilterTwice(rows, cellPositive, Matches, HitIn(arm, {split}));
  }

  // ---------------------------------------------------------------- pairing

  lemma {:induction false} PairedMeaning(pr: Protocol, rows: seq<Row>)
    ensures forall t | t in Paired(pr, rows) ::
      var c := Paired(pr, rows)[t]; c in rows && c.arm == pr.candidate && c.Trial() == t
    ensures forall r | r in rows && r.arm == pr.candidate :: r.Trial() in Paired(pr, rows)
  {
    if rows != [] {
      var last := |rows| - 1;
      assert rows == rows[..last] + [rows[last]];
      PairedMeaning(pr, rows[..last]);
    }
  }

  lemma {:induction false} NoRegressionsIff(pr: Protocol, paired: map<Trial, Row>, rows: seq<Row>)
    ensures Regressions(pr, paired, rows) == [] <==> forall r | r in rows :: !IsRegression(pr, paired, r)
  {
    if rows != [] {
      var last := |rows| - 1;
      assert rows == rows[..last] + [rows[last]];
      NoRegressionsIff(pr, paired, rows[..last]);
    }
  }

  // ---------------------------------------------------------------- the gate row by row

  ghost predicate CandidateGood(pr: Protocol, rows: seq<Row>) {
    forall r | r in rows && r.arm == pr.candidate :: Good(r)
  }

  ghost predicate NoPairRegresses(pr: Protocol, rows: seq<Row>) {
    forall b, c | b in rows && c in rows && b.arm == pr.baseline && c.arm == pr.candidate && SameTrial(b, c) ::
      !GotWorse(b, c)
  }

  predicate SameTrial(b: Row, c: Row) {
    b.split == c.split && b.caseId == c.caseId && b.seed == c.seed
  }

  /** A matched positive or a correct decision that the other row misses. */
  predicate GotWorse(b: Row, c: Row) {
    || (b.outcome != "block" && b.extraction.matches && !c.extraction.matches)
    || (b.decision == Some(true) && c.decision != Some(true))
  }

  /** The gate, read as a statement about single rows. */
  lemma GateMeaning(pr: Protocol, rows: seq<Row>)
    requires pr.Valid()
    ensures GateOpen(pr, rows) <==>
      && Coverage(pr, rows)
      && NoPairRegresses(pr, rows)
      && CandidateGood(pr, rows)
      && Count(rows, Hit(pr.candidate)) > Count(rows, Hit(pr.baseline))
  {
    if Coverage(pr, rows) {
      CoveredGateMeaning(pr, rows);
    }
  }

  lemma CoveredGateMeaning(pr: Protocol, rows: seq<Row>)
    requires pr.Valid() && Coverage(pr, rows)
    ensures GateOpen(pr, rows) <==>
      && NoPairRegresses(pr, rows)
      && CandidateGood(pr, rows)
      && Count(rows, Hit(pr.candidate)) > Count(rows, Hit(pr.baseline))
  {
    CoverageKeys(pr, rows);
    CleanCellsIff(pr, rows);
    HitTotals(pr, rows, pr.baseline);
    HitTotals(pr, rows, pr.candidate);
    NoRegressionsMeaning(pr, rows);
  }

  function Hit(arm: string): Row -> bool {
    (r: Row) => r.arm == arm && r.outcome != "block" && r.extraction.matches
  }

  lemma HitTotals(pr: Protocol, rows: seq<Row>, arm: string)
    requires pr.Valid() && KeysExpected(pr, rows)
    ensures PositiveCorrect(rows, arm, pr.splits) == Count(rows, Hit(arm))
  {
    PositiveCorrectIsOneCount(rows, arm, pr.splits);
    forall r | r in rows ensures r.split in Names(pr.splits) {
      assert r.Key() in Expected(pr);
    }
    CountMonotone(rows, HitIn(arm, Names(pr.splits)), Hit(arm));
  }

  lemma CleanCellsIff(pr: Protocol, rows: seq<Row>)
    requires KeysExpected(pr, rows)
    ensures (forall s | s in pr.splits :: StatsOf(rows, pr.candidate, s.name).Clean())
       <==> CandidateGood(pr, rows)
  {
    if CandidateGood(pr, rows) {
      forall s | s in pr.splits ensures StatsOf(rows, pr.candidate, s.name).Clean() {
        CellCleanIff(rows, pr.candidate, s.name);
      }
    }
    if forall s | s in pr.splits :: StatsOf(rows, pr.candidate, s.name).Clean() {
      forall r | r in rows && r.arm == pr.candidate ensures Good(r) {
        var s := SplitOf(pr, rows, r);
        CellCleanIff(rows, pr.candidate, s.name);
      }
    }
  }

  lemma SplitOf(pr: Protocol, rows: seq<Row>, r: Row) returns (s: Split)
    requires KeysExpected(pr, rows) && r in rows
    ensures s in pr.splits && s.name == r.split
  {
    assert r.Key() in Expected(pr);
    s :| s in pr.splits && s.name == r.split;
  }

  lemma NoRegressionsMeaning(pr: Protocol, rows: seq<Row>)
    requires pr.Valid() && KeysDistinct(rows)
    ensures Regressions(pr, Paired(pr, rows), rows) == [] <==> NoPairRegresses(pr, rows)
  {
    var paired := Paired(pr, rows);
    NoRegressionsIff(pr, paired, rows);
    forall b, c | b in rows && c in rows && b.arm == pr.baseline && c.arm == pr.candidate && SameTrial(b, c)
      ensures IsRegression(pr, paired, b) <==> GotWorse(b, c)
    {
      PairedRowIs(pr, rows, b, c);
    }
    forall b | b in rows && IsRegression(pr, paired, b)
      ensures exists c :: c in rows && c.arm == pr.candidate && SameTrial(b, c)
    {
      PairedMeaning(pr, rows);
    }
  }

  lemma PairedRowIs(pr: Protocol, rows: seq<Row>, b: Row, c: Row)
    requires KeysDistinct(rows) && c in rows && c.arm == pr.candidate && SameTrial(b, c)
    ensures b.Trial() in Paired(pr, rows) && Paired(pr, rows)[b.Trial()] == c
  {
    PairedMeaning(pr, rows);
    SameKeySameRow(rows, Paired(pr, rows)[b.Trial()], c);
  }

  // ---------------------------------------------------------------- order

  lemma GateSurvivesReordering(pr: Protocol, rows: seq<Row>, other: seq<Row>)
    requires pr.Valid() && multiset(rows) == multiset(other) && GateOpen(pr, rows)
    ensures GateOpen(pr, other)
  {
    MapIgnoresOrder(rows, other, KeyOf);
    CoverageIsExactlyOnce(pr, rows);
    CoverageIsExactlyOnce(pr, other);
    GateMeaning(pr, rows);
    GateMeaning(pr, other);
    assert forall r :: r in rows <==> r in multiset(rows);
    assert forall r :: r in other <==> r in multiset(other);
    FilterIgnoresOrder(rows, other, Hit(pr.candidate));
    FilterIgnoresOrder(rows, other, Hit(pr.baseline));
  }

  /**
   * The verdict does not depend on the order of the rows, whatever rows they are: duplicates,
   * gaps and foreign trials included.
   */
  lemma GateIgnoresOrder(pr: Protocol, rows: seq<Row>, other: seq<Row>)
    requires pr.Valid() && multiset(rows) == multiset(other)
    ensures GateOpen(pr, rows) == GateOpen(pr, other)
  {
    if GateOpen(pr, rows) { GateSurvivesReordering(pr, rows, other); }
    if GateOpen(pr, other) { GateSurvivesReordering(pr, other, rows); }
  }

  // ---------------------------------------------------------------- the reported regressions

  /** The last candidate row of the trial of row i is row j. */
  ghost predicate PairedAt(pr: Protocol, rows: seq<Row>, r: Row, j: int) {
    && 0 <= j < |rows| && rows[j].arm == pr.candidate && SameTrial(rows[j], r)
    && forall k | j < k < |rows| :: !(rows[k].arm == pr.candidate && SameTrial(rows[k], r))
  }

  lemma {:induction false} PairedIsLast(pr: Protocol, rows: seq<Row>, r: Row)
    ensures r.Trial() in Paired(pr, rows) <==> exists j :: PairedAt(pr, rows, r, j)
    ensures forall j | PairedAt(pr, rows, r, j) ::
      r.Trial() in Paired(pr, rows) && Paired(pr, rows)[r.Trial()] == rows[j]
  {
    if rows != [] {
      var init, n := rows[..|rows| - 1], |rows| - 1;
      PairedIsLast(pr, init, r);
      if rows[n].arm == pr.candidate && SameTrial(rows[n], r) {
        assert PairedAt(pr, rows, r, n);
      } else {
        forall j ensures PairedAt(pr, init, r, j) <==> PairedAt(pr, rows, r, j) {
          assert forall k | 0 <= k < n :: init[k] == rows[k];
        }
      }
    }
  }

  /** Row i is a baseline row that did better than the last candidate row of its trial. */
  ghost predicate ReportsRow(pr: Protocol, rows: seq<Row>, i: int)
    requires 0 <= i < |rows|
  {
    rows[i].arm == pr.baseline && exists j :: PairedAt(pr, rows, rows[i], j) && GotWorse(rows[i], rows[j])
  }

  lemma IsRegressionIff(pr: Protocol, rows: seq<Row>, i: int)
    requires 0 <= i < |rows|
    ensures IsRegression(pr, Paired(pr, rows), rows[i]) <==> ReportsRow(pr, rows, i)
  {
    PairedIsLast(pr, rows, rows[i]);
  }

  ghost predicate Increasing(s: seq<int>) {
    forall a, b | 0 <= a < b < |s| :: s[a] < s[b]
  }

  /** The list names, in row order, the trials of exactly the rows that did better. */
  ghost predicate ReportFollows(pr: Protocol, rows: seq<Row>, report: seq<Trial>, positions: seq<int>) {
    && |report| == |positions| && Increasing(positions)
    && (forall n | 0 <= n < |positions| ::
          && 0 <= positions[n] < |rows|
          && report[n] == (rows[positions[n]].split, rows[positions[n]].caseId, rows[positions[n]].seed))
    && forall i | 0 <= i < |rows| :: i in positions <==> ReportsRow(pr, rows, i)
  }

  /** The reported regressions, written out. */
  lemma RegressionsAre(pr: Protocol, rows: seq<Row>)
    ensures exists positions :: ReportFollows(pr, rows, Regressions(pr, Paired(pr, rows), rows), positions)
  {
    var positions := RegressionPositions(pr, Paired(pr, rows), rows);
    forall i | 0 <= i < |rows| ensures i in positions <==> ReportsRow(pr, rows, i) {
      IsRegressionIff(pr, rows, i);
    }
    assert ReportFollows(pr, rows, Regressions(pr, Paired(pr, rows), rows), positions);
  }

  lemma {:induction false} RegressionPositions(pr: Protocol, paired: map<Trial, Row>, rows: seq<Row>)
    returns (positions: seq<int>)
    ensures |positions| == |Regressions(pr, paired, rows)| && Increasing(positions)
    ensures forall n | 0 <= n < |positions| ::
      && 0 <= positions[n] < |rows|
      && var r := rows[positions[n]]; Regressions(pr, paired, rows)[n] == (r.split, r.caseId, r.seed)
    ensures forall i | 0 <= i < |rows| :: i in positions <==> IsRegression(pr, paired, rows[i])
  {
    positions := [];
    if rows != [] {
      var init, last := rows[..|rows| - 1], |rows| - 1;
      positions := RegressionPositions(pr, paired, init);
      assert forall n | 0 <= n < |positions| :: init[positions[n]] == rows[positions[n]];
      if IsRegression(pr, paired, rows[last]) {
        positions := positions + [last];
      }
    }
  }

  // ---------------------------------------------------------------- order of the reported regressions

  /** Baseline rows of a trial that regress against this candidate row. */
  function Hits(pr: Protocol, t: Trial, c: Row): Row -> bool {
    (b: Row) => b.arm == pr.baseline && b.Trial() == t && Regressed(b, c)
  }

  /** A trial is reported once for each of its baseline rows that regresses against its paired row. */
  lemma {:induction false} TimesReported(pr: Protocol, paired: map<Trial, Row>, rows: seq<Row>, t: Trial)
    ensures multiset(Regressions(pr, paired, rows))[t] == if t in paired then Count(rows, Hits(pr, t, paired[t])) else 0
  {
    if rows != [] {
      var init, last := rows[..|rows| - 1], rows[|rows| - 1];
      TimesReported(pr, paired, init, t);
      assert Regressions(pr, paired, rows) ==
        Regressions(pr, paired, init) + if IsRegression(pr, paired, last) then [last.Trial()] else [];
    }
  }

  function Reported(pr: Protocol, rows: seq<Row>): multiset<Trial> {
    multiset(Regressions(pr, Paired(pr, rows), rows))
  }

  /** Candidate rows of one trial make the same number of baseline rows regress. */
  ghost predicate DuplicatesRegressAlike(pr: Protocol, rows: seq<Row>) {
    forall c, d | c in rows && d in rows && c.arm == d.arm == pr.candidate && c.Trial() == d.Trial() ::
      Count(rows, Hits(pr, c.Trial(), c)) == Count(rows, Hits(pr, c.Trial(), d))
  }

  /** The report is the same, but for the order of its entries, however the rows are ordered. */
  ghost predicate ReportIgnoresOrder(pr: Protocol, rows: seq<Row>) {
    forall other | multiset(other) == multiset(rows) :: Reported(pr, other) == Reported(pr, rows)
  }

  /**
   * Reordering the rows can change which regressions are reported, because the last duplicate
   * wins the pairing. It cannot if and only if duplicates of a candidate trial regress alike.
   */
  lemma ReportIgnoresOrderIff(pr: Protocol, rows: seq<Row>)
    ensures ReportIgnoresOrder(pr, rows) <==> DuplicatesRegressAlike(pr, rows)
  {
    if DuplicatesRegressAlike(pr, rows) {
      forall other | multiset(other) == multiset(rows) ensures Reported(pr, other) == Reported(pr, rows) {
        forall t: Trial ensures Reported(pr, other)[t] == Reported(pr, rows)[t] {
          AlikeMeansSameReport(pr, rows, other, t);
        }
      }
    }
    if ReportIgnoresOrder(pr, rows) {
      forall c, d | c in rows && d in rows && c.arm == d.arm == pr.candidate && c.Trial() == d.Trial()
        ensures Count(rows, Hits(pr, c.Trial(), c)) == Count(rows, Hits(pr, c.Trial(), d))
      {
        var x := MoveToEnd(pr, rows, c);
        var y := MoveToEnd(pr, rows, d);
        assert Reported(pr, x) == Reported(pr, rows) == Reported(pr, y);
      }
    }
  }

  lemma SameRows(rows: seq<Row>, other: seq<Row>)
    requires multiset(other) == multiset(rows)
    ensures forall r :: r in other <==> r in rows
  {
    assert forall r :: r in rows <==> r in multiset(rows);
    assert forall r :: r in other <==> r in multiset(other);
  }

  lemma AlikeMeansSameReport(pr: Protocol, rows: seq<Row>, other: seq<Row>, t: Trial)
    requires DuplicatesRegressAlike(pr, rows) && multiset(other) == multiset(rows)
    ensures Reported(pr, other)[t] == Reported(pr, rows)[t]
  {
    SameRows(rows, other);
    PairedMeaning(pr, rows);
    PairedMeaning(pr, other);
    TimesReported(pr, Paired(pr, rows), rows, t);
    TimesReported(pr, Paired(pr, other), other, t);
    if t in Paired(pr, rows) {
      var c, d := Paired(pr, rows)[t], Paired(pr, other)[t];
      FilterIgnoresOrder(rows, other, Hits(pr, t, d));
    }
  }

  /** With a candidate row last, the report on its trial is about that row. */
  lemma MoveToEnd(pr: Protocol, rows: seq<Row>, c: Row) returns (other: seq<Row>)
    requires c in rows && c.arm == pr.candidate
    ensures multiset(other) == multiset(rows)
    ensures Reported(pr, other)[c.Trial()] == Count(rows, Hits(pr, c.Trial(), c))
  {
    var i :| 0 <= i < |rows| && rows[i] == c;
    var front, back := rows[..i], rows[i + 1..];
    other := front + back + [c];
    assert rows == front + [c] + back;
    assert other[..|other| - 1] == front + back;
    assert Paired(pr, other)[c.Trial()] == c;
    TimesReported(pr, Paired(pr, other), other, c.Trial());
    FilterIgnoresOrder(rows, other, Hits(pr, c.Trial(), c));
  }

  /** Where the report does depend on the order: a duplicated candidate trial of which one row regresses. */
  lemma RegressionsDependOnOrder(pr: Protocol, good: Row, bad: Row, base: Row)
    requires pr.Valid() && good.arm == bad.arm == pr.candidate && base.arm == pr.baseline
    requires good.Trial() == bad.Trial() == base.Trial()
    requires Regressed(base, bad) && !Regressed(base, good)
    ensures var (rows, other) := ([good, bad, base], [bad, good, base]);
      && multiset(rows) == multiset(other)
      && Regressions(pr, Paired(pr, rows), rows) != []
      && Regressions(pr, Paired(pr, other), other) == []
  {
    LastDuplicateWins(pr, good, bad, base);
    LastDuplicateWins(pr, bad, good, base);
    NoRegressionsIff(pr, Paired(pr, [good, bad, base]), [good, bad, base]);
    NoRegressionsIff(pr, Paired(pr, [bad, good, base]), [bad, good, base]);
    assert IsRegression(pr, Paired(pr, [good, bad, base]), [good, bad, base][2]);
  }

  lemma LastDuplicateWins(pr: Protocol, first: Row, second: Row, base: Row)
    requires pr.Valid() && first.arm == second.arm == pr.candidate && base.arm == pr.baseline
    ensures second.Trial() in Paired(pr, [first, second, base])
    ensures Paired(pr, [first, second, base])[second.Trial()] == second
  {
    assert [first, second, base][..2] == [first, second];
    assert Paired(pr, [first, second, base]) == Paired(pr, [first, second]);
  }

  // ---------------------------------------------------------------- rows that follow their cases

  /** What a case fixes about all of its rows: the outcome, and whether decisions are scored. */
  type CaseTable = map<(string, string), (string, bool)>

  ghost predicate FollowsCases(rows: seq<Row>, table: CaseTable) {
    forall r | r in rows ::
      && (r.split, r.caseId) in table
      && r.outcome == table[(r.split, r.caseId)].0
      && r.decision.Some? == table[(r.split, r.caseId)].1
  }

  /** With faultless candidate rows no pair can regress. */
  lemma GoodCandidateNeverRegresses(rows: seq<Row>, table: CaseTable, b: Row, c: Row)
    requires FollowsCases(rows, table) && b in rows && c in rows && SameTrial(b, c) && Good(c)
    ensures !GotWorse(b, c)
  {
    assert b.outcome == c.outcome && (b.decision.Some? <==> c.decision.Some?);
  }

  /** So the clause about paired regressions never decides the verdict. */
  lemma RegressionClauseIsRedundant(pr: Protocol, rows: seq<Row>, table: CaseTable)
    requires pr.Valid() && FollowsCases(rows, table) && Coverage(pr, rows)
    requires forall s | s in pr.splits :: StatsOf(rows, pr.candidate, s.name).Clean()
    ensures Regressions(pr, Paired(pr, rows), rows) == []
  {
    CoverageKeys(pr, rows);
    CleanCellsIff(pr, rows);
    NoRegressionsMeaning(pr, rows);
    forall b, c | b in rows && c in rows && b.arm == pr.baseline && c.arm == pr.candidate && SameTrial(b, c)
      ensures !GotWorse(b, c)
    {
      GoodCandidateNeverRegresses(rows, table, b, c);
    }
  }

  function PositiveOf(arm: string): Row -> bool {
    (r: Row) => r.arm == arm && r.outcome != "block"
  }

  function KeysWhere(rows: seq<Row>, p: Row -> bool): set<Key> {
    set r | r in rows && p(r) :: r.Key()
  }

  lemma {:induction false} CountIsKeySet(rows: seq<Row>, p: Row -> bool)
    requires KeysDistinct(rows)
    ensures Count(rows, p) == |KeysWhere(rows, p)|
  {
    if rows == [] {
      assert KeysWhere(rows, p) == {};
    } else {
      var last := |rows| - 1;
      var before, r := rows[..last], rows[last];
      assert rows == before + [r];
      CountIsKeySet(before, p);
      assert r.Key() !in KeysWhere(before, p);
      assert KeysWhere(rows, p) == if p(r) then KeysWhere(before, p) + {r.Key()} else KeysWhere(before, p);
    }
  }

  /** The trials whose case is positive, whichever the arm. */
  ghost function PositiveTrials(keys: set<Key>, table: CaseTable): set<Trial> {
    set k | k in keys && (k.1, k.2) in table && table[(k.1, k.2)].0 != "block" :: (k.1, k.2, k.3)
  }

  function WithArm(arm: string, trials: set<Trial>): set<Key> {
    set t | t in trials :: (arm, t.0, t.1, t.2)
  }

  lemma {:induction false} WithArmSize(arm: string, trials: set<Trial>)
    ensures |WithArm(arm, trials)| == |trials|
    decreases |trials|
  {
    if trials == {} {
      assert WithArm(arm, trials) == {};
    } else {
      var t :| t in trials;
      WithArmSize(arm, trials - {t});
      assert WithArm(arm, trials) == WithArm(arm, trials - {t}) + {(arm, t.0, t.1, t.2)};
    }
  }

  lemma ExpectedInBothArms(pr: Protocol, k: Key, arm: string)
    requires k in Expected(pr) && arm in pr.Arms()
    ensures (arm, k.1, k.2, k.3) in Expected(pr)
  {
  }

  lemma PositivesPerArm(pr: Protocol, rows: seq<Row>, table: CaseTable, arm: string)
    requires pr.Valid() && FollowsCases(rows, table) && Coverage(pr, rows) && arm in pr.Arms()
    ensures Count(rows, PositiveOf(arm)) == |PositiveTrials(Expected(pr), table)|
  {
    var keys := Expected(pr);
    CoverageKeys(pr, rows);
    CountIsKeySet(rows, PositiveOf(arm));
    WithArmSize(arm, PositiveTrials(keys, table));
    forall k | k in keys ensures (arm, k.1, k.2, k.3) in keys && exists r :: r in rows && r.Key() == k {
      ExpectedInBothArms(pr, k, arm);
      KeyHasRow(pr, rows, k);
    }
    PositiveKeys(rows, keys, table, arm);
  }

  lemma PositiveKeys(rows: seq<Row>, keys: set<Key>, table: CaseTable, arm: string)
    requires FollowsCases(rows, table) && forall r | r in rows :: r.Key() in keys
    requires forall k | k in keys :: (arm, k.1, k.2, k.3) in keys && exists r :: r in rows && r.Key() == k
    ensures KeysWhere(rows, PositiveOf(arm)) == WithArm(arm, PositiveTrials(keys, table))
  {
    var a, b := KeysWhere(rows, PositiveOf(arm)), WithArm(arm, PositiveTrials(keys, table));
    forall k | k in a ensures k in b {
      var r :| r in rows && PositiveOf(arm)(r) && r.Key() == k;
      assert (k.1, k.2, k.3) in PositiveTrials(keys, table);
    }
    forall k | k in b ensures k in a {
      var t :| t in PositiveTrials(keys, table) && k == (arm, t.0, t.1, t.2);
      var e :| e in keys && (e.1, e.2, e.3) == t;
      var r :| r in rows && r.Key() == k;
    }
  }

  lemma KeyHasRow(pr: Protocol, rows: seq<Row>, k: Key)
    requires Coverage(pr, rows) && k in Expected(pr)
    ensures exists r :: r in rows && r.Key() == k
  {
    assert k in ToSet(Map(rows, KeyOf));
    var i :| 0 <= i < |rows| && Map(rows, KeyOf)[i] == k;
    assert rows[i].Key() == k;
  }

  /**
   * The gate opens exactly when every arm/split/case/seed occurs once, every candidate row is
   * faultless, and the baseline got at least one positive row wrong.
   */
  lemma GateCharacterisation(pr: Protocol, rows: seq<Row>, table: CaseTable)
    requires pr.Valid() && FollowsCases(rows, table)
    ensures GateOpen(pr, rows) <==>
      && multiset(Map(rows, KeyOf)) == multiset(Expected(pr))
      && CandidateGood(pr, rows)
      && exists r :: r in rows && r.arm == pr.baseline && r.outcome != "block" && !r.extraction.matches
  {
    CoverageIsExactlyOnce(pr, rows);
    if Coverage(pr, rows) && CandidateGood(pr, rows) {
      CoverageKeys(pr, rows);
      CleanCellsIff(pr, rows);
      RegressionClauseIsRedundant(pr, rows, table);
      GateMeaning(pr, rows);
      NoRegressionsMeaning(pr, rows);
      PositivesPerArm(pr, rows, table, pr.baseline);
      PositivesPerArm(pr, rows, table, pr.candidate);
      CountMonotone(rows, Hit(pr.candidate), PositiveOf(pr.candidate));
      CountMonotone(rows, Hit(pr.baseline), PositiveOf(pr.baseline));
    } else if Coverage(pr, rows) {
      GateMeaning(pr, rows);
    }
  }
}
