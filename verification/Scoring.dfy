/**
 * The batching half of experiments/retrieval_research/ranker.py, and the check that a saved
 * score record has to pass before it is replayed (experiments/retrieval_research/run.py).
 */
module Scoring {
  import opened Wrappers
  import opened Ranker
  import opened Seqs
  import Json

  const BATCH := 8
  const MAX_WINDOWS := 8
  const PAD := 0

  /** One tokenizer window, or one padded row of a model batch. */
  datatype Window = Window(ids: seq<int>, mask: seq<int>, types: seq<int>) {
    function Padded(length: nat): Window
      requires |ids| <= length
    {
      var zeros := seq(length - |ids|, _ => PAD);
      Window(ids + zeros, mask + zeros, types + zeros)
    }
  }

  datatype ScoreError =
    | BadSources(problem: RankError)
    | NoWindows(reason: string)
    | InvalidRelevance
    | EmptyMaximum

  datatype Record = Record(scores: seq<real>, windowScores: seq<seq<real>>, windowCounts: seq<nat>)

  /** The tokenizer: the windows of a passage, or why there are none. */
  type Tokenizer = string -> Result<seq<Window>, string>
  /** The session: one output row for each input row, if it behaves. */
  type Session = seq<Window> -> seq<seq<Number>>

  function Passage(chunk: Chunk): string {
    chunk.title + "\n" + chunk.text
  }

  function Longest(batch: seq<(nat, Window)>): (n: nat)
    ensures forall b | 0 <= b < |batch| :: |batch[b].1.ids| <= n
  {
    if batch == [] then 0
    else
      var n := Longest(batch[..|batch| - 1]);
      var last := |batch[|batch| - 1].1.ids|;
      if last > n then last else n
  }

  function PaddedRows(batch: seq<(nat, Window)>): (rows: seq<Window>)
    ensures |rows| == |batch|
  {
    var length := Longest(batch);
    seq(|batch|, b requires 0 <= b < |batch| => batch[b].1.Padded(length))
  }

  /** `values.shape == (len(batch), 1)` and every value finite. */
  predicate OneFiniteColumn(values: seq<seq<Number>>, rows: nat) {
    |values| == rows && forall b | 0 <= b < |values| :: |values[b]| == 1 && values[b][0].Finite?
  }

  function MaxReal(s: seq<real>): (m: real)
    requires s != []
    ensures forall i | 0 <= i < |s| :: s[i] <= m
    ensures exists i | 0 <= i < |s| :: s[i] == m
  {
    if |s| == 1 then s[0]
    else
      var m := MaxReal(s[..|s| - 1]);
      assert forall i | 0 <= i < |s| - 1 :: s[..|s| - 1][i] == s[i];
      if s[|s| - 1] > m then s[|s| - 1] else m
  }

  // ---------------------------------------------------------------- the plain per-window loop

  /**
   * The session scores each row on its own and ignores padding: `single` says what it makes of
   * one unpadded window.
   */
  ghost predicate ScoresRowByRow(session: Session, single: Window -> Number) {
    forall batch: seq<(nat, Window)> | 0 < |batch| <= BATCH ::
      session(PaddedRows(batch)) == seq(|batch|, b requires 0 <= b < |batch| => [single(batch[b].1)])
  }

  /** A model that looks at one row at a time and does not see padding meets the assumption. */
  lemma RowModelScoresRowByRow(session: Session, model: Window -> Number)
    requires forall rows: seq<Window> :: session(rows) == seq(|rows|, b requires 0 <= b < |rows| => [model(rows[b])])
    requires forall w: Window, length: nat | |w.ids| <= length :: model(w.Padded(length)) == model(w)
    ensures ScoresRowByRow(session, model)
  {
    forall batch: seq<(nat, Window)> | 0 < |batch| <= BATCH
      ensures session(PaddedRows(batch)) == seq(|batch|, b requires 0 <= b < |batch| => [model(batch[b].1)])
    {
      var rows := PaddedRows(batch);
      assert forall b | 0 <= b < |batch| :: model(rows[b]) == model(batch[b].1);
    }
  }

  function AllWindows(chunks: seq<Chunk>, tokenizer: Tokenizer): Result<seq<seq<Window>>, ScoreError> {
    if chunks == [] then Ok([])
    else
      var before := AllWindows(chunks[..|chunks| - 1], tokenizer);
      if before.Err? then before
      else
        match tokenizer(Passage(chunks[|chunks| - 1]))
        case Err(reason) => Err(NoWindows(reason))
        case Ok(windows) => Ok(before.value + [windows])
  }

  function Singles(windows: seq<Window>, single: Window -> Number): seq<real>
    requires forall b | 0 <= b < |windows| :: single(windows[b]).Finite?
  {
    seq(|windows|, b requires 0 <= b < |windows| => single(windows[b]).value)
  }

  ghost predicate AllFinite(windows: seq<seq<Window>>, single: Window -> Number) {
    forall i, b | 0 <= i < |windows| && 0 <= b < |windows[i]| :: single(windows[i][b]).Finite?
  }

  /** Scoring each window of each chunk by itself: no flattening, no batches, no padding. */
  ghost function PerWindow(chunks: seq<Chunk>, tokenizer: Tokenizer, single: Window -> Number)
    : Result<Record, ScoreError>
  {
    var problem := ScoresProblem(chunks, seq(|chunks|, _ => Finite(0.0)));
    if problem.Some? then Err(BadSources(problem.value))
    else
      var all := AllWindows(chunks, tokenizer);
      if all.Err? then Err(all.error)
      else if AllFinite(all.value, single) then
        Summary(seq(|all.value|, i requires 0 <= i < |all.value| => Singles(all.value[i], single)), Lengths(all.value))
      else Err(InvalidRelevance)
  }

  /** `[len(x) for x in lists]`. */
  function Lengths<T>(lists: seq<seq<T>>): seq<nat> {
    seq(|lists|, i requires 0 <= i < |lists| => |lists[i]|)
  }

  /** `max` over each chunk's window scores, which fails on a chunk without windows. */
  function Summary(scores: seq<seq<real>>, counts: seq<nat>): Result<Record, ScoreError> {
    if exists i | 0 <= i < |scores| :: scores[i] == [] then Err(EmptyMaximum)
    else Ok(Record(seq(|scores|, i requires 0 <= i < |scores| => MaxReal(scores[i])), scores, counts))
  }

  // ---------------------------------------------------------------- flatten and scatter

  /** All windows in one list, each labelled with the chunk it came from. */
  function Flatten(windows: seq<seq<Window>>): seq<(nat, Window)> {
    if windows == [] then []
    else
      var i := |windows| - 1;
      Flatten(windows[..i]) + Labelled(i, windows[i])
  }

  function Labelled(i: nat, windows: seq<Window>): (r: seq<(nat, Window)>)
    ensures |r| == |windows|
  {
    seq(|windows|, b requires 0 <= b < |windows| => (i, windows[b]))
  }

  /** What scattering the first values of the flattened list has put in the bucket of chunk i. */
  function Bucket(pending: seq<(nat, Window)>, values: seq<real>, i: nat): seq<real>
    requires |values| == |pending|
  {
    if pending == [] then []
    else
      var last := |pending| - 1;
      Bucket(pending[..last], values[..last], i) + if pending[last].0 == i then [values[last]] else []
  }

  lemma {:induction false} BucketAppend(p: seq<(nat, Window)>, v: seq<real>,
                                        q: seq<(nat, Window)>, w: seq<real>, i: nat)
    requires |v| == |p| && |w| == |q|
    ensures Bucket(p + q, v + w, i) == Bucket(p, v, i) + Bucket(q, w, i)
  {
    if q == [] {
      assert p + q == p && v + w == v;
    } else {
      var last := |q| - 1;
      assert (p + q)[..|p + q| - 1] == p + q[..last] && (v + w)[..|v + w| - 1] == v + w[..last];
      BucketAppend(p, v, q[..last], w[..last], i);
    }
  }

  lemma {:induction false} BucketOfLabelled(j: nat, windows: seq<Window>, values: seq<real>, i: nat)
    requires |values| == |windows|
    ensures Bucket(Labelled(j, windows), values, i) == if i == j then values else []
  {
    if windows != [] {
      var last := |windows| - 1;
      BucketOfLabelled(j, windows[..last], values[..last], i);
      assert Labelled(j, windows)[..last] == Labelled(j, windows[..last]);
      assert values == values[..last] + [values[last]];
    }
  }

  function Scores(pending: seq<(nat, Window)>, single: Window -> Number): (r: seq<real>)
    requires forall b | 0 <= b < |pending| :: single(pending[b].1).Finite?
    ensures |r| == |pending|
  {
    seq(|pending|, b requires 0 <= b < |pending| => single(pending[b].1).value)
  }

  lemma {:induction false} FlattenLabels(windows: seq<seq<Window>>, i: nat, b: nat)
    requires i < |windows| && b < |windows[i]|
    ensures (i, windows[i][b]) in Flatten(windows)
  {
    var last := |windows| - 1;
    if i < last {
      FlattenLabels(windows[..last], i, b);
    } else {
      assert Labelled(last, windows[last])[b] == (i, windows[i][b]);
    }
  }

  lemma {:induction false} FlattenLabelsOnly(windows: seq<seq<Window>>, x: (nat, Window))
    requires x in Flatten(windows)
    ensures x.0 < |windows| && x.1 in windows[x.0]
  {
    var last := |windows| - 1;
    if x in Flatten(windows[..last]) {
      FlattenLabelsOnly(windows[..last], x);
    }
  }

  /** Scattering the scores of the flattened list returns to every chunk its own scores, in order. */
  lemma {:induction false} ScatterUndoesFlatten(windows: seq<seq<Window>>, single: Window -> Number, i: nat)
    requires i < |windows|
    requires forall b | 0 <= b < |Flatten(windows)| :: single(Flatten(windows)[b].1).Finite?
    requires forall b | 0 <= b < |windows[i]| :: single(windows[i][b]).Finite?
    ensures Bucket(Flatten(windows), Scores(Flatten(windows), single), i) == Singles(windows[i], single)
  {
    var last := |windows| - 1;
    var front, back := Flatten(windows[..last]), Labelled(last, windows[last]);
    assert Flatten(windows) == front + back;
    ScoresAppend(front, back, single);
    BucketAppend(front, Scores(front, single), back, Scores(back, single), i);
    BucketOfLabelled(last, windows[last], Scores(back, single), i);
    if i < last {
      ScatterUndoesFlatten(windows[..last], single, i);
    } else {
      BucketOfOthers(windows[..last], Scores(front, single), i);
      assert Scores(back, single) == Singles(windows[i], single);
    }
  }

  lemma ScoresAppend(p: seq<(nat, Window)>, q: seq<(nat, Window)>, single: Window -> Number)
    requires forall b | 0 <= b < |p + q| :: single((p + q)[b].1).Finite?
    ensures forall b | 0 <= b < |p| :: single(p[b].1).Finite?
    ensures forall b | 0 <= b < |q| :: single(q[b].1).Finite?
    ensures Scores(p + q, single) == Scores(p, single) + Scores(q, single)
  {
    assert forall b | 0 <= b < |p| :: p[b] == (p + q)[b];
    assert forall b | 0 <= b < |q| :: q[b] == (p + q)[|p| + b];
  }

  lemma {:induction false} BucketOfOthers(windows: seq<seq<Window>>, values: seq<real>, i: nat)
    requires i >= |windows| && |values| == |Flatten(windows)|
    ensures Bucket(Flatten(windows), values, i) == []
  {
    if windows != [] {
      var last := |windows| - 1;
      var cut := |Flatten(windows[..last])|;
      assert values == values[..cut] + values[cut..];
      BucketAppend(Flatten(windows[..last]), values[..cut], Labelled(last, windows[last]), values[cut..], i);
      BucketOfOthers(windows[..last], values[..cut], i);
      BucketOfLabelled(last, windows[last], values[cut..], i);
    }
  }

  /** Whatever the values are, each bucket ends up as long as the chunk has windows. */
  lemma {:induction false} BucketLength(windows: seq<seq<Window>>, values: seq<real>, i: nat)
    requires i < |windows| && |values| == |Flatten(windows)|
    ensures |Bucket(Flatten(windows), values, i)| == |windows[i]|
  {
    var last := |windows| - 1;
    var cut := |Flatten(windows[..last])|;
    assert values == values[..cut] + values[cut..];
    BucketAppend(Flatten(windows[..last]), values[..cut], Labelled(last, windows[last]), values[cut..], i);
    BucketOfLabelled(last, windows[last], values[cut..], i);
    if i < last {
      BucketLength(windows[..last], values[..cut], i);
    } else {
      BucketOfOthers(windows[..last], values[..cut], i);
    }
  }

  // ---------------------------------------------------------------- OnnxRanker.score

  /** Every value is what `single` gives for the pending window at the same position. */
  ghost predicate ScoredAs(pending: seq<(nat, Window)>, values: seq<real>, single: Window -> Number)
    requires |values| <= |pending|
  {
    forall b | 0 <= b < |values| :: single(pending[b].1) == Finite(values[b])
  }

  ghost predicate BatchFinite(batch: seq<(nat, Window)>, single: Window -> Number) {
    forall b | 0 <= b < |batch| :: single(batch[b].1).Finite?
  }

  /** Pads one batch, runs the session on it and checks what comes back. */
  method RunBatch(batch: seq<(nat, Window)>, session: Session, ghost single: Window -> Number)
    returns (r: Option<seq<real>>)
    requires 0 < |batch| <= BATCH
    ensures r.Some? ==> |r.value| == |batch|
    ensures ScoresRowByRow(session, single) ==>
      if r.Some? then ScoredAs(batch, r.value, single)
      else !BatchFinite(batch, single)
  {
    var values := session(PaddedRows(batch));
    if !OneFiniteColumn(values, |batch|) {
      if ScoresRowByRow(session, single) {
        assert values == seq(|batch|, b requires 0 <= b < |batch| => [single(batch[b].1)]);
        var b :| 0 <= b < |values| && !(|values[b]| == 1 && values[b][0].Finite?);
        assert single(batch[b].1).Unusable?;
      }
      return None;
    }
    var column := seq(|values|, b requires 0 <= b < |values| => values[b][0].value);
    if ScoresRowByRow(session, single) {
      assert values == seq(|batch|, b requires 0 <= b < |batch| => [single(batch[b].1)]);
      forall b | 0 <= b < |batch| ensures single(batch[b].1) == Finite(column[b]) {
        assert values[b] == [single(batch[b].1)];
      }
    }
    r := Some(column);
  }

  /** Appends every value of a batch to the bucket of the chunk it belongs to. */
  method Scatter(scores: seq<seq<real>>, ghost pending: seq<(nat, Window)>, ghost values: seq<real>,
                 batch: seq<(nat, Window)>, column: seq<real>) returns (r: seq<seq<real>>)
    requires |values| == |pending| && |column| == |batch|
    requires forall b | 0 <= b < |batch| :: batch[b].0 < |scores|
    requires forall i | 0 <= i < |scores| :: scores[i] == Bucket(pending, values, i)
    ensures |r| == |scores|
    ensures forall i | 0 <= i < |r| :: r[i] == Bucket(pending + batch, values + column, i)
  {
    r := scores;
    assert pending + batch[..0] == pending && values + column[..0] == values;
    for t := 0 to |batch|
      invariant |r| == |scores|
      invariant forall i | 0 <= i < |r| :: r[i] == Bucket(pending + batch[..t], values + column[..t], i)
    {
      var i := batch[t].0;
      BucketStep(pending + batch[..t], values + column[..t], batch[t], column[t]);
      assert (pending + batch[..t]) + [batch[t]] == pending + batch[..t + 1];
      assert (values + column[..t]) + [column[t]] == values + column[..t + 1];
      r := r[i := r[i] + [column[t]]];
    }
    assert batch[..|batch|] == batch && column[..|batch|] == column;
  }

  lemma BucketStep(p: seq<(nat, Window)>, v: seq<real>, x: (nat, Window), y: real)
    requires |v| == |p|
    ensures forall i: nat :: Bucket(p + [x], v + [y], i) == Bucket(p, v, i) + if x.0 == i then [y] else []
  {
    assert (p + [x])[..|p|] == p && (v + [y])[..|p|] == v;
  }

  /** The tokenizer loop: flattens the windows of all chunks and counts them. */
  method Collect(chunks: seq<Chunk>, tokenizer: Tokenizer)
    returns (r: Result<(seq<(nat, Window)>, seq<nat>), ScoreError>)
    ensures match AllWindows(chunks, tokenizer)
      case Err(e) => r == Err(e)
      case Ok(windows) =>
        && r == Ok((Flatten(windows), Lengths(windows)))
        && |windows| == |chunks|
  {
    var pending: seq<(nat, Window)>, counts: seq<nat> := [], [];
    ghost var all: seq<seq<Window>> := [];
    for i := 0 to |chunks|
      invariant AllWindows(chunks[..i], tokenizer) == Ok(all) && |all| == i
      invariant pending == Flatten(all)
      invariant counts == Lengths(all)
    {
      assert chunks[..i + 1][..i] == chunks[..i];
      match tokenizer(chunks[i].title + "\n" + chunks[i].text) {
        case Err(reason) =>
          ErrorPersists(chunks, i + 1, tokenizer);
          return Err(NoWindows(reason));
        case Ok(windows) =>
          assert (all + [windows])[..i] == all;
          all := all + [windows];
          pending := pending + Labelled(i, windows);
          counts := counts + [|windows|];
      }
    }
    assert chunks[..|chunks|] == chunks;
    r := Ok((pending, counts));
  }

  lemma {:induction false} ErrorPersists(chunks: seq<Chunk>, i: nat, tokenizer: Tokenizer)
    requires i <= |chunks| && AllWindows(chunks[..i], tokenizer).Err?
    ensures AllWindows(chunks, tokenizer) == AllWindows(chunks[..i], tokenizer)
  {
    if i < |chunks| {
      var init := chunks[..|chunks| - 1];
      assert init[..i] == chunks[..i];
      ErrorPersists(init, i, tokenizer);
    } else {
      assert chunks[..i] == chunks;
    }
  }

  /**
   * `OnnxRanker.score`. If the session scores row by row and ignores padding, this computes what
   * the plain per-window loop computes. Whatever the session does, a returned record passes the
   * replay check as long as the tokenizer keeps to its window budget.
   */
  method Score(chunks: seq<Chunk>, tokenizer: Tokenizer, session: Session, ghost single: Window -> Number)
    returns (r: Result<Record, ScoreError>)
    ensures ScoresRowByRow(session, single) ==> r == PerWindow(chunks, tokenizer, single)
    ensures r.Ok? && WithinBudget(chunks, tokenizer) ==> ReplayAccepts(chunks, Save(r.value))
  {
    var problem := ScoresProblem(chunks, seq(|chunks|, _ => Finite(0.0)));
    if problem.Some? {
      return Err(BadSources(problem.value));
    }
    var collected := Collect(chunks, tokenizer);
    if collected.Err? {
      return Err(collected.error);
    }
    var (pending, counts) := collected.value;
    ghost var windows := AllWindows(chunks, tokenizer).value;
    var scattered, scores, values := ScoreBatches(|chunks|, windows, pending, session, single);
    if !scattered {
      return Err(InvalidRelevance);
    }
    assert pending[..|values|] == pending;
    BucketLengths(windows, values);
    if ScoresRowByRow(session, single) {
      AllScored(windows, values, single);
      assert scores == seq(|windows|, i requires 0 <= i < |windows| => Singles(windows[i], single));
    }
    r := Summary(scores, counts);
    SummaryReplays(chunks, windows, scores);
  }

  /** The buckets hold the values scored so far. */
  ghost predicate Filled(scores: seq<seq<real>>, pending: seq<(nat, Window)>, values: seq<real>)
    requires |values| <= |pending|
  {
    forall i | 0 <= i < |scores| :: scores[i] == Bucket(pending[..|values|], values, i)
  }

  /** The loop over batches of at most eight pending windows. */
  method ScoreBatches(n: nat, ghost windows: seq<seq<Window>>, pending: seq<(nat, Window)>,
                      session: Session, ghost single: Window -> Number)
    returns (ok: bool, scores: seq<seq<real>>, ghost values: seq<real>)
    requires |windows| == n && pending == Flatten(windows)
    ensures ok ==> |scores| == n && |values| == |pending| && Filled(scores, pending, values)
    ensures ScoresRowByRow(session, single) ==>
      if ok then ScoredAs(pending, values, single) else !AllFinite(windows, single)
  {
    ok := true;
    scores := seq(n, _ => []);
    values := [];
    var start := 0;
    while start < |pending|
      invariant 0 <= start <= |pending| && |values| == start && |scores| == n
      invariant ok && Filled(scores, pending, values)
      invariant ScoresRowByRow(session, single) ==> ScoredAs(pending, values, single)
    {
      var end := if start + BATCH <= |pending| then start + BATCH else |pending|;
      ok, scores, values := ScoreBatch(n, windows, pending, session, single, scores, values, start, end);
      if !ok {
        return;
      }
      start := end;
    }
  }

  method ScoreBatch(n: nat, ghost windows: seq<seq<Window>>, pending: seq<(nat, Window)>,
                    session: Session, ghost single: Window -> Number,
                    before: seq<seq<real>>, ghost values: seq<real>, start: nat, end: nat)
    returns (ok: bool, scores: seq<seq<real>>, ghost values': seq<real>)
    requires |windows| == n == |before| && pending == Flatten(windows)
    requires start == |values| < end <= |pending| && end - start <= BATCH && Filled(before, pending, values)
    ensures ok ==> |scores| == n && |values'| == end && Filled(scores, pending, values')
    ensures ScoresRowByRow(session, single) ==>
      if ok then ScoredAs(pending, values, single) ==> ScoredAs(pending, values', single)
      else !AllFinite(windows, single)
  {
    var batch := pending[start..end];
    scores, values' := before, values;
    var column := RunBatch(batch, session, single);
    ok := column.Some?;
    if !ok {
      if ScoresRowByRow(session, single) {
        UnusableSomewhere(windows, single, start, end);
      }
      return;
    }
    LabelsInRange(windows, start, end);
    SliceJoin(pending, start, end);
    scores := Scatter(before, pending[..start], values, batch, column.value);
    values' := values + column.value;
    if ScoresRowByRow(session, single) && ScoredAs(pending, values, single) {
      ScoredAsGrows(pending, values, end, column.value, single);
    }
  }

  lemma SliceJoin<T>(s: seq<T>, a: nat, b: nat)
    requires a <= b <= |s|
    ensures s[..a] + s[a..b] == s[..b]
  {
  }

  lemma ScoredAsGrows(pending: seq<(nat, Window)>, values: seq<real>, end: nat, column: seq<real>,
                      single: Window -> Number)
    requires |values| + |column| == end <= |pending| && ScoredAs(pending, values, single)
    requires ScoredAs(pending[|values|..end], column, single)
    ensures ScoredAs(pending, values + column, single)
  {
    forall b | 0 <= b < end ensures single(pending[b].1) == Finite((values + column)[b]) {
      if b >= |values| {
        assert pending[|values|..end][b - |values|] == pending[b];
      }
    }
  }

  lemma LabelsInRange(windows: seq<seq<Window>>, start: nat, end: nat)
    requires start <= end <= |Flatten(windows)|
    ensures forall b | 0 <= b < end - start :: Flatten(windows)[start..end][b].0 < |windows|
  {
    forall b | 0 <= b < end - start ensures Flatten(windows)[start..end][b].0 < |windows| {
      FlattenLabelsOnly(windows, Flatten(windows)[start + b]);
    }
  }

  lemma BucketLengths(windows: seq<seq<Window>>, values: seq<real>)
    requires |values| == |Flatten(windows)|
    ensures forall i | 0 <= i < |windows| :: |Bucket(Flatten(windows), values, i)| == |windows[i]|
  {
    forall i | 0 <= i < |windows| ensures |Bucket(Flatten(windows), values, i)| == |windows[i]| {
      BucketLength(windows, values, i);
    }
  }

  lemma UnusableSomewhere(windows: seq<seq<Window>>, single: Window -> Number, start: nat, end: nat)
    requires start <= end <= |Flatten(windows)| && !BatchFinite(Flatten(windows)[start..end], single)
    ensures !AllFinite(windows, single)
  {
    var x :| x in Flatten(windows)[start..end] && single(x.1).Unusable?;
    FlattenLabelsOnly(windows, x);
    var b :| 0 <= b < |windows[x.0]| && windows[x.0][b] == x.1;
    assert single(windows[x.0][b]).Unusable?;
  }

  lemma AllScored(windows: seq<seq<Window>>, values: seq<real>, single: Window -> Number)
    requires |values| == |Flatten(windows)|
    requires ScoredAs(Flatten(windows), values, single)
    ensures AllFinite(windows, single)
    ensures forall i | 0 <= i < |windows| :: Bucket(Flatten(windows), values, i) == Singles(windows[i], single)
  {
    forall i, b | 0 <= i < |windows| && 0 <= b < |windows[i]| ensures single(windows[i][b]).Finite? {
      FlattenLabels(windows, i, b);
      var t :| 0 <= t < |values| && Flatten(windows)[t] == (i, windows[i][b]);
    }
    assert values == Scores(Flatten(windows), single);
    forall i | 0 <= i < |windows| ensures Bucket(Flatten(windows), values, i) == Singles(windows[i], single) {
      ScatterUndoesFlatten(windows, single, i);
    }
  }

  // ---------------------------------------------------------------- what is scored, written out

  /** The windows of every source: what the tokenizer makes of its title, a newline and its text. */
  ghost predicate Tokenized(chunks: seq<Chunk>, tokenizer: Tokenizer, windows: seq<seq<Window>>) {
    && |windows| == |chunks|
    && forall i | 0 <= i < |chunks| :: tokenizer(chunks[i].title + "\n" + chunks[i].text) == Ok(windows[i])
  }

  /** The first source that the tokenizer refuses. */
  ghost predicate FirstRefused(chunks: seq<Chunk>, tokenizer: Tokenizer, i: nat, reason: string) {
    && i < |chunks|
    && tokenizer(chunks[i].title + "\n" + chunks[i].text) == Err(reason)
    && forall h | 0 <= h < i :: tokenizer(chunks[h].title + "\n" + chunks[h].text).Ok?
  }

  /** The scores, their maxima and their numbers, source by source. */
  ghost predicate Reports(record: Record, windows: seq<seq<Window>>, single: Window -> Number) {
    && |record.scores| == |record.windowScores| == |record.windowCounts| == |windows|
    && forall i | 0 <= i < |windows| :: ReportsSource(record, i, windows[i], single)
  }

  ghost predicate ReportsSource(record: Record, i: nat, windows: seq<Window>, single: Window -> Number)
    requires i < |record.scores| == |record.windowScores| == |record.windowCounts|
  {
    && record.windowCounts[i] == |windows| == |record.windowScores[i]|
    && (forall b | 0 <= b < |windows| :: single(windows[b]) == Finite(record.windowScores[i][b]))
    && record.scores[i] in record.windowScores[i]
    && forall x | x in record.windowScores[i] :: x <= record.scores[i]
  }

  lemma {:induction false} AllWindowsIff(chunks: seq<Chunk>, tokenizer: Tokenizer, windows: seq<seq<Window>>)
    ensures AllWindows(chunks, tokenizer) == Ok(windows) <==> Tokenized(chunks, tokenizer, windows)
  {
    if chunks != [] {
      var init, last := chunks[..|chunks| - 1], chunks[|chunks| - 1];
      if Tokenized(chunks, tokenizer, windows) {
        AllWindowsIff(init, tokenizer, windows[..|init|]);
        assert windows == windows[..|init|] + [windows[|init|]];
      }
      if AllWindows(chunks, tokenizer) == Ok(windows) {
        AllWindowsIff(init, tokenizer, AllWindows(init, tokenizer).value);
      }
    }
  }

  lemma {:induction false} RefusedIff(chunks: seq<Chunk>, tokenizer: Tokenizer, e: ScoreError)
    ensures AllWindows(chunks, tokenizer) == Err(e) <==>
      exists i: nat, reason :: FirstRefused(chunks, tokenizer, i, reason) && e == NoWindows(reason)
  {
    if chunks != [] {
      var init, n := chunks[..|chunks| - 1], |chunks| - 1;
      RefusedIff(init, tokenizer, e);
      forall i: nat, reason | i < n
        ensures FirstRefused(init, tokenizer, i, reason) <==> FirstRefused(chunks, tokenizer, i, reason)
      {
        assert forall h | 0 <= h <= i :: init[h] == chunks[h];
      }
      if AllWindows(init, tokenizer).Ok? {
        AllWindowsIff(init, tokenizer, AllWindows(init, tokenizer).value);
        assert forall h | 0 <= h < n :: init[h] == chunks[h];
        assert forall reason :: FirstRefused(chunks, tokenizer, n, reason) <==>
          tokenizer(chunks[n].title + "\n" + chunks[n].text) == Err(reason);
      } else {
        RefusedIff(init, tokenizer, AllWindows(init, tokenizer).error);
        var first: nat, why :| FirstRefused(init, tokenizer, first, why);
        assert FirstRefused(chunks, tokenizer, first, why);
      }
    }
  }

  lemma NoProblemIff(chunks: seq<Chunk>)
    ensures ScoresProblem(chunks, seq(|chunks|, _ => Finite(0.0))) ==
      if |chunks| > 50 then Some(ScoreCountMismatch)
      else if exists i, j | 0 <= i < j < |chunks| :: chunks[i].id == chunks[j].id then Some(DuplicateSource)
      else None
  {
    IdSetCountsChunks(chunks);
    assert forall i | 0 <= i < |chunks| :: Ids(chunks)[i] == chunks[i].id;
  }

  /**
   * The plain loop, written out: every source is tokenized as its title, a newline and its text, and
   * reported with one score per window and their maximum; or the first thing that went wrong is.
   */
  lemma PerWindowIs(chunks: seq<Chunk>, tokenizer: Tokenizer, single: Window -> Number)
    ensures var r := PerWindow(chunks, tokenizer, single);
      if |chunks| > 50 then r == Err(BadSources(ScoreCountMismatch))
      else if exists i, j | 0 <= i < j < |chunks| :: chunks[i].id == chunks[j].id then
        r == Err(BadSources(DuplicateSource))
      else
        || (exists i: nat, reason :: FirstRefused(chunks, tokenizer, i, reason) && r == Err(NoWindows(reason)))
        || (exists windows :: Tokenized(chunks, tokenizer, windows) && WindowsScored(windows, single, r))
  {
    NoProblemIff(chunks);
    var all := AllWindows(chunks, tokenizer);
    if all.Ok? {
      AllWindowsIff(chunks, tokenizer, all.value);
      if AllFinite(all.value, single) {
        SummaryReports(all.value, single);
      }
      if |chunks| <= 50 && !(exists i, j | 0 <= i < j < |chunks| :: chunks[i].id == chunks[j].id) {
        assert WindowsScored(all.value, single, PerWindow(chunks, tokenizer, single));
      }
    } else {
      RefusedIff(chunks, tokenizer, all.error);
    }
  }

  /** An unusable score is reported before a source without windows is. */
  ghost predicate WindowsScored(windows: seq<seq<Window>>, single: Window -> Number, r: Result<Record, ScoreError>) {
    if exists i, b | 0 <= i < |windows| && 0 <= b < |windows[i]| :: single(windows[i][b]).Unusable? then
      r == Err(InvalidRelevance)
    else if [] in windows then r == Err(EmptyMaximum)
    else r.Ok? && Reports(r.value, windows, single)
  }

  lemma SummaryReports(windows: seq<seq<Window>>, single: Window -> Number)
    requires AllFinite(windows, single)
    ensures var scores := seq(|windows|, i requires 0 <= i < |windows| => Singles(windows[i], single));
      var r := Summary(scores, Lengths(windows));
      if [] in windows then r == Err(EmptyMaximum) else r.Ok? && Reports(r.value, windows, single)
  {
    var scores := seq(|windows|, i requires 0 <= i < |windows| => Singles(windows[i], single));
    assert forall i | 0 <= i < |windows| :: |scores[i]| == |windows[i]|;
    if i :| 0 <= i < |windows| && windows[i] == [] {
      assert scores[i] == [];
    } else {
      assert [] !in windows;
      var r := Summary(scores, Lengths(windows)).value;
      forall i | 0 <= i < |windows| ensures ReportsSource(r, i, windows[i], single) {
        assert r.windowScores[i] == Singles(windows[i], single);
      }
    }
  }

  /** A padded batch: every row is its window followed by zeros up to the longest window of the batch. */
  lemma PaddedRowsAre(batch: seq<(nat, Window)>, b: nat, t: nat)
    requires b < |batch| && t < |PaddedRows(batch)[b].ids|
    requires |batch[b].1.mask| == |batch[b].1.types| == |batch[b].1.ids|
    ensures var row, w := PaddedRows(batch)[b], batch[b].1;
      && |row.ids| == |row.mask| == |row.types|
      && (forall c | 0 <= c < |batch| :: |batch[c].1.ids| <= |row.ids|)
      && (exists c | 0 <= c < |batch| :: |batch[c].1.ids| == |row.ids|)
      && row.ids[t] == (if t < |w.ids| then w.ids[t] else 0)
      && row.mask[t] == (if t < |w.ids| then w.mask[t] else 0)
      && row.types[t] == (if t < |w.ids| then w.types[t] else 0)
  {
    LongestIsAttained(batch);
  }

  lemma {:induction false} LongestIsAttained(batch: seq<(nat, Window)>)
    requires batch != []
    ensures exists c | 0 <= c < |batch| :: |batch[c].1.ids| == Longest(batch)
  {
    if |batch| > 1 {
      LongestIsAttained(batch[..|batch| - 1]);
      var c :| 0 <= c < |batch| - 1 && |batch[..|batch| - 1][c].1.ids| == Longest(batch[..|batch| - 1]);
      assert batch[c] == batch[..|batch| - 1][c];
    }
    assert |batch[|batch| - 1].1.ids| <= Longest(batch);
  }

  // ---------------------------------------------------------------- replay

  ghost predicate WithinBudget(chunks: seq<Chunk>, tokenizer: Tokenizer) {
    var all := AllWindows(chunks, tokenizer);
    all.Ok? ==> forall i | 0 <= i < |all.value| :: 1 <= |all.value[i]| <= MAX_WINDOWS
  }

  /** A record read back from disk: its window scores may be any JSON floats, NaN included. */
  datatype SavedRecord = SavedRecord(
    scores: seq<Number>, windowScores: seq<seq<Json.Float>>, windowCounts: seq<int>)

  function SaveScore(score: real): Number { Finite(score) }
  function SaveFloat(x: real): Json.Float { Json.Finite(x) }
  function SaveFloats(xs: seq<real>): seq<Json.Float> { Map(xs, SaveFloat) }

  /** What a computed record reads back as. */
  function Save(record: Record): SavedRecord {
    SavedRecord(Map(record.scores, SaveScore), Map(record.windowScores, SaveFloats), record.windowCounts)
  }

  /** Python's `>` on floats: false whenever a NaN takes part. */
  predicate Greater(a: Json.Float, b: Json.Float) {
    match (a, b)
    case (Finite(x), Finite(y)) => x > y
    case (PlusInfinity, Finite(_)) => true
    case (PlusInfinity, MinusInfinity) => true
    case (Finite(_), MinusInfinity) => true
    case _ => false
  }

  /** Python's `max`: the first element, replaced by each later one that is greater. */
  function MaxFloat(values: seq<Json.Float>): Json.Float
    requires values != []
  {
    var last := |values| - 1;
    if last == 0 then values[0]
    else
      var m := MaxFloat(values[..last]);
      if Greater(values[last], m) then values[last] else m
  }

  /** The greatest of these floats is m; a NaN goes unnoticed unless it comes first. */
  ghost predicate IsMaximum(values: seq<Json.Float>, m: real) {
    && values != [] && !values[0].NaN? && Json.Finite(m) in values
    && forall v | v in values :: v.NaN? || v.MinusInfinity? || (v.Finite? && v.value <= m)
  }

  lemma {:induction false} MaxFloatIff(values: seq<Json.Float>, m: real)
    requires values != []
    ensures MaxFloat(values) == Json.Finite(m) <==> IsMaximum(values, m)
    ensures MaxFloat(values).NaN? <==> values[0].NaN?
    ensures MaxFloat(values).MinusInfinity? ==> forall v | v in values :: v.NaN? || v.MinusInfinity?
    ensures MaxFloat(values).PlusInfinity? ==> Json.PlusInfinity in values
    ensures MaxFloat(values) in values
  {
    var last := |values| - 1;
    if last > 0 {
      var init := values[..last];
      assert values == init + [values[last]];
      MaxFloatIff(init, m);
      if MaxFloat(init).Finite? {
        MaxFloatIff(init, MaxFloat(init).value);
      }
      if MaxFloat(values).Finite? {
        assert forall v | v in init :: v in values;
      }
    }
  }

  /** The guard of the replay branch; a strict `zip` also rejects lists of different lengths. */
  predicate ReplayAccepts(chunks: seq<Chunk>, saved: SavedRecord) {
    && ScoresProblem(chunks, saved.scores).None?
    && |saved.windowScores| == |chunks|
    && |saved.windowCounts| == |saved.windowScores| == |saved.scores|
    && forall i | 0 <= i < |saved.windowScores| ::
         && 1 <= saved.windowCounts[i] <= MAX_WINDOWS
         && |saved.windowScores[i]| == saved.windowCounts[i]
         && MaxFloat(saved.windowScores[i]) == SaveFloat(saved.scores[i].value)
  }

  /**
   * The guard accepts exactly the records with one to eight window scores per chunk, counted
   * correctly, of which the chunk's score is the maximum.
   */
  lemma ReplayAcceptsIff(chunks: seq<Chunk>, saved: SavedRecord)
    ensures ReplayAccepts(chunks, saved) <==>
      && ScoresProblem(chunks, saved.scores).None?
      && saved.windowCounts == Lengths(saved.windowScores)
      && |saved.windowScores| == |chunks|
      && forall i | 0 <= i < |chunks| ::
           1 <= |saved.windowScores[i]| <= 8 && IsMaximum(saved.windowScores[i], saved.scores[i].value)
  {
    if ScoresProblem(chunks, saved.scores).None? && |saved.windowScores| == |chunks| {
      forall i | 0 <= i < |chunks| && saved.windowScores[i] != []
        ensures MaxFloat(saved.windowScores[i]) == SaveFloat(saved.scores[i].value)
           <==> IsMaximum(saved.windowScores[i], saved.scores[i].value)
      {
        MaxFloatIff(saved.windowScores[i], saved.scores[i].value);
      }
      assert saved.windowCounts == Lengths(saved.windowScores) <==>
        && |saved.windowCounts| == |chunks|
        && forall i | 0 <= i < |chunks| :: saved.windowCounts[i] == |saved.windowScores[i]|;
    }
  }

  /**
   * What the guard leaves open: the window scores of a chunk may be replaced by any others, as many
   * of them, with the same maximum.
   */
  lemma ReplacedWindowsAcceptedIff(chunks: seq<Chunk>, saved: SavedRecord, i: nat, w: seq<Json.Float>)
    requires ReplayAccepts(chunks, saved) && i < |chunks|
    ensures ReplayAccepts(chunks, saved.(windowScores := saved.windowScores[i := w])) <==>
      |w| == |saved.windowScores[i]| && IsMaximum(w, saved.scores[i].value)
  {
    var other := saved.(windowScores := saved.windowScores[i := w]);
    if w != [] {
      MaxFloatIff(w, saved.scores[i].value);
    }
    if |w| == |saved.windowScores[i]| && IsMaximum(w, saved.scores[i].value) {
      assert forall j | 0 <= j < |chunks| && j != i :: other.windowScores[j] == saved.windowScores[j];
    }
    if ReplayAccepts(chunks, other) {
      assert other.windowScores[i] == w;
    }
  }

  /** So a score below the maximum can be altered unnoticed, even to a NaN. */
  lemma LowerScoreIsUnchecked(chunk: Chunk, lower: Json.Float)
    requires lower.NaN? || lower.MinusInfinity? || (lower.Finite? && lower.value <= 1.0)
    ensures ReplayAccepts([chunk], SavedRecord([Finite(1.0)], [[SaveFloat(1.0), lower]], [2]))
  {
    var values := [SaveFloat(1.0), lower];
    assert values[0] in values;
    MaxFloatIff(values, 1.0);
    IdSetCountsChunks([chunk]);
  }

  lemma MaxFloatOfReals(xs: seq<real>)
    requires xs != []
    ensures MaxFloat(SaveFloats(xs)) == SaveFloat(MaxReal(xs))
  {
    var m, values := MaxReal(xs), SaveFloats(xs);
    var i :| 0 <= i < |xs| && xs[i] == m;
    assert values[i] == Json.Finite(m);
    forall v | v in values ensures v.Finite? && v.value <= m {
      var k :| 0 <= k < |values| && values[k] == v;
      assert v == SaveFloat(xs[k]);
    }
    MaxFloatIff(values, m);
  }

  lemma SameProblem(chunks: seq<Chunk>, scores: seq<real>)
    requires |scores| == |chunks|
    ensures ScoresProblem(chunks, Map(scores, SaveScore)) == ScoresProblem(chunks, seq(|chunks|, _ => Finite(0.0)))
  {
  }

  /** A computed record is accepted exactly when it is the summary of its own one to eight windows per chunk. */
  lemma ComputedRecordReplaysIff(chunks: seq<Chunk>, record: Record)
    ensures ReplayAccepts(chunks, Save(record)) <==>
      && ScoresProblem(chunks, seq(|chunks|, _ => Finite(0.0))).None?
      && |record.windowScores| == |chunks|
      && (forall i | 0 <= i < |chunks| :: 1 <= |record.windowScores[i]| <= 8)
      && Summary(record.windowScores, Lengths(record.windowScores)) == Ok(record)
  {
    forall i | 0 <= i < |record.windowScores| && record.windowScores[i] != []
      ensures MaxFloat(SaveFloats(record.windowScores[i])) == SaveFloat(MaxReal(record.windowScores[i]))
    {
      MaxFloatOfReals(record.windowScores[i]);
    }
    if |record.scores| == |chunks| {
      SameProblem(chunks, record.scores);
    }
    if ReplayAccepts(chunks, Save(record)) {
      AcceptedIsSummary(chunks, record);
    }
  }

  lemma AcceptedIsSummary(chunks: seq<Chunk>, record: Record)
    requires ReplayAccepts(chunks, Save(record))
    ensures Summary(record.windowScores, Lengths(record.windowScores)) == Ok(record)
    ensures |record.windowScores| == |chunks| == |record.scores|
    ensures forall i | 0 <= i < |chunks| :: 1 <= |record.windowScores[i]| <= MAX_WINDOWS
  {
    forall i | 0 <= i < |chunks|
      ensures record.windowCounts[i] == |record.windowScores[i]| && 1 <= |record.windowScores[i]| <= MAX_WINDOWS
      ensures MaxReal(record.windowScores[i]) == record.scores[i]
    {
      assert Save(record).windowScores[i] == SaveFloats(record.windowScores[i]);
      MaxFloatOfReals(record.windowScores[i]);
    }
    assert Lengths(record.windowScores) == record.windowCounts;
    var r := Summary(record.windowScores, Lengths(record.windowScores));
    assert r.Ok? && r.value.scores == record.scores;
  }

  lemma SummaryReplays(chunks: seq<Chunk>, windows: seq<seq<Window>>, scores: seq<seq<real>>)
    requires |scores| == |windows| == |chunks| && forall i | 0 <= i < |scores| :: |scores[i]| == |windows[i]|
    requires ScoresProblem(chunks, seq(|chunks|, _ => Finite(0.0))).None?
    ensures (forall i | 0 <= i < |windows| :: 1 <= |windows[i]| <= MAX_WINDOWS) ==>
      var r := Summary(scores, Lengths(windows)); r.Ok? && ReplayAccepts(chunks, Save(r.value))
  {
    if forall i | 0 <= i < |windows| :: 1 <= |windows[i]| <= MAX_WINDOWS {
      var r := Summary(scores, Lengths(windows));
      assert Lengths(scores) == Lengths(windows);
      ComputedRecordReplaysIff(chunks, r.value);
    }
  }
}
