/** What `select_top` and `select_mmr` promise, for any number of sources and any k. */
module RankerLaws {
  import opened Wrappers
  import opened Order
  import opened Ranker

  /** The answer for k is a prefix of the answer for any larger budget. */
  lemma MmrPrefix(p: Pool, k: nat, m: nat)
    requires p.Valid() && k <= m
    ensures Mmr(p, k) == Mmr(p, m)[..Min(k, |p.ids|)]
  {
    GreedyRunsAgree(p, Mmr(p, k), Mmr(p, m));
  }

  /** Each of the min(k, n) distinct picks beats everything left, ids deciding ties. */
  lemma MmrPicksAreBest(p: Pool, k: nat, t: nat, j: nat)
    requires p.Valid() && t < Min(k, |p.ids|) && j < |p.ids| && j !in Mmr(p, k)[..t]
    ensures var r := Mmr(p, k);
      && |Left(|p.ids|, r)| == |p.ids| - |r|
      && r[t] !in r[..t]
      && Objective(p, r[..t], r[t]) >= Objective(p, r[..t], j)
      && (Objective(p, r[..t], r[t]) == Objective(p, r[..t], j) && j != r[t] ==> Less(p.ids[r[t]], p.ids[j]))
  {
    var r := Mmr(p, k);
    GreedyRunDistinct(p, r);
    LeftCount(|p.ids|, r);
    PickIsAhead(p, r, t, j);
  }

  lemma PickIsAhead(p: Pool, r: seq<nat>, t: nat, j: nat)
    requires p.Valid() && IsGreedyRun(p, r) && t < |r| && j < |p.ids| && j !in r[..t]
    ensures r[t] !in r[..t]
    ensures j != r[t] ==> Ahead(p.ids, Objectives(p, r[..t]), r[t], j)
  {
    assert IsNext(p.ids, Objectives(p, r[..t]), r[..t], r[t]);
  }

  // ---------------------------------------------------------------- the answers, written out

  /** The greatest of these entries of a row, or 0 when nothing has been picked yet. */
  ghost predicate GreatestOf(m: real, row: seq<real>, picks: seq<nat>)
    requires InRange(picks, |row|)
  {
    if picks == [] then m == 0.0
    else (exists a | 0 <= a < |picks| :: row[picks[a]] == m) && forall a | 0 <= a < |picks| :: row[picks[a]] <= m
  }

  /**
   * The t-th pick is a source whose weighted relevance less its weighted greatest similarity to the
   * earlier picks nothing left exceeds; the smaller id decides ties.
   */
  lemma PicksMaximise(p: Pool, k: nat, r: seq<nat>, t: nat, j: nat, m: real, m': real)
    requires p.Valid() && r == Mmr(p, k) && t < |r| && j < |p.ids| && j !in r[..t]
    requires GreatestOf(m, p.sim[r[t]], r[..t]) && GreatestOf(m', p.sim[j], r[..t])
    ensures Worth(p, r[t], m) >= Worth(p, j, m')
    ensures Worth(p, r[t], m) == Worth(p, j, m') && j != r[t] ==> Less(p.ids[r[t]], p.ids[j])
  {
    WorthIs(p, r[..t], r[t], m);
    WorthIs(p, r[..t], j, m');
    PickBeats(p, r, t, j);
  }

  /** The weighted relevance of a source less its weighted similarity m to the earlier picks. */
  ghost function Worth(p: Pool, i: nat, m: real): real
    requires i < |p.relevance|
  {
    p.weight * p.relevance[i] - (1.0 - p.weight) * m
  }

  lemma WorthIs(p: Pool, picks: seq<nat>, i: nat, m: real)
    requires p.Valid() && InRange(picks, |p.ids|) && i < |p.ids| && GreatestOf(m, p.sim[i], picks)
    ensures Objective(p, picks, i) == Worth(p, i, m)
  {
    RedundancyIsGreatest(p.sim[i], picks, m);
  }

  lemma PickBeats(p: Pool, r: seq<nat>, t: nat, j: nat)
    requires p.Valid() && IsGreedyRun(p, r) && t < |r| && j < |p.ids| && j !in r[..t]
    ensures var won, other := Objective(p, r[..t], r[t]), Objective(p, r[..t], j);
      won >= other && (won == other && j != r[t] ==> Less(p.ids[r[t]], p.ids[j]))
  {
    PickIsAhead(p, r, t, j);
  }

  lemma RedundancyIsGreatest(row: seq<real>, picks: seq<nat>, m: real)
    requires InRange(picks, |row|)
    ensures GreatestOf(m, row, picks) <==> m == Redundancy(row, picks)
  {
  }

  ghost predicate RepeatsId(chunks: seq<Chunk>) {
    exists i, j | 0 <= i < j < |chunks| :: chunks[i].id == chunks[j].id
  }

  /** What `validate_scores` objects to, first objection first. */
  lemma ScoresProblemIs(chunks: seq<Chunk>, scores: seq<Number>)
    ensures ScoresProblem(chunks, scores) ==
      if |chunks| != |scores| || |chunks| > 50 then Some(ScoreCountMismatch)
      else if RepeatsId(chunks) then Some(DuplicateSource)
      else if Unusable in scores then Some(ScoreNotFinite)
      else None
  {
    IdSetCountsChunks(chunks);
    assert Distinct(Ids(chunks)) <==> !RepeatsId(chunks) by {
      assert forall i | 0 <= i < |chunks| :: Ids(chunks)[i] == chunks[i].id;
    }
  }

  /** No source that is left has a higher score, nor the same score and a smaller id. */
  ghost predicate BestLeft(chunks: seq<Chunk>, scores: seq<Number>, taken: seq<nat>, w: nat)
    requires |chunks| == |scores| && Unusable !in scores && w < |chunks|
  {
    forall j: nat | j < |chunks| && j !in taken && j != w ::
      && scores[w].value >= scores[j].value
      && (scores[w].value == scores[j].value ==> Less(chunks[w].id, chunks[j].id))
  }

  /** `select_top`: the objections, or the k best scores in order, ids deciding ties. */
  lemma SelectTopIs(chunks: seq<Chunk>, scores: seq<Number>, k: int)
    ensures match SelectTop(chunks, scores, k)
      case Err(e) => Some(e) ==
        if |chunks| != |scores| || |chunks| > 50 then Some(ScoreCountMismatch)
        else if RepeatsId(chunks) then Some(DuplicateSource)
        else if Unusable in scores then Some(ScoreNotFinite)
        else if k < 1 || k > 5 then Some(TopKOutOfRange)
        else None
      case Ok(r) =>
        && |chunks| == |scores| <= 50 && !RepeatsId(chunks) && Unusable !in scores && 1 <= k <= 5
        && |r| == (if k < |chunks| then k else |chunks|) && InRange(r, |chunks|)
        && forall t | 0 <= t < |r| :: r[t] !in r[..t] && BestLeft(chunks, scores, r[..t], r[t])
  {
    ScoresProblemIs(chunks, scores);
    if SelectTop(chunks, scores, k).Ok? {
      IdSetCountsChunks(chunks);
      var ids, values, r := Ids(chunks), Values(scores), SelectTop(chunks, scores, k).value;
      TopIsTopRun(ids, values, k);
      forall t | 0 <= t < |r| ensures r[t] < |chunks| && r[t] !in r[..t] && BestLeft(chunks, scores, r[..t], r[t]) {
        assert IsNext(ids, values, r[..t], r[t]);
        forall j: nat | j < |chunks| && j !in r[..t] && j != r[t] ensures Ahead(ids, values, r[t], j) {
        }
      }
    }
  }

  /** The objections of `select_mmr`, first objection first. */
  lemma MmrProblemIs(chunks: seq<Chunk>, scores: seq<Number>, sims: seq<seq<Number>>, k: int, weight: real)
    ensures MmrProblem(chunks, scores, sims, k, weight) ==
      if |chunks| != |scores| || |chunks| > 50 then Some(ScoreCountMismatch)
      else if RepeatsId(chunks) then Some(DuplicateSource)
      else if Unusable in scores then Some(ScoreNotFinite)
      else if k < 1 || k > 5 || weight < 0.0 || weight > 1.0 then Some(InvalidMmrParameters)
      else if |sims| != |chunks| || (exists row | row in sims :: |row| != |chunks|) then Some(SimilarityShapeMismatch)
      else if exists row, v | row in sims && v in row :: v.Unusable? || v.value < -0.000001 || v.value > 1.000001
      then Some(InvalidSimilarities)
      else None
  {
    ScoresProblemIs(chunks, scores);
    assert (exists row | row in sims :: |row| != |chunks|) <==> exists i | 0 <= i < |sims| :: |sims[i]| != |chunks|;
    if row, v :| row in sims && v in row && (v.Unusable? || v.value < -0.000001 || v.value > 1.000001) {
      var i :| 0 <= i < |sims| && sims[i] == row;
      var j :| 0 <= j < |row| && row[j] == v;
      assert !Cosine(sims[i][j]);
    }
    if i, j :| 0 <= i < |sims| && 0 <= j < |sims[i]| && !Cosine(sims[i][j]) {
      assert sims[i] in sims && sims[i][j] in sims[i];
    }
  }

  /** What the loop reads is the input itself, the scores clamped to +-700 and put through the sigmoid. */
  lemma PoolIs(chunks: seq<Chunk>, scores: seq<Number>, sims: seq<seq<Number>>, k: int, weight: real,
               sigmoid: real -> real, i: nat, j: nat)
    requires MmrProblem(chunks, scores, sims, k, weight).None? && i < |chunks| && j < |chunks|
    ensures var p := PoolOf(chunks, scores, sims, k, weight, sigmoid); var s := scores[i].value;
      && p.weight == weight && p.ids[i] == chunks[i].id
      && p.sim[i][j] == sims[i][j].value
      && p.relevance[i] == sigmoid(if s > 700.0 then 700.0 else if s < -700.0 then -700.0 else s)
  {
    var s := scores[i].value;
    assert Clamp(s) == if s > 700.0 then 700.0 else if s < -700.0 then -700.0 else s;
  }

  // ---------------------------------------------------------------- order of presentation

  ghost predicate IsPermutation(pi: seq<nat>, n: nat) {
    |pi| == n && InRange(pi, n) && forall a, b | 0 <= a < b < n :: pi[a] != pi[b]
  }

  /** Element t of the result is element pi[t] of the argument. */
  function Reorder<T>(s: seq<T>, pi: seq<nat>): (r: seq<T>)
    requires InRange(pi, |s|)
    ensures |r| == |pi| && forall t | 0 <= t < |pi| :: r[t] == s[pi[t]]
  {
    seq(|pi|, t requires 0 <= t < |pi| => s[pi[t]])
  }

  function ReorderBoth<T>(m: seq<seq<T>>, pi: seq<nat>): (r: seq<seq<T>>)
    requires InRange(pi, |m|) && forall i | 0 <= i < |m| :: |m[i]| == |m|
    ensures |r| == |pi| && forall t | 0 <= t < |pi| :: r[t] == Reorder(m[pi[t]], pi)
  {
    seq(|pi|, t requires 0 <= t < |pi| => Reorder(m[pi[t]], pi))
  }

  lemma PermutationIsOnto(pi: seq<nat>, n: nat, j: nat)
    requires IsPermutation(pi, n) && j < n
    ensures exists i :: 0 <= i < n && pi[i] == j
  {
    LeftCount(n, pi);
    assert j !in Left(n, pi);
  }

  ghost function ReorderPool(p: Pool, pi: seq<nat>): (q: Pool)
    requires p.Valid() && IsPermutation(pi, |p.ids|)
    ensures q.Valid()
  {
    var q := Pool(Reorder(p.ids, pi), Reorder(p.relevance, pi), ReorderBoth(p.sim, pi), p.weight);
    assert Distinct(q.ids) by {
      forall a, b | 0 <= a < b < |pi| ensures q.ids[a] != q.ids[b] {
        assert pi[a] != pi[b];
      }
    }
    q
  }

  lemma RedundancyReorder(row: seq<real>, pi: seq<nat>, s: seq<nat>)
    requires InRange(pi, |row|) && InRange(s, |pi|)
    ensures Redundancy(Reorder(row, pi), s) == Redundancy(row, Reorder(pi, s))
  {
    var m, u := Redundancy(row, Reorder(pi, s)), Reorder(pi, s);
    RedundancyIsGreatest(row, u, m);
    assert forall a | 0 <= a < |s| :: Reorder(row, pi)[s[a]] == row[u[a]];
    assert GreatestOf(m, Reorder(row, pi), s);
    RedundancyIsGreatest(Reorder(row, pi), s, m);
  }

  lemma ObjectiveReorder(p: Pool, pi: seq<nat>, s: seq<nat>, i: nat)
    requires p.Valid() && IsPermutation(pi, |p.ids|) && InRange(s, |p.ids|) && i < |p.ids|
    ensures Objective(ReorderPool(p, pi), s, i) == Objective(p, Reorder(pi, s), pi[i])
  {
    RedundancyReorder(p.sim[pi[i]], pi, s);
    var q := ReorderPool(p, pi);
    assert q.sim[i] == Reorder(p.sim[pi[i]], pi) && q.relevance[i] == p.relevance[pi[i]];
  }

  lemma NextReorder(p: Pool, pi: seq<nat>, s: seq<nat>, w: nat)
    requires p.Valid() && IsPermutation(pi, |p.ids|) && InRange(s, |p.ids|)
    requires var q := ReorderPool(p, pi); IsNext(q.ids, Objectives(q, s), s, w)
    ensures IsNext(p.ids, Objectives(p, Reorder(pi, s)), Reorder(pi, s), pi[w])
  {
    var u := Reorder(pi, s);
    forall t | 0 <= t < |u| ensures u[t] != pi[w] {
      assert s[t] in s;
    }
    forall j: nat | j < |p.ids| && j !in u && j != pi[w] ensures Ahead(p.ids, Objectives(p, u), pi[w], j) {
      PermutationIsOnto(pi, |p.ids|, j);
      var i :| 0 <= i < |p.ids| && pi[i] == j;
      assert forall t | 0 <= t < |s| :: u[t] == pi[s[t]] && u[t] in u;
      assert i !in s;
      AheadReorder(p, pi, s, w, i);
    }
  }

  lemma AheadReorder(p: Pool, pi: seq<nat>, s: seq<nat>, w: nat, i: nat)
    requires p.Valid() && IsPermutation(pi, |p.ids|) && InRange(s, |p.ids|) && w < |p.ids| && i < |p.ids|
    ensures var q := ReorderPool(p, pi);
      Ahead(q.ids, Objectives(q, s), w, i) <==> Ahead(p.ids, Objectives(p, Reorder(pi, s)), pi[w], pi[i])
  {
    ObjectiveReorder(p, pi, s, w);
    ObjectiveReorder(p, pi, s, i);
  }

  /** Permuting the sources along with both axes of the matrix permutes the answer, nothing else. */
  lemma MmrReorder(p: Pool, pi: seq<nat>, k: nat)
    requires p.Valid() && IsPermutation(pi, |p.ids|)
    ensures Mmr(p, k) == Reorder(pi, Mmr(ReorderPool(p, pi), k))
  {
    var q := ReorderPool(p, pi);
    var s := Mmr(q, k);
    var r := Reorder(pi, s);
    forall t | 0 <= t < |r| ensures IsNext(p.ids, Objectives(p, r[..t]), r[..t], r[t]) {
      NextReorder(p, pi, s[..t], s[t]);
      assert Reorder(pi, s[..t]) == r[..t];
    }
    GreedyRunsAgree(p, r, Mmr(p, k));
  }

  /** The chosen identities, in order of selection. */
  function Chosen(chunks: seq<Chunk>, indices: seq<nat>): seq<string>
    requires InRange(indices, |chunks|)
  {
    Reorder(Ids(chunks), indices)
  }

  lemma ScoresProblemReorder(chunks: seq<Chunk>, scores: seq<Number>, pi: seq<nat>)
    requires |scores| == |chunks| && IsPermutation(pi, |chunks|)
    ensures ScoresProblem(Reorder(chunks, pi), Reorder(scores, pi)) == ScoresProblem(chunks, scores)
  {
    var n := |chunks|;
    var chunks', scores' := Reorder(chunks, pi), Reorder(scores, pi);
    forall c | c in chunks ensures c in chunks' {
      var i :| 0 <= i < n && chunks[i] == c;
      PermutationIsOnto(pi, n, i);
      var t :| 0 <= t < n && pi[t] == i;
      assert chunks'[t] == c;
    }
    assert (set c | c in chunks' :: c.id) == (set c | c in chunks :: c.id);
    if i :| 0 <= i < n && scores[i].Unusable? {
      PermutationIsOnto(pi, n, i);
      var t :| 0 <= t < n && pi[t] == i;
      assert scores'[t].Unusable?;
    }
  }

  lemma CosinesReorder(sims: seq<seq<Number>>, pi: seq<nat>)
    requires (forall i | 0 <= i < |sims| :: |sims[i]| == |sims|) && IsPermutation(pi, |sims|)
    ensures var sims' := ReorderBoth(sims, pi);
      (exists i, j | 0 <= i < |sims| && 0 <= j < |sims[i]| :: !Cosine(sims[i][j]))
      <==> (exists i, j | 0 <= i < |sims'| && 0 <= j < |sims'[i]| :: !Cosine(sims'[i][j]))
  {
    var n, sims' := |sims|, ReorderBoth(sims, pi);
    if i, j :| 0 <= i < n && 0 <= j < n && !Cosine(sims[i][j]) {
      PermutationIsOnto(pi, n, i);
      PermutationIsOnto(pi, n, j);
      var t :| 0 <= t < n && pi[t] == i;
      var u :| 0 <= u < n && pi[u] == j;
      assert !Cosine(sims'[t][u]);
    }
    if t, u :| 0 <= t < n && 0 <= u < n && !Cosine(sims'[t][u]) {
      assert !Cosine(sims[pi[t]][pi[u]]);
    }
  }

  lemma ProblemsReorder(chunks: seq<Chunk>, scores: seq<Number>, sims: seq<seq<Number>>,
                        k: int, weight: real, pi: seq<nat>)
    requires |scores| == |sims| == |chunks| && forall i | 0 <= i < |sims| :: |sims[i]| == |sims|
    requires IsPermutation(pi, |chunks|)
    ensures MmrProblem(Reorder(chunks, pi), Reorder(scores, pi), ReorderBoth(sims, pi), k, weight)
         == MmrProblem(chunks, scores, sims, k, weight)
  {
    ScoresProblemReorder(chunks, scores, pi);
    CosinesReorder(sims, pi);
  }

  /**
   * Presenting the same sources in another order leads to the same error, or to the same
   * identities in the same selection order.
   */
  lemma SelectMmrIgnoresInputOrder(chunks: seq<Chunk>, scores: seq<Number>, sims: seq<seq<Number>>,
                                   k: int, weight: real, sigmoid: real -> real, pi: seq<nat>)
    requires |scores| == |sims| == |chunks| && forall i | 0 <= i < |sims| :: |sims[i]| == |sims|
    requires IsPermutation(pi, |chunks|)
    ensures var (chunks', scores', sims') := (Reorder(chunks, pi), Reorder(scores, pi), ReorderBoth(sims, pi));
      && MmrProblem(chunks', scores', sims', k, weight) == MmrProblem(chunks, scores, sims, k, weight)
      && (MmrProblem(chunks, scores, sims, k, weight).None? ==>
            (Chosen(chunks', Mmr(PoolOf(chunks', scores', sims', k, weight, sigmoid), k))
               == Chosen(chunks, Mmr(PoolOf(chunks, scores, sims, k, weight, sigmoid), k))))
  {
    ProblemsReorder(chunks, scores, sims, k, weight, pi);
    if MmrProblem(chunks, scores, sims, k, weight).None? {
      var p := PoolOf(chunks, scores, sims, k, weight, sigmoid);
      var q := PoolOf(Reorder(chunks, pi), Reorder(scores, pi), ReorderBoth(sims, pi), k, weight, sigmoid);
      assert q.ids == Reorder(p.ids, pi);
      assert q.relevance == Reorder(p.relevance, pi);
      assert q.sim == ReorderBoth(p.sim, pi) by {
        forall t | 0 <= t < |pi| ensures q.sim[t] == Reorder(p.sim[pi[t]], pi) {}
      }
      MmrReorder(p, pi, k);
    }
  }

  /** The same for `select_top`. */
  lemma SelectTopIgnoresInputOrder(chunks: seq<Chunk>, scores: seq<Number>, k: int, pi: seq<nat>)
    requires |scores| == |chunks| && IsPermutation(pi, |chunks|)
    ensures var (a, b) := (SelectTop(chunks, scores, k), SelectTop(Reorder(chunks, pi), Reorder(scores, pi), k));
      && (a.Err? ==> b == a)
      && (a.Ok? ==> b.Ok? && InRange(a.value, |chunks|) && InRange(b.value, |chunks|))
      && (a.Ok? ==> Chosen(Reorder(chunks, pi), b.value) == Chosen(chunks, a.value))
  {
    var n := |chunks|;
    ScoresProblemReorder(chunks, scores, pi);
    if SelectTop(chunks, scores, k).Ok? {
      IdSetCountsChunks(chunks);
      var rows := seq(n, i => seq(n, j => 0.0));
      var p := Pool(Ids(chunks), Values(scores), rows, 1.0);
      var q := ReorderPool(p, pi);
      assert q.ids == Ids(Reorder(chunks, pi)) && q.relevance == Values(Reorder(scores, pi));
      TopIsMmrAtWeightOne(p, k);
      TopIsMmrAtWeightOne(q, k);
      MmrReorder(p, pi, k);
    }
  }

  // ---------------------------------------------------------------- weight one

  lemma TopIsMmrAtWeightOne(p: Pool, k: nat)
    requires p.Valid() && p.weight == 1.0
    ensures Top(p.ids, p.relevance, k) == Mmr(p, k)
  {
    var r := Top(p.ids, p.relevance, k);
    TopIsTopRun(p.ids, p.relevance, k);
    forall t | 0 <= t < |r| ensures IsNext(p.ids, Objectives(p, r[..t]), r[..t], r[t]) {
      assert IsNext(p.ids, p.relevance, r[..t], r[t]);
      assert Objectives(p, r[..t]) == p.relevance;
    }
    GreedyRunsAgree(p, r, Mmr(p, k));
  }

  /** Every answer keeps its lead under another list of values. */
  ghost predicate KeepsLead(ids: seq<string>, scores: seq<real>, relevance: seq<real>, r: seq<nat>)
    requires |ids| == |scores| == |relevance| && InRange(r, |ids|)
  {
    forall t, j: nat | 0 <= t < |r| && j < |ids| && Ahead(ids, scores, r[t], j) :: Ahead(ids, relevance, r[t], j)
  }

  /** Two lists of values select the same, whatever they are, exactly when no answer loses its lead. */
  lemma SameTopIff(ids: seq<string>, scores: seq<real>, relevance: seq<real>, k: nat)
    requires |ids| == |scores| == |relevance| && Distinct(ids)
    ensures Top(ids, relevance, k) == Top(ids, scores, k) <==> KeepsLead(ids, scores, relevance, Top(ids, scores, k))
  {
    var r := Top(ids, scores, k);
    TopIsTopRun(ids, scores, k);
    TopIsTopRun(ids, relevance, k);
    if Top(ids, relevance, k) == r {
      forall t, j: nat | 0 <= t < |r| && j < |ids| && Ahead(ids, scores, r[t], j)
        ensures Ahead(ids, relevance, r[t], j)
      {
        LaterIsLower(ids, scores, r, t, j);
        assert IsNext(ids, relevance, r[..t], r[t]);
      }
    }
    if KeepsLead(ids, scores, relevance, r) {
      forall t | 0 <= t < |r| ensures IsNext(ids, relevance, r[..t], r[t]) {
        assert IsNext(ids, scores, r[..t], r[t]);
      }
      TopRunsAgree(ids, relevance, r, Top(ids, relevance, k));
    }
  }

  lemma {:induction false} TopRunsAgree(ids: seq<string>, values: seq<real>, r: seq<nat>, s: seq<nat>)
    requires |ids| == |values| && Distinct(ids) && |r| <= |s|
    requires IsTopRun(ids, values, r) && IsTopRun(ids, values, s)
    ensures r == s[..|r|]
  {
    if r != [] {
      var last := |r| - 1;
      assert forall t | 0 <= t < last :: r[..last][..t] == r[..t] && r[..last][t] == r[t];
      TopRunsAgree(ids, values, r[..last], s);
      NextUnique(ids, values, r[..last], r[last], s[last]);
      assert r == r[..last] + [r[last]];
    }
  }

  lemma LaterIsLower(ids: seq<string>, scores: seq<real>, r: seq<nat>, t: nat, j: nat)
    requires |ids| == |scores| && Distinct(ids) && IsTopRun(ids, scores, r)
    requires t < |r| && j < |ids| && r[t] < |ids| && Ahead(ids, scores, r[t], j)
    ensures j !in r[..t] && j != r[t]
  {
    AheadIsStrictOrder(ids, scores, r[t], j, j);
    assert IsNext(ids, scores, r[..t], r[t]);
    forall a | 0 <= a < t ensures r[a] != j {
      assert IsNext(ids, scores, r[..a], r[a]);
      assert r[..a] == r[..t][..a] && r[t] != r[..t][a];
      assert Ahead(ids, scores, r[a], r[t]);
    }
  }

  /** A relevance that never contradicts the scores, though it may merge some of them. */
  ghost predicate Follows(relevance: seq<real>, scores: seq<real>)
    requires |relevance| == |scores|
  {
    forall i, j | 0 <= i < |scores| && 0 <= j < |scores| && scores[i] >= scores[j] :: relevance[i] >= relevance[j]
  }

  /** Where the relevance merges a score of the answer with a lower one, the ids agree with the scores. */
  ghost predicate MergesHarmless(ids: seq<string>, scores: seq<real>, relevance: seq<real>, r: seq<nat>)
    requires |ids| == |scores| == |relevance| && InRange(r, |ids|)
  {
    forall t, j: nat | 0 <= t < |r| && j < |ids| && scores[r[t]] > scores[j] && relevance[r[t]] == relevance[j]
      :: Less(ids[r[t]], ids[j])
  }

  /**
   * At weight 1 the greedy loop answers exactly like `select_top` if and only if every answer keeps
   * its lead under the relevance. When the relevance never contradicts the scores, that means that
   * no top-k score shares its relevance with a lower score of smaller id, for whatever reason they
   * are merged: the clamp, or a sigmoid that is flat between them.
   */
  lemma WeightOneIsTopIff(ids: seq<string>, scores: seq<real>, relevance: seq<real>, sim: seq<seq<real>>, k: nat)
    requires Pool(ids, relevance, sim, 1.0).Valid() && |scores| == |relevance|
    ensures var (same, r) := (Mmr(Pool(ids, relevance, sim, 1.0), k) == Top(ids, scores, k), Top(ids, scores, k));
      && (same <==> KeepsLead(ids, scores, relevance, r))
      && (Follows(relevance, scores) ==> (same <==> MergesHarmless(ids, scores, relevance, r)))
  {
    TopIsMmrAtWeightOne(Pool(ids, relevance, sim, 1.0), k);
    SameTopIff(ids, scores, relevance, k);
    if Follows(relevance, scores) {
      OnlyMergesLoseLeads(ids, scores, relevance, Top(ids, scores, k));
    }
  }

  lemma OnlyMergesLoseLeads(ids: seq<string>, scores: seq<real>, relevance: seq<real>, r: seq<nat>)
    requires |ids| == |scores| == |relevance| && InRange(r, |ids|) && Follows(relevance, scores)
    ensures KeepsLead(ids, scores, relevance, r) <==> MergesHarmless(ids, scores, relevance, r)
  {
    forall t, j: nat | 0 <= t < |r| && j < |ids|
      ensures (Ahead(ids, scores, r[t], j) ==> Ahead(ids, relevance, r[t], j)) <==>
        (scores[r[t]] > scores[j] && relevance[r[t]] == relevance[j] ==> Less(ids[r[t]], ids[j]))
    {
      assert scores[r[t]] >= scores[j] ==> relevance[r[t]] >= relevance[j];
      assert scores[j] >= scores[r[t]] ==> relevance[j] >= relevance[r[t]];
    }
  }

  ghost predicate NonDecreasing(f: real -> real) {
    forall x: real, y: real | x <= y :: f(x) <= f(y)
  }

  /** Clamping and then applying any non-decreasing sigmoid follows the scores. */
  lemma RelevanceFollows(scores: seq<real>, sigmoid: real -> real)
    requires NonDecreasing(sigmoid)
    ensures Follows(Relevance(scores, sigmoid), scores)
  {
    var relevance := Relevance(scores, sigmoid);
    forall i, j | 0 <= i < |scores| && 0 <= j < |scores| && scores[i] >= scores[j]
      ensures relevance[i] >= relevance[j]
    {
      assert Clamp(scores[j]) <= Clamp(scores[i]);
    }
  }

  /** In particular they agree, ties included, when the transform is strict on the supplied scores. */
  lemma WeightOneIsTopWhenStrict(ids: seq<string>, scores: seq<real>, sim: seq<seq<real>>, k: nat,
                                 sigmoid: real -> real)
    requires Pool(ids, Relevance(scores, sigmoid), sim, 1.0).Valid()
    requires forall i, j | 0 <= i < |scores| && 0 <= j < |scores| && scores[i] > scores[j] ::
      sigmoid(Clamp(scores[i])) > sigmoid(Clamp(scores[j]))
    ensures Mmr(Pool(ids, Relevance(scores, sigmoid), sim, 1.0), k) == Top(ids, scores, k)
  {
    var relevance := Relevance(scores, sigmoid);
    forall i, j | 0 <= i < |scores| && 0 <= j < |scores| && scores[i] >= scores[j]
      ensures relevance[i] >= relevance[j]
    {
      assert scores[i] > scores[j] || scores[i] == scores[j];
    }
    WeightOneIsTopIff(ids, scores, relevance, sim, k);
  }

  /** Whenever two scores are merged, some ids make the two selections differ: the smaller id wins. */
  lemma MergedScoresReorderTop(high: real, low: real, sigmoid: real -> real)
    requires high > low && sigmoid(Clamp(high)) == sigmoid(Clamp(low))
    ensures var (ids, scores, sim) := (["b", "a"], [high, low], [[1.0, 0.0], [0.0, 1.0]]);
      var p := Pool(ids, Relevance(scores, sigmoid), sim, 1.0);
      p.Valid() && Top(ids, scores, 1) == [0] && Mmr(p, 1) == [1]
  {
    var ids, scores, sim := ["b", "a"], [high, low], [[1.0, 0.0], [0.0, 1.0]];
    var p := Pool(ids, Relevance(scores, sigmoid), sim, 1.0);
    assert ids[0] != ids[1];
    TopOfTwo(ids, scores, 0, 1);
    TopOfTwo(ids, p.relevance, 1, 0);
    TopIsMmrAtWeightOne(p, 1);
  }

  lemma TopOfTwo(ids: seq<string>, values: seq<real>, w: nat, other: nat)
    requires |ids| == |values| == 2 && Distinct(ids) && w < 2 && other == 1 - w && Ahead(ids, values, w, other)
    ensures Top(ids, values, 1) == [w]
  {
    var r := Top(ids, values, 1);
    TopIsTopRun(ids, values, 1);
    assert r[..0] == [];
    assert IsNext(ids, values, [], w);
    NextUnique(ids, values, [], w, r[0]);
  }

  /** The clamp alone merges 702 and 701, whatever the sigmoid. */
  lemma SaturationReordersTop(sigmoid: real -> real)
    ensures var (ids, scores, sim) := (["b", "a"], [702.0, 701.0], [[1.0, 0.0], [0.0, 1.0]]);
      var p := Pool(ids, Relevance(scores, sigmoid), sim, 1.0);
      p.Valid() && Top(ids, scores, 1) == [0] && Mmr(p, 1) == [1]
  {
    MergedScoresReorderTop(702.0, 701.0, sigmoid);
  }

  // ---------------------------------------------------------------- winning values

  /** The objective value with which pick t wins. */
  ghost function WinningValue(p: Pool, r: seq<nat>, t: nat): real
    requires p.Valid() && IsGreedyRun(p, r) && t < |r|
  {
    Objective(p, r[..t], r[t])
  }

  lemma WinnerBeatsLaterPick(p: Pool, r: seq<nat>, t: nat)
    requires p.Valid() && IsGreedyRun(p, r) && t + 1 < |r|
    ensures Objective(p, r[..t], r[t + 1]) <= WinningValue(p, r, t)
  {
    assert IsNext(p.ids, Objectives(p, r[..t]), r[..t], r[t]);
    assert IsNext(p.ids, Objectives(p, r[..t + 1]), r[..t + 1], r[t + 1]);
    assert r[..t + 1] == r[..t] + [r[t]];
    assert Ahead(p.ids, Objectives(p, r[..t]), r[t], r[t + 1]);
  }

  lemma PenaltyIsMonotone(weight: real, x: real, y: real)
    requires weight <= 1.0 && x <= y
    ensures (1.0 - weight) * x <= (1.0 - weight) * y
  {
  }

  /** Redundancy is a maximum over the picks so far, so one more pick cannot lower it. */
  lemma ObjectiveDrops(p: Pool, taken: seq<nat>, x: nat, i: nat)
    requires p.Valid() && InRange(taken, |p.ids|) && x < |p.ids| && i < |p.ids| && taken != [] && p.weight <= 1.0
    ensures Objective(p, taken + [x], i) <= Objective(p, taken, i)
  {
    var row := p.sim[i];
    assert (taken + [x])[..|taken|] == taken;
    PenaltyIsMonotone(p.weight, Peak(row, taken), Peak(row, taken + [x]));
  }

  lemma WinningValueStep(p: Pool, r: seq<nat>, t: nat)
    requires p.Valid() && IsGreedyRun(p, r) && p.weight <= 1.0 && 1 <= t && t + 1 < |r|
    ensures WinningValue(p, r, t + 1) <= WinningValue(p, r, t)
  {
    WinnerBeatsLaterPick(p, r, t);
    ObjectiveDrops(p, r[..t], r[t], r[t + 1]);
    assert r[..t] + [r[t]] == r[..t + 1];
  }

  lemma {:induction false} StepsAddUp(v: seq<real>, s: nat, t: nat)
    requires 1 <= s <= t < |v| && forall i | 1 <= i < |v| - 1 :: v[i + 1] <= v[i]
    ensures v[t] <= v[s]
  {
    if s < t {
      StepsAddUp(v, s, t - 1);
      assert v[t - 1 + 1] <= v[t - 1];
    }
  }

  /** From the second pick on, later winners never score higher than earlier ones. */
  lemma WinningValuesNeverIncrease(p: Pool, r: seq<nat>, s: nat, t: nat)
    requires p.Valid() && IsGreedyRun(p, r) && p.weight <= 1.0 && 1 <= s <= t < |r|
    ensures WinningValue(p, r, t) <= WinningValue(p, r, s)
  {
    var v := seq(|r|, i requires 0 <= i < |r| => WinningValue(p, r, i));
    forall i | 1 <= i < |v| - 1 ensures v[i + 1] <= v[i] {
      WinningValueStep(p, r, i);
    }
    StepsAddUp(v, s, t);
  }

  /** The step out of the empty selection can only gain what a negative similarity gives back. */
  lemma SecondPickGain(p: Pool, r: seq<nat>)
    requires p.Valid() && IsGreedyRun(p, r) && p.weight <= 1.0 && |r| >= 2
    ensures WinningValue(p, r, 1) <= WinningValue(p, r, 0) - (1.0 - p.weight) * p.sim[r[1]][r[0]]
    ensures p.sim[r[1]][r[0]] >= -SIMILARITY_SLACK ==>
              WinningValue(p, r, 1) <= WinningValue(p, r, 0) + (1.0 - p.weight) * SIMILARITY_SLACK
    ensures p.sim[r[1]][r[0]] >= 0.0 ==> WinningValue(p, r, 1) <= WinningValue(p, r, 0)
  {
    WinnerBeatsLaterPick(p, r, 0);
    assert r[..1] == [r[0]];
    var x := p.sim[r[1]][r[0]];
    if x >= 0.0 { PenaltyIsMonotone(p.weight, 0.0, x); }
    if x >= -SIMILARITY_SLACK { PenaltyIsMonotone(p.weight, -SIMILARITY_SLACK, x); }
  }

  ghost predicate NeverIncreases(p: Pool)
    requires p.Valid()
  {
    forall k: nat, s: nat, t: nat | s <= t < |Mmr(p, k)| ::
      WinningValue(p, Mmr(p, k), t) <= WinningValue(p, Mmr(p, k), s)
  }

  ghost predicate NoNegativePair(sim: seq<seq<real>>)
    requires forall i | 0 <= i < |sim| :: |sim[i]| == |sim|
  {
    forall i, j | 0 <= i < |sim| && 0 <= j < |sim| && i != j :: sim[i][j] >= 0.0
  }

  /**
   * A matrix and a weight guarantee never-increasing winning values, whatever the ids and the
   * relevance, if and only if the weight is 1 or no two different sources have negative similarity.
   */
  lemma NeverIncreasesIff(sim: seq<seq<real>>, weight: real)
    requires 0.0 <= weight <= 1.0 && forall i | 0 <= i < |sim| :: |sim[i]| == |sim|
    ensures (forall p: Pool | p.Valid() && p.sim == sim && p.weight == weight :: NeverIncreases(p))
       <==> weight == 1.0 || NoNegativePair(sim)
  {
    if weight == 1.0 || NoNegativePair(sim) {
      forall p: Pool, k: nat, s: nat, t: nat
        | p.Valid() && p.sim == sim && p.weight == weight && s <= t < |Mmr(p, k)|
        ensures WinningValue(p, Mmr(p, k), t) <= WinningValue(p, Mmr(p, k), s)
      {
        NonNegativePairsSuffice(p, Mmr(p, k), s, t);
      }
    } else {
      var i, j :| 0 <= i < |sim| && 0 <= j < |sim| && i != j && sim[i][j] < 0.0;
      NegativePairRaisesSecondValue(sim, weight, i, j);
    }
  }

  lemma NonNegativePairsSuffice(p: Pool, r: seq<nat>, s: nat, t: nat)
    requires p.Valid() && IsGreedyRun(p, r) && p.weight <= 1.0 && s <= t < |r|
    requires p.weight == 1.0 || NoNegativePair(p.sim)
    ensures WinningValue(p, r, t) <= WinningValue(p, r, s)
  {
    if s == 0 < t {
      GreedyRunDistinct(p, r);
      SecondPickGain(p, r);
      WinningValuesNeverIncrease(p, r, 1, t);
    } else if s > 0 {
      WinningValuesNeverIncrease(p, r, s, t);
    }
  }

  /** Ids under which source j is the smallest. */
  function IdsWithLeast(n: nat, j: nat): (ids: seq<string>)
    ensures |ids| == n && forall i | 0 <= i < n :: |ids[i]| == if i == j then 0 else i + 1
  {
    seq(n, i requires 0 <= i < n => if i == j then "" else seq(i + 1, _ => 'a'))
  }

  lemma NegativePairRaisesSecondValue(sim: seq<seq<real>>, weight: real, i: nat, j: nat)
    requires 0.0 <= weight < 1.0 && forall i | 0 <= i < |sim| :: |sim[i]| == |sim|
    requires i < |sim| && j < |sim| && i != j && sim[i][j] < 0.0
    ensures exists p: Pool :: p.Valid() && p.sim == sim && p.weight == weight && !NeverIncreases(p)
  {
    var p := LevelPool(sim, weight, j);
    FirstPickIsLeastId(p, j, Mmr(p, 2));
    SecondValueExceeds(p, Mmr(p, 2), i, j);
    RiseRefutes(p);
  }

  /** All sources equally relevant, source j first by id. */
  function LevelPool(sim: seq<seq<real>>, weight: real, j: nat): (p: Pool)
    requires (forall i | 0 <= i < |sim| :: |sim[i]| == |sim|) && j < |sim|
    ensures p.Valid() && p.sim == sim && p.weight == weight && |p.ids| == |sim| && p.ids[j] == ""
    ensures forall x | 0 <= x < |p.ids| :: p.relevance[x] == 0.5
  {
    var ids := IdsWithLeast(|sim|, j);
    assert |ids[j]| == 0;
    assert forall a, b | 0 <= a < b < |sim| :: |ids[a]| != |ids[b]|;
    Pool(ids, seq(|sim|, _ => 0.5), sim, weight)
  }

  lemma RiseRefutes(p: Pool)
    requires p.Valid() && |Mmr(p, 2)| == 2 && WinningValue(p, Mmr(p, 2), 1) > WinningValue(p, Mmr(p, 2), 0)
    ensures !NeverIncreases(p)
  {
    var first, second := WinningValue(p, Mmr(p, 2), 0), WinningValue(p, Mmr(p, 2), 1);
    assert !(second <= first);
  }

  lemma SecondValueExceeds(p: Pool, r: seq<nat>, i: nat, j: nat)
    requires p.Valid() && IsGreedyRun(p, r) && |r| >= 2 && r[0] == j && i < |p.ids| && i != j
    requires p.weight < 1.0 && p.sim[i][j] < 0.0 && forall x | 0 <= x < |p.ids| :: p.relevance[x] == 0.5
    ensures WinningValue(p, r, 1) > WinningValue(p, r, 0)
  {
    assert r[..1] == [j] && r[..0] == [];
    assert IsNext(p.ids, Objectives(p, r[..1]), r[..1], r[1]);
    assert r[1] != i ==> Ahead(p.ids, Objectives(p, [j]), r[1], i);
    var gained, plain := Blend(p.weight, 0.5, p.sim[i][j]), Blend(p.weight, 0.5, 0.0);
    NegativePenalty(p.weight, p.sim[i][j]);
    assert Objective(p, [j], i) == gained && WinningValue(p, r, 0) == plain;
  }

  lemma FirstPickIsLeastId(p: Pool, j: nat, r: seq<nat>)
    requires p.Valid() && IsGreedyRun(p, r) && r != [] && j < |p.ids| && p.ids[j] == ""
    requires forall i | 0 <= i < |p.ids| :: p.relevance[i] == 0.5
    ensures r[0] == j
  {
    forall i | 0 <= i < |p.ids| && i != j ensures p.ids[i] != "" {
      assert p.ids[if i < j then i else j] != p.ids[if i < j then j else i];
    }
    assert r[..0] == [];
    assert IsNext(p.ids, Objectives(p, []), [], j);
    NextUnique(p.ids, Objectives(p, []), [], j, r[0]);
  }

  lemma NegativePenalty(weight: real, x: real)
    requires weight < 1.0 && x < 0.0
    ensures (1.0 - weight) * x < 0.0
    ensures forall relevance :: Blend(weight, relevance, x) > Blend(weight, relevance, 0.0)
  {
  }
}
