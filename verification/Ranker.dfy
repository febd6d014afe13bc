/** The selection half of experiments/retrieval_research/ranker.py. */
module Ranker {
  import opened Wrappers
  import opened Order
  import opened Seqs
  import Sorting

  /** A Python number that is a finite int or float, or anything the validation turns away. */
  datatype Number = Finite(value: real) | Unusable

  datatype Chunk = Chunk(id: string, title: string, text: string)

  datatype RankError =
    | ScoreCountMismatch
    | DuplicateSource
    | ScoreNotFinite
    | TopKOutOfRange
    | InvalidMmrParameters
    | SimilarityShapeMismatch
    | InvalidSimilarities

  const MAX_SOURCES := 50
  const MAX_K := 5
  const SATURATION := 700.0
  const SIMILARITY_SLACK := 0.000001

  function Ids(chunks: seq<Chunk>): seq<string> {
    seq(|chunks|, i requires 0 <= i < |chunks| => chunks[i].id)
  }

  ghost predicate Distinct(ids: seq<string>) {
    forall i, j | 0 <= i < j < |ids| :: ids[i] != ids[j]
  }

  function Values(ns: seq<Number>): seq<real>
    requires forall i | 0 <= i < |ns| :: ns[i].Finite?
  {
    seq(|ns|, i requires 0 <= i < |ns| => ns[i].value)
  }

  /** `validate_scores`: the first problem found, if any. */
  function ScoresProblem(chunks: seq<Chunk>, scores: seq<Number>): Option<RankError> {
    if |chunks| != |scores| || |chunks| > MAX_SOURCES then Some(ScoreCountMismatch)
    else if |set c | c in chunks :: c.id| != |chunks| then Some(DuplicateSource)
    else if exists i | 0 <= i < |scores| :: scores[i].Unusable? then Some(ScoreNotFinite)
    else None
  }

  /** A set of labels as large as the list it was drawn from means that no label repeats. */
  lemma IdSetCountsChunks(chunks: seq<Chunk>)
    ensures |set c | c in chunks :: c.id| == |chunks| <==> Distinct(Ids(chunks))
  {
    var ids := Ids(chunks);
    SizeOfSet(ids);
    forall x | x in (set c | c in chunks :: c.id) ensures x in ToSet(ids) {
      var c :| c in chunks && c.id == x;
      var i :| 0 <= i < |chunks| && chunks[i] == c;
      assert ids[i] == x;
    }
    assert ToSet(ids) == set c | c in chunks :: c.id;
  }

  // ---------------------------------------------------------------- ranking by fixed values

  /** The sort key (-value, chunk_id) puts i before j. */
  predicate Ahead(ids: seq<string>, values: seq<real>, i: nat, j: nat)
    requires i < |ids| == |values| && j < |ids|
  {
    values[i] > values[j] || (values[i] == values[j] && Less(ids[i], ids[j]))
  }

  lemma AheadIsStrictOrder(ids: seq<string>, values: seq<real>, i: nat, j: nat, k: nat)
    requires i < |ids| == |values| && j < |ids| && k < |ids| && Distinct(ids)
    ensures !Ahead(ids, values, i, i)
    ensures i != j ==> Ahead(ids, values, i, j) || Ahead(ids, values, j, i)
    ensures !(Ahead(ids, values, i, j) && Ahead(ids, values, j, i))
    ensures Ahead(ids, values, i, j) && Ahead(ids, values, j, k) ==> Ahead(ids, values, i, k)
  {
    LessIrreflexive(ids[i]);
    LessTotal(ids[i], ids[j]);
    if Less(ids[i], ids[j]) && Less(ids[j], ids[i]) { LessTransitive(ids[i], ids[j], ids[i]); }
    if Less(ids[i], ids[j]) && Less(ids[j], ids[k]) { LessTransitive(ids[i], ids[j], ids[k]); }
  }

  predicate InRange(r: seq<nat>, n: nat) {
    forall t | 0 <= t < |r| :: r[t] < n
  }

  /** w is ahead of every other index that has not been taken yet. */
  ghost predicate IsNext(ids: seq<string>, values: seq<real>, taken: seq<nat>, w: nat)
    requires |ids| == |values|
  {
    && w < |ids| && w !in taken
    && forall j: nat | j < |ids| && j !in taken && j != w :: Ahead(ids, values, w, j)
  }

  lemma NextUnique(ids: seq<string>, values: seq<real>, taken: seq<nat>, v: nat, w: nat)
    requires |ids| == |values| && Distinct(ids)
    requires IsNext(ids, values, taken, v) && IsNext(ids, values, taken, w)
    ensures v == w
  {
    AheadIsStrictOrder(ids, values, v, w, v);
  }

  /** Repeatedly taking the index that is ahead of all the others. */
  ghost predicate IsTopRun(ids: seq<string>, values: seq<real>, r: seq<nat>)
    requires |ids| == |values|
  {
    forall t | 0 <= t < |r| :: IsNext(ids, values, r[..t], r[t])
  }

  /** The order of indices by that key. */
  function ByKey(ids: seq<string>, values: seq<real>): (nat, nat) -> bool
    requires |ids| == |values|
  {
    (i: nat, j: nat) => i < |ids| && j < |ids| && Ahead(ids, values, i, j)
  }

  function Range(n: nat): (s: seq<nat>)
    ensures |s| == n && forall i | 0 <= i < n :: s[i] == i
  {
    seq(n, i => i)
  }

  /** A list with the elements of a range holds each index once and nothing else. */
  lemma RangeShuffled(s: seq<nat>, n: nat)
    requires multiset(s) == multiset(Range(n))
    ensures |s| == n && InRange(s, n)
    ensures forall i: nat | i < n :: i in s
    ensures forall a, b | 0 <= a < b < n :: s[a] != s[b]
  {
    assert |multiset(s)| == |s| && |multiset(Range(n))| == n;
    forall i: nat ensures i in s <==> i < n {
      assert i < n ==> Range(n)[i] == i;
      assert i in s <==> i in multiset(s);
      assert i in Range(n) <==> i in multiset(Range(n));
    }
    assert forall t | 0 <= t < |s| :: s[t] in s;
    SizeOfSet(s);
    SizeOfSet(Range(n));
    assert ToSet(s) == ToSet(Range(n)) by {
      assert forall i: nat :: i in s <==> i in multiset(s);
      assert forall i: nat :: i in Range(n) <==> i in multiset(Range(n));
    }
  }

  /** `sorted(range(n), key=(-value, chunk_id))`. */
  function SortIndices(ids: seq<string>, values: seq<real>): (s: seq<nat>)
    requires |ids| == |values|
    ensures |s| == |ids| && InRange(s, |ids|)
    ensures forall i: nat | i < |ids| :: i in s
    ensures forall a, b | 0 <= a < b < |ids| :: s[a] != s[b]
  {
    var s := Sorting.Sort(Range(|ids|), ByKey(ids, values));
    RangeShuffled(s, |ids|);
    s
  }

  ghost predicate Ranked(ids: seq<string>, values: seq<real>, r: seq<nat>)
    requires |ids| == |values| && InRange(r, |ids|)
  {
    forall a, b | 0 <= a < b < |r| :: Ahead(ids, values, r[a], r[b])
  }

  /** Each sorted index comes before those it is ahead of. */
  lemma SortIndicesRanked(ids: seq<string>, values: seq<real>)
    requires |ids| == |values| && Distinct(ids)
    ensures Ranked(ids, values, SortIndices(ids, values))
  {
    var s := SortIndices(ids, values);
    ByKeyOrders(ids, values);
    Sorting.SortSorts(Range(|ids|), ByKey(ids, values));
    forall a, b | 0 <= a < b < |s| ensures Ahead(ids, values, s[a], s[b]) {
      assert !ByKey(ids, values)(s[b], s[a]);
      AheadIsStrictOrder(ids, values, s[a], s[b], s[b]);
    }
  }

  lemma ByKeyOrders(ids: seq<string>, values: seq<real>)
    requires |ids| == |values| && Distinct(ids)
    ensures Sorting.Orders(ByKey(ids, values), Range(|ids|))
  {
    forall x, y, z | x in Range(|ids|) && y in Range(|ids|) && z in Range(|ids|)
      ensures Sorting.OrdersAt(ByKey(ids, values), x, y, z)
    {
      AheadIsStrictOrder(ids, values, x, y, z);
      AheadIsStrictOrder(ids, values, y, z, y);
      AheadIsStrictOrder(ids, values, x, z, x);
    }
  }

  function Min(a: nat, b: nat): nat {
    if a < b then a else b
  }

  /** The indices `select_top` answers with, for any k. */
  function Top(ids: seq<string>, values: seq<real>, k: nat): seq<nat>
    requires |ids| == |values|
  {
    SortIndices(ids, values)[..Min(k, |ids|)]
  }

  /** A sorted prefix is exactly a run of repeated minima over the indices still left. */
  lemma TopIsTopRun(ids: seq<string>, values: seq<real>, k: nat)
    requires |ids| == |values| && Distinct(ids)
    ensures IsTopRun(ids, values, Top(ids, values, k)) && |Top(ids, values, k)| == Min(k, |ids|)
  {
    var n := |ids|;
    var s := SortIndices(ids, values);
    SortIndicesRanked(ids, values);
    var r := Top(ids, values, k);
    forall t | 0 <= t < |r| ensures IsNext(ids, values, r[..t], r[t]) {
      assert forall a | 0 <= a < t :: r[a] == s[a];
      assert forall a | 0 <= a < t :: r[..t][a] == s[a];
      forall j: nat | j < n && j !in r[..t] && j != r[t] ensures Ahead(ids, values, r[t], j) {
        assert j in s;
        var b :| 0 <= b < |s| && s[b] == j;
      }
    }
  }

  // ---------------------------------------------------------------- maximal marginal relevance

  /** What the greedy loop reads: identities, relevance, pairwise similarity and the weight. */
  datatype Pool = Pool(ids: seq<string>, relevance: seq<real>, sim: seq<seq<real>>, weight: real) {
    ghost predicate Valid() {
      && |relevance| == |ids| == |sim|
      && (forall i | 0 <= i < |sim| :: |sim[i]| == |ids|)
      && Distinct(ids)
    }
  }

  /** `max(row[j] for j in selected)`. */
  function Peak(row: seq<real>, selected: seq<nat>): (m: real)
    requires selected != [] && InRange(selected, |row|)
    ensures forall t | 0 <= t < |selected| :: row[selected[t]] <= m
    ensures exists t | 0 <= t < |selected| :: row[selected[t]] == m
  {
    var last := |selected| - 1;
    if last == 0 then row[selected[0]]
    else
      var m := Peak(row, selected[..last]);
      assert forall t | 0 <= t < last :: selected[..last][t] == selected[t];
      if row[selected[last]] > m then row[selected[last]] else m
  }

  function Redundancy(row: seq<real>, selected: seq<nat>): real
    requires InRange(selected, |row|)
  {
    if selected == [] then 0.0 else Peak(row, selected)
  }

  function Objective(p: Pool, selected: seq<nat>, i: nat): real
    requires p.Valid() && i < |p.ids| && InRange(selected, |p.ids|)
  {
    Blend(p.weight, p.relevance[i], Redundancy(p.sim[i], selected))
  }

  function Blend(weight: real, relevance: real, redundancy: real): real {
    weight * relevance - (1.0 - weight) * redundancy
  }

  ghost function Objectives(p: Pool, selected: seq<nat>): (v: seq<real>)
    requires p.Valid() && InRange(selected, |p.ids|)
    ensures |v| == |p.ids|
  {
    seq(|p.ids|, i requires 0 <= i < |p.ids| => Objective(p, selected, i))
  }

  /** Every pick maximises the objective against the earlier picks, the smaller id winning ties. */
  ghost predicate IsGreedyRun(p: Pool, r: seq<nat>)
    requires p.Valid()
  {
    && InRange(r, |p.ids|)
    && forall t | 0 <= t < |r| :: IsNext(p.ids, Objectives(p, r[..t]), r[..t], r[t])
  }

  lemma {:induction false} SomeIndexIsNext(ids: seq<string>, values: seq<real>, rest: set<nat>) returns (w: nat)
    requires |ids| == |values| && Distinct(ids) && rest != {}
    requires forall i | i in rest :: i < |ids|
    ensures w in rest && forall j | j in rest && j != w :: Ahead(ids, values, w, j)
    decreases |rest|
  {
    var x :| x in rest;
    if rest == {x} {
      w := x;
    } else {
      var others := rest - {x};
      assert others != {};
      var v := SomeIndexIsNext(ids, values, others);
      w := if Ahead(ids, values, x, v) then x else v;
      forall j | j in rest && j != w ensures Ahead(ids, values, w, j) {
        AheadIsStrictOrder(ids, values, x, v, j);
        AheadIsStrictOrder(ids, values, v, x, x);
      }
    }
  }

  /** The indices not taken yet. */
  function Left(n: nat, taken: seq<nat>): set<nat> {
    set i: nat | i < n && i !in taken
  }

  lemma {:induction false} LeftCount(n: nat, taken: seq<nat>)
    requires InRange(taken, n) && forall a, b | 0 <= a < b < |taken| :: taken[a] != taken[b]
    ensures |Left(n, taken)| == n - |taken|
  {
    if taken == [] {
      LeftOfNothing(n);
    } else {
      var init, last := taken[..|taken| - 1], taken[|taken| - 1];
      LeftCount(n, init);
      assert taken == init + [last];
      assert last in Left(n, init);
      assert Left(n, taken) == Left(n, init) - {last};
    }
  }

  lemma {:induction false} LeftOfNothing(n: nat)
    ensures |Left(n, [])| == n
  {
    if n > 0 {
      LeftOfNothing(n - 1);
      assert Left(n, []) == Left(n - 1, []) + {n - 1};
    }
  }

  lemma GreedyRunDistinct(p: Pool, r: seq<nat>)
    requires p.Valid() && IsGreedyRun(p, r)
    ensures forall a, b | 0 <= a < b < |r| :: r[a] != r[b]
    ensures |r| <= |p.ids|
  {
    forall a, b | 0 <= a < b < |r| ensures r[a] != r[b] {
      assert IsNext(p.ids, Objectives(p, r[..b]), r[..b], r[b]);
      assert r[..b][a] == r[a];
    }
    LeftCount(|p.ids|, r);
  }

  /** The indices `select_mmr` answers with, for any k. */
  ghost function Mmr(p: Pool, k: nat): (r: seq<nat>)
    requires p.Valid()
    ensures IsGreedyRun(p, r) && |r| == Min(k, |p.ids|)
  {
    if k == 0 then []
    else if k > |p.ids| then Mmr(p, k - 1)
    else
      var prev := Mmr(p, k - 1);
      NextExists(p, prev);
      var w :| IsNext(p.ids, Objectives(p, prev), prev, w);
      ExtendRun(p, prev, w);
      prev + [w]
  }

  lemma NextExists(p: Pool, r: seq<nat>)
    requires p.Valid() && IsGreedyRun(p, r) && |r| < |p.ids|
    ensures exists w: nat :: IsNext(p.ids, Objectives(p, r), r, w)
  {
    GreedyRunDistinct(p, r);
    LeftCount(|p.ids|, r);
    var w := SomeIndexIsNext(p.ids, Objectives(p, r), Left(|p.ids|, r));
    assert IsNext(p.ids, Objectives(p, r), r, w);
  }

  // ---------------------------------------------------------------- the two entry points

  function SelectTop(chunks: seq<Chunk>, scores: seq<Number>, k: int): Result<seq<nat>, RankError> {
    var problem := ScoresProblem(chunks, scores);
    if problem.Some? then Err(problem.value)
    else if !(1 <= k <= MAX_K) then Err(TopKOutOfRange)
    else Ok(Top(Ids(chunks), Values(scores), k))
  }

  function Clamp(s: real): real {
    var capped := if s < SATURATION then s else SATURATION;
    if capped > -SATURATION then capped else -SATURATION
  }

  function Relevance(scores: seq<real>, sigmoid: real -> real): seq<real> {
    seq(|scores|, i requires 0 <= i < |scores| => sigmoid(Clamp(scores[i])))
  }

  function MmrProblem(chunks: seq<Chunk>, scores: seq<Number>, sims: seq<seq<Number>>,
                      k: int, weight: real): Option<RankError> {
    var problem := ScoresProblem(chunks, scores);
    var n := |chunks|;
    if problem.Some? then problem
    else if !(1 <= k <= MAX_K) || !(0.0 <= weight <= 1.0) then Some(InvalidMmrParameters)
    else if |sims| != n || exists i | 0 <= i < |sims| :: |sims[i]| != n then Some(SimilarityShapeMismatch)
    else if exists i, j | 0 <= i < |sims| && 0 <= j < |sims[i]| :: !Cosine(sims[i][j]) then Some(InvalidSimilarities)
    else None
  }

  predicate Cosine(v: Number) {
    v.Finite? && -SIMILARITY_SLACK <= v.value <= 1.0 + SIMILARITY_SLACK
  }

  function PoolOf(chunks: seq<Chunk>, scores: seq<Number>, sims: seq<seq<Number>>,
                  k: int, weight: real, sigmoid: real -> real): (p: Pool)
    requires MmrProblem(chunks, scores, sims, k, weight).None?
    ensures p.Valid() && |p.ids| == |chunks|
  {
    IdSetCountsChunks(chunks);
    Pool(Ids(chunks), Relevance(Values(scores), sigmoid),
         seq(|sims|, i requires 0 <= i < |sims| => Values(sims[i])), weight)
  }

  /** `select_mmr`: validation, the relevance transform and then the greedy loop. */
  method SelectMmr(chunks: seq<Chunk>, scores: seq<Number>, sims: seq<seq<Number>>,
                   k: int, weight: real, sigmoid: real -> real)
    returns (r: Result<seq<nat>, RankError>)
    ensures var problem := MmrProblem(chunks, scores, sims, k, weight);
      r == if problem.Some? then Err(problem.value)
           else Ok(Mmr(PoolOf(chunks, scores, sims, k, weight, sigmoid), k))
  {
    var problem := MmrProblem(chunks, scores, sims, k, weight);
    if problem.Some? {
      return Err(problem.value);
    }
    var selected := GreedyLoop(PoolOf(chunks, scores, sims, k, weight, sigmoid), k);
    r := Ok(selected);
  }

  /**
   * The loop over `selected` and `remaining`. The remaining indices are scanned in an arbitrary
   * order, as Python iterates over a set; the answer does not depend on that order.
   */
  method GreedyLoop(p: Pool, k: nat) returns (selected: seq<nat>)
    requires p.Valid()
    ensures selected == Mmr(p, k)
  {
    var remaining := Left(|p.ids|, []);
    selected := [];
    while remaining != {} && |selected| < k
      invariant IsGreedyRun(p, selected) && |selected| <= k
      invariant remaining == Left(|p.ids|, selected)
    {
      var winner := Winner(p, selected, remaining);
      ExtendRun(p, selected, winner);
      selected := selected + [winner];
      remaining := remaining - {winner};
    }
    GreedyRunDistinct(p, selected);
    LeftCount(|p.ids|, selected);
    GreedyRunsAgree(p, selected, Mmr(p, k));
  }

  lemma ExtendRun(p: Pool, r: seq<nat>, w: nat)
    requires p.Valid() && IsGreedyRun(p, r)
    requires IsNext(p.ids, Objectives(p, r), r, w)
    ensures IsGreedyRun(p, r + [w])
  {
    assert (r + [w])[..|r|] == r;
    assert forall t | 0 <= t < |r| :: (r + [w])[..t] == r[..t];
  }

  /** `min(remaining, key=...)`. */
  method Winner(p: Pool, selected: seq<nat>, remaining: set<nat>) returns (w: nat)
    requires p.Valid() && InRange(selected, |p.ids|)
    requires remaining != {} && forall i | i in remaining :: i < |p.ids|
    ensures w in remaining
    ensures forall j | j in remaining && j != w :: Ahead(p.ids, Objectives(p, selected), w, j)
  {
    w :| w in remaining;
    var todo := remaining - {w};
    while todo != {}
      invariant w in remaining && w !in todo && todo <= remaining
      invariant forall j | j in remaining && j !in todo && j != w :: Ahead(p.ids, Objectives(p, selected), w, j)
      decreases |todo|
    {
      var i :| i in todo;
      var oi, ow := Objective(p, selected, i), Objective(p, selected, w);
      AheadIsStrictOrder(p.ids, Objectives(p, selected), i, w, i);
      if oi > ow || (oi == ow && Less(p.ids[i], p.ids[w])) {
        forall j | j in remaining && j !in todo ensures j != w ==> Ahead(p.ids, Objectives(p, selected), i, j) {
          AheadIsStrictOrder(p.ids, Objectives(p, selected), i, w, j);
        }
        w := i;
      }
      todo := todo - {i};
    }
  }

  /** Unique ids leave the greedy loop no choice: runs of equal length are equal. */
  lemma {:induction false} GreedyRunsAgree(p: Pool, r: seq<nat>, s: seq<nat>)
    requires p.Valid() && IsGreedyRun(p, r) && IsGreedyRun(p, s) && |r| <= |s|
    ensures r == s[..|r|]
  {
    if r != [] {
      var last := |r| - 1;
      assert forall t | 0 <= t < last :: r[..last][..t] == r[..t];
      GreedyRunsAgree(p, r[..last], s);
      NextUnique(p.ids, Objectives(p, r[..last]), r[..last], r[last], s[last]);
      assert r == r[..last] + [r[last]];
    }
  }
}
