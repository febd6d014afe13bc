/** Comprehensions over lists, and which of their results do not depend on the order of the list. */
module Seqs {

  function Filter<T>(s: seq<T>, p: T -> bool): (r: seq<T>)
    ensures |r| <= |s|
    ensures forall x | x in r :: x in s && p(x)
    ensures forall x | x in s :: p(x) ==> x in r
  {
    if s == [] then []
    else
      var last := |s| - 1;
      assert s == s[..last] + [s[last]];
      Filter(s[..last], p) + if p(s[last]) then [s[last]] else []
  }

  /** `sum(p(x) for x in s)`. */
  function Count<T>(s: seq<T>, p: T -> bool): (n: nat)
    ensures n <= |s|
  {
    |Filter(s, p)|
  }

  function Map<T, U>(s: seq<T>, f: T -> U): (r: seq<U>)
    ensures |r| == |s| && forall i | 0 <= i < |s| :: r[i] == f(s[i])
  {
    seq(|s|, i requires 0 <= i < |s| => f(s[i]))
  }

  lemma TakeOneMore<T>(s: seq<T>, i: nat)
    requires i < |s|
    ensures s[..i + 1] == s[..i] + [s[i]]
  {
  }

  function ToSet<T(==)>(s: seq<T>): set<T> {
    set x | x in s
  }

  lemma {:induction false} CountIsAll<T>(s: seq<T>, p: T -> bool)
    ensures Count(s, p) == |s| <==> forall x | x in s :: p(x)
  {
    if s != [] {
      var last := |s| - 1;
      CountIsAll(s[..last], p);
      assert s == s[..last] + [s[last]];
    }
  }

  lemma {:induction false} CountMonotone<T>(s: seq<T>, p: T -> bool, q: T -> bool)
    requires forall x | x in s :: p(x) ==> q(x)
    ensures Count(s, p) <= Count(s, q)
    ensures Count(s, p) == Count(s, q) <==> forall x | x in s :: q(x) ==> p(x)
  {
    if s != [] {
      var last := |s| - 1;
      assert s == s[..last] + [s[last]];
      CountMonotone(s[..last], p, q);
    }
  }

  lemma {:induction false} CountSplits<T>(s: seq<T>, p: T -> bool, q: T -> bool, r: T -> bool)
    requires forall x | x in s :: (r(x) <==> p(x) || q(x)) && !(p(x) && q(x))
    ensures Count(s, r) == Count(s, p) + Count(s, q)
  {
    if s != [] {
      var last := |s| - 1;
      assert s == s[..last] + [s[last]];
      CountSplits(s[..last], p, q, r);
    }
  }

  lemma {:induction false} FilterTwice<T>(s: seq<T>, p: T -> bool, q: T -> bool, r: T -> bool)
    requires forall x | x in s :: r(x) <==> p(x) && q(x)
    ensures Filter(Filter(s, p), q) == Filter(s, r)
  {
    if s != [] {
      var last := |s| - 1;
      assert s == s[..last] + [s[last]];
      FilterTwice(s[..last], p, q, r);
      var inner := Filter(s[..last], p);
      FilterAppend(inner, [s[last]], q);
      assert Filter(s, p) == if p(s[last]) then inner + [s[last]] else inner;
    }
  }

  function Both<T>(p: T -> bool, q: T -> bool): T -> bool {
    x => p(x) && q(x)
  }

  /** The positions of the elements that are counted. */
  function Where<T>(s: seq<T>, p: T -> bool): set<int> {
    set i | 0 <= i < |s| && p(s[i])
  }

  lemma {:induction false} CountIsPositions<T>(s: seq<T>, p: T -> bool)
    ensures Count(s, p) == |Where(s, p)|
  {
    if s == [] {
      assert Where(s, p) == {};
    } else {
      CountIsPositions(s[..|s| - 1], p);
      FilterLast(s, p);
      WhereLast(s, p);
    }
  }

  lemma WhereLast<T>(s: seq<T>, p: T -> bool)
    requires s != []
    ensures |Where(s, p)| == |Where(s[..|s| - 1], p)| + if p(s[|s| - 1]) then 1 else 0
  {
    var last := |s| - 1;
    assert last !in Where(s[..last], p);
    assert Where(s, p) == if p(s[last]) then Where(s[..last], p) + {last} else Where(s[..last], p);
  }

  lemma WhereGrows<T>(s: seq<T>, x: T, p: T -> bool)
    ensures |Where(s + [x], p)| == |Where(s, p)| + if p(x) then 1 else 0
  {
    assert (s + [x])[..|s|] == s;
    WhereLast(s + [x], p);
  }

  /** Counting within a sublist is counting the positions of the list where both conditions hold. */
  lemma CountWithin<T>(s: seq<T>, p: T -> bool, q: T -> bool)
    ensures Count(Filter(s, p), q) == |Where(s, Both(p, q))|
  {
    FilterTwice(s, p, q, Both(p, q));
    CountIsPositions(s, Both(p, q));
  }

  lemma {:induction false} FilterAppend<T>(a: seq<T>, b: seq<T>, p: T -> bool)
    ensures Filter(a + b, p) == Filter(a, p) + Filter(b, p)
  {
    if b == [] {
      assert a + b == a;
    } else {
      FilterAppend(a, b[..|b| - 1], p);
      AppendLast(a, b);
    }
  }

  lemma AppendLast<T>(a: seq<T>, b: seq<T>)
    requires b != []
    ensures (a + b)[..|a + b| - 1] == a + b[..|b| - 1] && (a + b)[|a + b| - 1] == b[|b| - 1]
  {
  }

  lemma FilterLast<T>(s: seq<T>, p: T -> bool)
    requires s != []
    ensures Filter(s, p) == Filter(s[..|s| - 1], p) + if p(s[|s| - 1]) then [s[|s| - 1]] else []
  {
  }

  /** The last element of a occurs in b; without it the rest of both lists agree. */
  lemma DropCommon<T>(a: seq<T>, b: seq<T>) returns (front: seq<T>, back: seq<T>)
    requires a != [] && multiset(a) == multiset(b)
    ensures b == front + [a[|a| - 1]] + back
    ensures multiset(front + back) == multiset(a[..|a| - 1])
  {
    var x := a[|a| - 1];
    assert x in multiset(b);
    var i :| 0 <= i < |b| && b[i] == x;
    front, back := b[..i], b[i + 1..];
    CutAt(b, i);
    CutLast(a);
  }

  lemma CutLast<T>(s: seq<T>)
    requires s != []
    ensures multiset(s) - multiset{s[|s| - 1]} == multiset(s[..|s| - 1])
  {
    assert s == s[..|s| - 1] + [s[|s| - 1]];
  }

  lemma CutAt<T>(s: seq<T>, i: nat)
    requires i < |s|
    ensures s == s[..i] + [s[i]] + s[i + 1..]
    ensures multiset(s) - multiset{s[i]} == multiset(s[..i] + s[i + 1..])
  {
    assert s == s[..i] + [s[i]] + s[i + 1..];
  }

  lemma FilterGrow<T>(init: seq<T>, x: T, front: seq<T>, back: seq<T>, p: T -> bool)
    requires multiset(Filter(init, p)) == multiset(Filter(front + back, p))
    ensures multiset(Filter(init + [x], p)) == multiset(Filter(front + [x] + back, p))
  {
    FilterAppend(init, [x], p);
    FilterAppend(front + [x], back, p);
    FilterAppend(front, [x], p);
    FilterAppend(front, back, p);
  }

  lemma {:induction false} FilterBag<T>(a: seq<T>, b: seq<T>, p: T -> bool)
    requires multiset(a) == multiset(b)
    ensures multiset(Filter(a, p)) == multiset(Filter(b, p))
  {
    assert |multiset(a)| == |a| && |multiset(b)| == |b|;
    if a != [] {
      var init, x := a[..|a| - 1], a[|a| - 1];
      var front, back := DropCommon(a, b);
      FilterBag(init, front + back, p);
      FilterGrow(init, x, front, back, p);
      assert a == init + [x];
    }
  }

  lemma FilterIgnoresOrder<T>(a: seq<T>, b: seq<T>, p: T -> bool)
    requires multiset(a) == multiset(b)
    ensures multiset(Filter(a, p)) == multiset(Filter(b, p))
    ensures Count(a, p) == Count(b, p)
  {
    FilterBag(a, b, p);
    assert |multiset(Filter(a, p))| == Count(a, p) && |multiset(Filter(b, p))| == Count(b, p);
  }

  lemma {:induction false} MapIgnoresOrder<T, U>(a: seq<T>, b: seq<T>, f: T -> U)
    requires multiset(a) == multiset(b)
    ensures multiset(Map(a, f)) == multiset(Map(b, f))
  {
    assert |multiset(a)| == |a| && |multiset(b)| == |b|;
    if a != [] {
      var init, x := a[..|a| - 1], a[|a| - 1];
      var front, back := DropCommon(a, b);
      MapIgnoresOrder(init, front + back, f);
      assert Map(a, f) == Map(init, f) + [f(x)];
      assert Map(front + back, f) == Map(front, f) + Map(back, f);
      assert Map(b, f) == Map(front, f) + [f(x)] + Map(back, f);
    }
  }

  /** An element whose image no other element shares occurs as often as its image. */
  lemma {:induction false} MapMultiplicity<T, U>(s: seq<T>, f: T -> U, x: T)
    requires forall y | y in s :: f(y) == f(x) ==> y == x
    ensures multiset(Map(s, f))[f(x)] == multiset(s)[x]
  {
    if s != [] {
      var init, last := s[..|s| - 1], s[|s| - 1];
      assert s == init + [last];
      MapMultiplicity(init, f, x);
      assert Map(s, f) == Map(init, f) + [f(last)];
    }
  }

  /** A list has as many elements as distinct elements exactly when none of them repeats. */
  lemma {:induction false} SizeOfSet<T>(s: seq<T>)
    ensures |ToSet(s)| <= |s|
    ensures |ToSet(s)| == |s| <==> multiset(s) == multiset(ToSet(s))
    ensures |ToSet(s)| == |s| <==> forall i, j | 0 <= i < j < |s| :: s[i] != s[j]
  {
    if s == [] {
      assert ToSet(s) == {};
    } else {
      var last := |s| - 1;
      var init, x := s[..last], s[last];
      SizeOfSet(init);
      assert s == init + [x];
      assert ToSet(s) == ToSet(init) + {x};
      if x in init {
        var i :| 0 <= i < last && init[i] == x;
        assert s[i] == s[last];
        assert multiset(s)[x] >= 2;
      }
    }
  }
}
