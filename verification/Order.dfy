/** Python compares `str` values code point by code point, a proper prefix being smaller. */
module Order {
  import Sorting

  predicate Less(a: string, b: string) {
    if b == [] then false
    else if a == [] then true
    else if a[0] != b[0] then a[0] < b[0]
    else Less(a[1..], b[1..])
  }

  lemma {:induction false} LessIrreflexive(a: string)
    ensures !Less(a, a)
  {
    if a != [] {
      LessIrreflexive(a[1..]);
    }
  }

  lemma {:induction false} LessTransitive(a: string, b: string, c: string)
    requires Less(a, b) && Less(b, c)
    ensures Less(a, c)
  {
    if a != [] && a[0] == b[0] == c[0] {
      LessTransitive(a[1..], b[1..], c[1..]);
    }
  }

  lemma {:induction false} LessTotal(a: string, b: string)
    ensures Less(a, b) || a == b || Less(b, a)
  {
    if a != [] && b != [] && a[0] == b[0] {
      LessTotal(a[1..], b[1..]);
      assert a == [a[0]] + a[1..] && b == [b[0]] + b[1..];
    }
  }

  /** After n common characters, a ends before b does, or goes on with a smaller character. */
  predicate SmallerAt(a: string, b: string, n: nat) {
    n <= |a| && n < |b| && a[..n] == b[..n] && (n == |a| || a[n] < b[n])
  }

  lemma {:induction false} LessIff(a: string, b: string)
    ensures Less(a, b) <==> exists n: nat :: SmallerAt(a, b, n)
  {
    if a != [] && b != [] && a[0] == b[0] {
      LessIff(a[1..], b[1..]);
      if n: nat :| SmallerAt(a, b, n) {
        assert n > 0;
        assert a[1..][..n - 1] == a[..n][1..] && b[1..][..n - 1] == b[..n][1..];
        assert SmallerAt(a[1..], b[1..], n - 1);
      }
      if n: nat :| SmallerAt(a[1..], b[1..], n) {
        assert a[..n + 1] == [a[0]] + a[1..][..n] && b[..n + 1] == [b[0]] + b[1..][..n];
        assert SmallerAt(a, b, n + 1);
      }
    } else if b != [] {
      assert a[..0] == b[..0];
      assert SmallerAt(a, b, 0) <==> a == [] || a[0] < b[0];
      forall n: nat | 0 < n && SmallerAt(a, b, n) ensures a[0] == b[0] {
        assert a[..n][0] == b[..n][0];
      }
    }
  }

  /** What Python's `sorted` returns on a list of strings. */
  function Sort(s: seq<string>): (r: seq<string>)
    ensures multiset(r) == multiset(s)
  {
    Sorting.Sort(s, Less)
  }

  ghost predicate Ascending(s: seq<string>) {
    Sorting.Sorted(s, Less)
  }

  lemma SortAscending(s: seq<string>)
    ensures Ascending(Sort(s))
  {
    forall x, y, z ensures Sorting.OrdersAt(Less, x, y, z) {
      LessTotal(x, y);
      LessTotal(y, z);
      if Less(x, y) && Less(y, x) { LessTransitive(x, y, x); LessIrreflexive(x); }
      if Less(z, x) && Less(x, y) { LessTransitive(z, x, y); }
    }
    Sorting.SortSorts(s, Less);
  }

  lemma AscendingHead(a: seq<string>, b: seq<string>)
    requires Ascending(a) && Ascending(b) && multiset(a) == multiset(b) && a != [] && b != []
    ensures a[0] == b[0]
  {
    assert a[0] in multiset(b) && b[0] in multiset(a);
    var i :| 0 <= i < |a| && a[i] == b[0];
    var j :| 0 <= j < |b| && b[j] == a[0];
    LessTotal(a[0], b[0]);
    LessIrreflexive(a[0]);
  }

  /** An ascending list is determined by its multiset. */
  lemma {:induction false} AscendingUnique(a: seq<string>, b: seq<string>)
    requires Ascending(a) && Ascending(b) && multiset(a) == multiset(b)
    ensures a == b
  {
    assert |a| == |multiset(a)| && |b| == |multiset(b)|;
    if a != [] {
      AscendingHead(a, b);
      assert a == [a[0]] + a[1..] && b == [b[0]] + b[1..];
      assert multiset(a[1..]) == multiset(a) - multiset{a[0]};
      assert multiset(b[1..]) == multiset(b) - multiset{b[0]};
      AscendingUnique(a[1..], b[1..]);
    }
  }

  /** Two lists sort to the same list exactly when they hold the same strings equally often. */
  lemma SortEqualIffSameMultiset(a: seq<string>, b: seq<string>)
    ensures Sort(a) == Sort(b) <==> multiset(a) == multiset(b)
  {
    SortAscending(a);
    SortAscending(b);
    if multiset(a) == multiset(b) {
      AscendingUnique(Sort(a), Sort(b));
    }
  }

  lemma LeastExists(s: set<string>)
    requires s != {}
    ensures exists x | x in s :: forall y | y in s && y != x :: Less(x, y)
    ensures forall x, y | Less(x, y) :: !Less(y, x)
  {
    forall x, y | Less(x, y) ensures !Less(y, x) {
      if Less(y, x) { LessTransitive(x, y, x); LessIrreflexive(x); }
    }
    var x := Least(s);
  }

  lemma {:induction false} Least(s: set<string>) returns (x: string)
    requires s != {}
    ensures x in s && forall y | y in s && y != x :: Less(x, y)
    decreases |s|
  {
    x :| x in s;
    if s != {x} {
      var rest := s - {x};
      assert rest != {};
      var least := Least(rest);
      LessTotal(x, least);
      if Less(x, least) {
        forall y | y in rest ensures Less(x, y) {
          if y != least { LessTransitive(x, least, y); }
        }
      } else {
        x := least;
      }
    }
  }

  /** `sorted` on a set of distinct strings, such as the keys of a dict. */
  function InOrder(s: set<string>): (r: seq<string>)
    ensures forall x :: x in r <==> x in s
  {
    if s == {} then []
    else
      LeastExists(s);
      var x :| x in s && forall y | y in s && y != x :: Less(x, y);
      [x] + InOrder(s - {x})
  }
}
