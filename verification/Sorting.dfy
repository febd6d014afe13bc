/** Python's `sorted`, a stable insertion sort by any order of the elements. */
module Sorting {

  function Insert<T>(x: T, s: seq<T>, less: (T, T) -> bool): (r: seq<T>)
    ensures multiset(r) == multiset(s) + multiset{x}
  {
    if s == [] || !less(s[0], x) then [x] + s
    else
      assert s == [s[0]] + s[1..];
      [s[0]] + Insert(x, s[1..], less)
  }

  function Sort<T>(s: seq<T>, less: (T, T) -> bool): (r: seq<T>)
    ensures multiset(r) == multiset(s)
  {
    if s == [] then []
    else
      assert s == [s[0]] + s[1..];
      Insert(s[0], Sort(s[1..], less), less)
  }

  /** Nothing comes before something smaller. */
  ghost predicate Sorted<T>(s: seq<T>, less: (T, T) -> bool) {
    forall i, j | 0 <= i < j < |s| :: !less(s[j], s[i])
  }

  /** What a strict weak order satisfies: not both ways, and not being less is transitive. */
  predicate OrdersAt<T>(less: (T, T) -> bool, x: T, y: T, z: T) {
    && !(less(x, y) && less(y, x))
    && (!less(y, x) && !less(z, y) ==> !less(z, x))
  }

  ghost predicate Orders<T>(less: (T, T) -> bool, s: seq<T>) {
    forall x, y, z | x in s && y in s && z in s :: OrdersAt(less, x, y, z)
  }

  lemma {:induction false} InsertSorts<T>(x: T, s: seq<T>, less: (T, T) -> bool)
    requires Sorted(s, less) && Orders(less, [x] + s)
    ensures Sorted(Insert(x, s, less), less)
  {
    if s == [] {
    } else if !less(s[0], x) {
      forall j | 0 <= j < |s| ensures !less(s[j], x) {
        assert OrdersAt(less, x, s[0], s[j]);
      }
    } else {
      assert forall y | y in [x] + s[1..] :: y in [x] + s;
      InsertSorts(x, s[1..], less);
      var r := Insert(x, s[1..], less);
      forall j | 0 <= j < |r| ensures !less(r[j], s[0]) {
        assert r[j] in multiset(r);
        assert r[j] == x || r[j] in multiset(s[1..]);
        assert OrdersAt(less, s[0], x, x);
      }
    }
  }

  lemma {:induction false} SortSorts<T>(s: seq<T>, less: (T, T) -> bool)
    requires Orders(less, s)
    ensures Sorted(Sort(s, less), less)
  {
    if s != [] {
      var rest := Sort(s[1..], less);
      SortSorts(s[1..], less);
      forall y | y in rest ensures y in s {
        assert y in multiset(rest);
        assert y in multiset(s[1..]);
        assert y in s[1..];
      }
      InsertSorts(s[0], rest, less);
    }
  }
}
