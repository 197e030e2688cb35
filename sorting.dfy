/** The stable sort used twice by the extractor (Python's `list.sort(key=...)`
    on events) and once by the page script (`Array.prototype.sort` with a
    comparator on columns, stable since ES2019), written as an insertion
    sort over a total preorder `le`. */
module Sorting {

  ghost predicate TotalPreorder<T(!new)>(le: (T, T) -> bool) {
    && (forall a, b :: le(a, b) || le(b, a))
    && (forall a, b, c :: le(a, b) && le(b, c) ==> le(a, c))
  }

  ghost predicate Antisymmetric<T(!new)>(le: (T, T) -> bool) {
    forall a, b :: le(a, b) && le(b, a) ==> a == b
  }

  predicate Sorted<T>(s: seq<T>, le: (T, T) -> bool) {
    forall i, j :: 0 <= i < j < |s| ==> le(s[i], s[j])
  }

  predicate Distinct<T(==)>(s: seq<T>) {
    forall i, j :: 0 <= i < j < |s| ==> s[i] != s[j]
  }

  function Elements<T>(s: seq<T>): set<T> {
    set x | x in s
  }

  /** Puts `x` after every element of `s` that is not greater than it. */
  function Insert<T>(s: seq<T>, x: T, le: (T, T) -> bool): (r: seq<T>)
    ensures multiset(r) == multiset(s) + multiset{x}
  {
    if s == [] then [x]
    else if le(s[0], x) then
      assert s == [s[0]] + s[1..];
      [s[0]] + Insert(s[1..], x, le)
    else [x] + s
  }

  /** Inserts the elements one by one, in input order, into a sorted prefix. */
  function Sort<T>(s: seq<T>, le: (T, T) -> bool): (r: seq<T>)
    ensures multiset(r) == multiset(s)
  {
    if s == [] then []
    else
      assert s == s[..|s| - 1] + [s[|s| - 1]];
      Insert(Sort(s[..|s| - 1], le), s[|s| - 1], le)
  }

  lemma {:induction false} InsertSorted<T(!new)>(s: seq<T>, x: T, le: (T, T) -> bool)
    requires TotalPreorder(le) && Sorted(s, le)
    ensures Sorted(Insert(s, x, le), le)
  {
    if s != [] && le(s[0], x) {
      SortedTail(s, le);
      InsertSorted(s[1..], x, le);
      var r := Insert(s[1..], x, le);
      assert s == [s[0]] + s[1..];
      forall j | 0 < j < |r| + 1 ensures le(([s[0]] + r)[0], ([s[0]] + r)[j]) {
        var y := r[j - 1];
        assert y in multiset(r);
        assert y in multiset(s[1..]) || y == x;
      }
    }
  }

  /** Two elements already in order stay as they are. */
  lemma {:induction false} SortPair<T>(x: T, y: T, le: (T, T) -> bool)
    requires le(x, y)
    ensures Sort([x, y], le) == [x, y]
  {
    assert [x, y][..1] == [x];
    assert [x][..0] == [];
    assert Sort([x], le) == [x];
    assert Insert([x], y, le) == [x] + Insert([], y, le);
  }

  /** The output of `Sort` is ordered by `le`. */
  lemma {:induction false} SortSorted<T(!new)>(s: seq<T>, le: (T, T) -> bool)
    requires TotalPreorder(le)
    ensures Sorted(Sort(s, le), le)
  {
    if s != [] {
      SortSorted(s[..|s| - 1], le);
      InsertSorted(Sort(s[..|s| - 1], le), s[|s| - 1], le);
    }
  }

  /** The elements of `s` equivalent to `y` under `le`, in order. */
  function Ties<T>(s: seq<T>, y: T, le: (T, T) -> bool): (r: seq<T>)
    ensures |r| <= |s|
  {
    if s == [] then []
    else (if le(y, s[0]) && le(s[0], y) then [s[0]] else []) + Ties(s[1..], y, le)
  }

  lemma {:induction false} TiesAppend<T>(s: seq<T>, x: T, y: T, le: (T, T) -> bool)
    ensures Ties(s + [x], y, le) == Ties(s, y, le) + Ties([x], y, le)
  {
    if s != [] {
      assert (s + [x])[1..] == s[1..] + [x];
      TiesAppend(s[1..], x, y, le);
    }
  }

  lemma {:induction false} TiesOfGreater<T(!new)>(s: seq<T>, x: T, y: T, le: (T, T) -> bool)
    requires TotalPreorder(le) && Sorted(s, le)
    requires s != [] && !le(s[0], x) && le(x, y) && le(y, x)
    ensures Ties(s, y, le) == []
  {
    if |s| > 1 {
      TiesOfGreater(s[1..], x, y, le);
    }
  }

  lemma {:induction false} InsertTies<T(!new)>(s: seq<T>, x: T, y: T, le: (T, T) -> bool)
    requires TotalPreorder(le) && Sorted(s, le)
    ensures Ties(Insert(s, x, le), y, le) == Ties(s, y, le) + Ties([x], y, le)
  {
    if s == [] {
    } else if le(s[0], x) {
      SortedTail(s, le);
      InsertTies(s[1..], x, y, le);
      TiesCons(s[0], Insert(s[1..], x, le), y, le);
      TiesCons(s[0], s[1..], y, le);
      assert [s[0]] + s[1..] == s;
    } else {
      TiesCons(x, s, y, le);
      if le(x, y) && le(y, x) {
        TiesOfGreater(s, x, y, le);
      }
    }
  }

  lemma {:induction false} SortedTail<T>(s: seq<T>, le: (T, T) -> bool)
    requires s != [] && Sorted(s, le)
    ensures Sorted(s[1..], le)
  {
    forall i, j | 0 <= i < j < |s| - 1 ensures le(s[1..][i], s[1..][j]) {
      assert s[1..][i] == s[i + 1] && s[1..][j] == s[j + 1];
    }
  }

  lemma {:induction false} TiesCons<T>(h: T, t: seq<T>, y: T, le: (T, T) -> bool)
    ensures Ties([h] + t, y, le) == Ties([h], y, le) + Ties(t, y, le)
  {
    assert ([h] + t)[1..] == t;
    assert [h][1..] == [];
  }

  /** Stability: elements that compare equal keep their input order. */
  lemma {:induction false} SortStable<T(!new)>(s: seq<T>, y: T, le: (T, T) -> bool)
    requires TotalPreorder(le)
    ensures Ties(Sort(s, le), y, le) == Ties(s, y, le)
  {
    if s != [] {
      var init, last := s[..|s| - 1], s[|s| - 1];
      SortStable(init, y, le);
      SortSorted(init, le);
      InsertTies(Sort(init, le), last, y, le);
      assert s == init + [last];
      TiesAppend(init, last, y, le);
    }
  }

  lemma {:induction false} ElementsOfMultiset<T>(a: seq<T>, b: seq<T>)
    requires multiset(a) == multiset(b)
    ensures Elements(a) == Elements(b)
  {
    forall x ensures x in a <==> x in b {
      assert x in a <==> x in multiset(a);
      assert x in b <==> x in multiset(b);
    }
  }

  /** Under a total order there is only one sorted duplicate-free sequence
      with a given set of elements. */
  lemma {:induction false} SortedDistinctUnique<T(!new)>(a: seq<T>, b: seq<T>, le: (T, T) -> bool)
    requires Antisymmetric(le)
    requires Sorted(a, le) && Sorted(b, le) && Distinct(a) && Distinct(b)
    requires Elements(a) == Elements(b)
    ensures a == b
  {
    DistinctCardinality(a);
    DistinctCardinality(b);
    if a != [] {
      assert a[0] in Elements(a);
      assert b[0] in Elements(b);
      var i :| 0 <= i < |a| && a[i] == b[0];
      var j :| 0 <= j < |b| && b[j] == a[0];
      assert le(a[0], a[i]) || i == 0;
      assert le(b[0], b[j]) || j == 0;
      assert a[0] == b[0];
      assert Elements(a[1..]) == Elements(a) - {a[0]} by {
        assert a == [a[0]] + a[1..];
      }
      assert Elements(b[1..]) == Elements(b) - {b[0]} by {
        assert b == [b[0]] + b[1..];
      }
      SortedTail(a, le);
      SortedTail(b, le);
      SortedDistinctUnique(a[1..], b[1..], le);
      assert a == [a[0]] + a[1..] && b == [b[0]] + b[1..];
    }
  }

  /** No two elements share a key. */
  predicate DistinctBy<T, K(==)>(s: seq<T>, key: T -> K) {
    forall i, j :: 0 <= i < j < |s| ==> key(s[i]) != key(s[j])
  }

  /** Sorting keeps a duplicate-free sequence duplicate-free. */
  lemma {:induction false} SortDistinct<T>(s: seq<T>, le: (T, T) -> bool)
    requires Distinct(s)
    ensures Distinct(Sort(s, le))
  {
    SortDistinctBy(s, le, (x: T) => x);
  }

  /** Sorting keeps keys that are distinct distinct. */
  lemma {:induction false} SortDistinctBy<T, K>(s: seq<T>, le: (T, T) -> bool, key: T -> K)
    requires DistinctBy(s, key)
    ensures DistinctBy(Sort(s, le), key)
  {
    if s != [] {
      var n := |s| - 1;
      assert DistinctBy(s[..n], key);
      SortDistinctBy(s[..n], le, key);
      var t := Sort(s[..n], le);
      forall y | y in multiset(t) ensures key(y) != key(s[n]) {
        assert y in s[..n];
      }
      InsertDistinctBy(t, s[n], le, key);
    }
  }

  /** A head whose key no later element shares keeps the keys distinct. */
  lemma {:induction false} ConsDistinctBy<T, K>(h: T, t: seq<T>, key: T -> K)
    requires DistinctBy(t, key)
    requires forall y :: y in multiset(t) ==> key(y) != key(h)
    ensures DistinctBy([h] + t, key)
  {
    forall i, j | 0 <= i < j < |t| + 1 ensures key(([h] + t)[i]) != key(([h] + t)[j]) {
      assert ([h] + t)[j] == t[j - 1];
      if i == 0 {
        assert t[j - 1] in multiset(t);
      } else {
        assert ([h] + t)[i] == t[i - 1];
      }
    }
  }

  lemma {:induction false} HeadKeyDistinct<T, K>(s: seq<T>, key: T -> K)
    requires DistinctBy(s, key) && s != []
    ensures forall y :: y in multiset(s[1..]) ==> key(y) != key(s[0])
  {
    forall y | y in multiset(s[1..]) ensures key(y) != key(s[0]) {
      assert y in s[1..];
      var m :| 0 <= m < |s[1..]| && s[1..][m] == y;
      assert s[m + 1] == y;
    }
  }

  lemma {:induction false} InsertDistinctBy<T, K>(s: seq<T>, x: T, le: (T, T) -> bool, key: T -> K)
    requires DistinctBy(s, key)
    requires forall y :: y in multiset(s) ==> key(y) != key(x)
    ensures DistinctBy(Insert(s, x, le), key)
  {
    if s != [] && le(s[0], x) {
      assert s == [s[0]] + s[1..];
      assert DistinctBy(s[1..], key);
      InsertDistinctBy(s[1..], x, le, key);
      HeadKeyDistinct(s, key);
      var t := Insert(s[1..], x, le);
      forall y | y in multiset(t) ensures key(y) != key(s[0]) {
        if y == x {
          assert s[0] in multiset(s);
        }
      }
      ConsDistinctBy(s[0], t, key);
    } else if s != [] {
      ConsDistinctBy(x, s, key);
    }
  }

  /** A sequence without repetitions has as many elements as positions. */
  lemma {:induction false} DistinctCardinality<T>(s: seq<T>)
    requires Distinct(s)
    ensures |Elements(s)| == |s|
  {
    if s != [] {
      var n := |s| - 1;
      assert s == s[..n] + [s[n]];
      assert Distinct(s[..n]);
      DistinctCardinality(s[..n]);
      assert Elements(s) == Elements(s[..n]) + {s[n]};
      assert s[n] !in Elements(s[..n]);
    }
  }
}
