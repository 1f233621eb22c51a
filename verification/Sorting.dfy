/** Go's sort package, as far as its callers rely on it: a sorted arrangement of distinct
    elements is unique, so it does not depend on the order the elements arrived in. */
module Sorting {
  import Strings

  function Elements<T>(s: seq<T>): set<T> {
    set x | x in s
  }

  ghost predicate Distinct<T>(s: seq<T>) {
    forall i, j | 0 <= i < j < |s| :: s[i] != s[j]
  }

  ghost predicate SameAt<K, V>(m: map<K, V>, m': map<K, V>, k: K) {
    (k in m <==> k in m') && (k in m ==> m[k] == m'[k])
  }

  lemma SameMap<K, V>(m: map<K, V>, m': map<K, V>, keys: set<K>)
    requires m.Keys <= keys && m'.Keys <= keys && forall k | k in keys :: SameAt(m, m', k)
    ensures m == m'
  {
    assert forall k | k in m.Keys + m'.Keys :: k in keys && SameAt(m, m', k);
  }

  lemma {:induction false} SubsetSize<T>(a: set<T>, b: set<T>)
    requires a <= b
    ensures |a| <= |b|
  {
    if a != {} {
      var x :| x in a;
      SubsetSize(a - {x}, b - {x});
    }
  }

  lemma {:induction false} DistinctSize<T>(s: seq<T>)
    requires Distinct(s)
    ensures |Elements(s)| == |s|
  {
    if |s| == 0 {
      assert Elements(s) == {};
    } else {
      var init, x := s[..|s| - 1], s[|s| - 1];
      assert s == init + [x];
      DistinctSize(init);
      assert x !in init;
      assert Elements(s) == Elements(init) + {x} && x !in Elements(init);
    }
  }

  /** `less` is a strict linear order on `xs`. */
  ghost predicate Linear<T(!new)>(less: (T, T) -> bool, xs: set<T>) {
    && (forall x | x in xs :: !less(x, x))
    && (forall x, y | x in xs && y in xs :: x == y || less(x, y) || less(y, x))
    && (forall x, y, z | x in xs && y in xs && z in xs :: less(x, y) && less(y, z) ==> less(x, z))
  }

  ghost predicate Ascending<T>(less: (T, T) -> bool, s: seq<T>) {
    forall i, j | 0 <= i < j < |s| :: less(s[i], s[j])
  }

  function Insert<T>(less: (T, T) -> bool, x: T, s: seq<T>): (r: seq<T>)
    ensures |r| == |s| + 1
    ensures Elements(r) == Elements(s) + {x}
  {
    if |s| == 0 || less(x, s[0]) then
      assert Elements([x] + s) == Elements(s) + {x};
      [x] + s
    else
      var t := Insert(less, x, s[1..]);
      assert Elements(s) == {s[0]} + Elements(s[1..]);
      assert Elements([s[0]] + t) == {s[0]} + Elements(t);
      [s[0]] + t
  }

  function Sort<T>(less: (T, T) -> bool, s: seq<T>): (r: seq<T>)
    ensures |r| == |s|
    ensures Elements(r) == Elements(s)
  {
    if |s| == 0 then []
    else
      assert Elements(s) == {s[0]} + Elements(s[1..]);
      Insert(less, s[0], Sort(less, s[1..]))
  }

  lemma {:induction false} InsertAscending<T(!new)>(less: (T, T) -> bool, x: T, s: seq<T>)
    requires Linear(less, Elements(s) + {x}) && x !in s
    requires Ascending(less, s)
    ensures Ascending(less, Insert(less, x, s))
  {
    if |s| != 0 && !less(x, s[0]) {
      var tail := s[1..];
      var t := Insert(less, x, tail);
      assert Elements(tail) <= Elements(s);
      InsertAscending(less, x, tail);
      forall i | 0 <= i < |t| ensures less(s[0], t[i]) {
        assert t[i] in Elements(t);
        if t[i] != x {
          assert t[i] in tail;
        }
      }
    } else if |s| != 0 {
      forall i | 0 <= i < |s| ensures less(x, s[i]) {
        assert s[i] in Elements(s) && s[0] in Elements(s);
      }
    }
  }

  lemma {:induction false} SortAscending<T(!new)>(less: (T, T) -> bool, s: seq<T>)
    requires Linear(less, Elements(s)) && Distinct(s)
    ensures Ascending(less, Sort(less, s))
  {
    if |s| != 0 {
      var tail := s[1..];
      assert Elements(s) == Elements(Sort(less, tail)) + {s[0]};
      assert Elements(tail) <= Elements(s);
      SortAscending(less, tail);
      assert s[0] !in Elements(Sort(less, tail));
      InsertAscending(less, s[0], Sort(less, tail));
    }
  }

  lemma HeadIn<T>(s: seq<T>)
    ensures |s| > 0 ==> s[0] in Elements(s)
  {
  }

  lemma {:induction false} AscendingUnique<T(!new)>(less: (T, T) -> bool, s: seq<T>, t: seq<T>)
    requires Linear(less, Elements(s))
    requires Ascending(less, s) && Ascending(less, t)
    requires Elements(s) == Elements(t)
    ensures s == t
  {
    if |s| == 0 {
      HeadIn(t);
    } else {
      assert s[0] in Elements(t) && |t| != 0;
      assert t[0] in Elements(s);
      var i :| 0 <= i < |t| && t[i] == s[0];
      var j :| 0 <= j < |s| && s[j] == t[0];
      assert s[0] == t[0];
      TailElements(less, s);
      TailElements(less, t);
      AscendingUnique(less, s[1..], t[1..]);
      assert s == [s[0]] + s[1..] && t == [t[0]] + t[1..];
    }
  }

  lemma TailElements<T(!new)>(less: (T, T) -> bool, s: seq<T>)
    requires |s| > 0 && Linear(less, Elements(s)) && Ascending(less, s)
    ensures Elements(s[1..]) == Elements(s) - {s[0]}
  {
    assert s[0] in Elements(s);
    forall x | x in Elements(s) - {s[0]} ensures x in s[1..] {
      var i :| 0 <= i < |s| && s[i] == x;
      assert s[1..][i - 1] == x;
    }
  }

  ghost function Below<T(!new)>(less: (T, T) -> bool, xs: set<T>, x: T): set<T> {
    set y | y in xs && less(y, x)
  }

  /** An element's place in a sorted list is the number of elements below it. */
  lemma RankIs<T(!new)>(less: (T, T) -> bool, s: seq<T>, i: nat)
    requires Linear(less, Elements(s)) && Ascending(less, s) && i < |s|
    ensures |Below(less, Elements(s), s[i])| == i
  {
    var below := s[..i];
    forall a, b | 0 <= a < b < |s| ensures s[a] != s[b] {
      assert s[a] in Elements(s);
    }
    DistinctSize(below);
    forall x | x in Elements(s) ensures less(x, s[i]) <==> x in Elements(below) {
      var j :| 0 <= j < |s| && s[j] == x;
      assert s[i] in Elements(s);
      if j < i {
        assert below[j] == x;
      }
    }
    assert Below(less, Elements(s), s[i]) == Elements(below);
  }

  /** Sorting forgets the order of arrival. */
  lemma SortUnique<T(!new)>(less: (T, T) -> bool, s: seq<T>, t: seq<T>)
    requires Linear(less, Elements(s)) && Distinct(s) && Distinct(t)
    requires Elements(s) == Elements(t)
    ensures Sort(less, s) == Sort(less, t)
  {
    SortAscending(less, s);
    SortAscending(less, t);
    AscendingUnique(less, Sort(less, s), Sort(less, t));
  }

  ghost predicate IsSortedSeq(m: set<string>, r: seq<string>) {
    Elements(r) == m && Ascending(Strings.Less, r)
  }

  lemma {:induction false} SortedExists(m: set<string>)
    ensures exists r :: IsSortedSeq(m, r)
  {
    if m == {} {
      assert IsSortedSeq(m, []);
    } else {
      var x :| x in m;
      SortedExists(m - {x});
      var rest :| IsSortedSeq(m - {x}, rest);
      StringsLinear(m);
      assert Elements(rest) + {x} == m;
      assert x !in rest by { assert x !in Elements(rest); }
      InsertAscending(Strings.Less, x, rest);
      assert IsSortedSeq(m, Insert(Strings.Less, x, rest));
    }
  }

  /** The strings of a set in ascending order. */
  ghost function SortedSeq(m: set<string>): seq<string> {
    SortedExists(m);
    var r :| IsSortedSeq(m, r);
    r
  }

  lemma StringsLinear(xs: set<string>)
    ensures Linear(Strings.Less, xs)
  {
    forall x, y | x in xs && y in xs
      ensures !Strings.Less(x, x) && (x == y || Strings.Less(x, y) || Strings.Less(y, x))
    {
      Strings.LessTotal(x, y);
      Strings.LessTotal(x, x);
    }
    forall x, y, z | x in xs && y in xs && z in xs && Strings.Less(x, y) && Strings.Less(y, z)
      ensures Strings.Less(x, z)
    {
      Strings.LessTransitive(x, y, z);
    }
  }

  /** mapKeysSorted (pkg/daemon/daemon.go): collect the keys in whatever order the map is walked, then sort. */
  method MapKeysSorted(m: set<string>) returns (out: seq<string>)
    ensures out == SortedSeq(m)
  {
    out := [];
    var todo := m;
    while todo != {}
      invariant todo <= m && Elements(out) == m - todo && Distinct(out)
      decreases |todo|
    {
      var k :| k in todo;
      assert k !in Elements(out);
      out := out + [k];
      assert Elements(out) == (m - todo) + {k};
      todo := todo - {k};
    }
    StringsLinear(m);
    SortAscending(Strings.Less, out);
    AscendingUnique(Strings.Less, Sort(Strings.Less, out), SortedSeq(m));
    out := Sort(Strings.Less, out);
  }
}
