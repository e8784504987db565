/** The order in which the stores list their rows.

    Every listing of the sitemap stores comes from an SQLite `ORDER BY` on TEXT
    columns under the default BINARY collation, which compares the UTF-8 bytes;
    for well-formed text that is the lexicographic order of code points. This
    module defines that order, proves it a strict total order, and gives the
    ascending listing of a finite set of keys, both as a specification
    (`Ordered`) and as a selection sort (`Sort`) that the stores run in place of
    the SQL engine. */
module Ordering {

  /** Lexicographic order on code points: `a` sorts strictly before `b`. */
  predicate StrLess(a: string, b: string)
    decreases |a|
  {
    |b| > 0 && (|a| == 0 || a[0] < b[0] || (a[0] == b[0] && StrLess(a[1..], b[1..])))
  }

  /** `ORDER BY loc ASC, image_loc ASC`: first column, then second. */
  predicate PairLess(a: (string, string), b: (string, string)) {
    StrLess(a.0, b.0) || (a.0 == b.0 && StrLess(a.1, b.1))
  }

  lemma {:induction false} StrLessIrreflexive(a: string)
    ensures !StrLess(a, a)
    decreases |a|
  {
    if |a| > 0 {
      StrLessIrreflexive(a[1..]);
    }
  }

  lemma {:induction false} StrLessTransitive(a: string, b: string, c: string)
    requires StrLess(a, b) && StrLess(b, c)
    ensures StrLess(a, c)
    decreases |a|
  {
    if |a| > 0 && a[0] == b[0] && b[0] == c[0] {
      StrLessTransitive(a[1..], b[1..], c[1..]);
    }
  }

  lemma {:induction false} StrLessTotal(a: string, b: string)
    ensures a == b || StrLess(a, b) || StrLess(b, a)
    decreases |a|
  {
    if |a| > 0 && |b| > 0 && a[0] == b[0] {
      StrLessTotal(a[1..], b[1..]);
      if a[1..] == b[1..] {
        assert a == [a[0]] + a[1..] && b == [b[0]] + b[1..];
      }
    }
  }

  /** Irreflexive, transitive and total: a strict total order on `K`. */
  ghost predicate StrictTotalOrder<K(!new)>(less: (K, K) -> bool) {
    && (forall x :: !less(x, x))
    && (forall x, y, z :: less(x, y) && less(y, z) ==> less(x, z))
    && (forall x, y :: x == y || less(x, y) || less(y, x))
  }

  lemma StrLessOrder()
    ensures StrictTotalOrder(StrLess)
  {
    forall x: string ensures !StrLess(x, x) {
      StrLessIrreflexive(x);
    }
    forall x: string, y: string, z: string | StrLess(x, y) && StrLess(y, z)
      ensures StrLess(x, z)
    {
      StrLessTransitive(x, y, z);
    }
    forall x: string, y: string ensures x == y || StrLess(x, y) || StrLess(y, x) {
      StrLessTotal(x, y);
    }
  }

  lemma PairLessOrder()
    ensures StrictTotalOrder(PairLess)
  {
    StrLessOrder();
  }

  /** Strictly ascending, hence also free of duplicates. */
  predicate SortedBy<K>(s: seq<K>, less: (K, K) -> bool) {
    forall i, j :: 0 <= i < j < |s| ==> less(s[i], s[j])
  }

  function Elements<K>(s: seq<K>): set<K> {
    set x | x in s
  }

  lemma ElementsEmpty<K>(s: seq<K>)
    ensures Elements(s) == {} <==> s == []
  {
    if s != [] {
      assert s[0] in Elements(s);
    }
  }

  ghost predicate IsLeast<K>(m: K, s: set<K>, less: (K, K) -> bool) {
    m in s && forall y :: y in s && y != m ==> less(m, y)
  }

  lemma {:induction false} LeastExists<K(!new)>(s: set<K>, less: (K, K) -> bool)
    requires s != {} && StrictTotalOrder(less)
    ensures exists m :: IsLeast(m, s, less)
    decreases s
  {
    var x :| x in s;
    if s != {x} {
      LeastExists(s - {x}, less);
      var m :| IsLeast(m, s - {x}, less);
      if less(x, m) {
        forall y | y in s && y != x ensures less(x, y) {
          if y != m {
            assert less(m, y);
          }
        }
        assert IsLeast(x, s, less);
      } else {
        assert IsLeast(m, s, less);
      }
    } else {
      assert IsLeast(x, s, less);
    }
  }

  /** The members of `s` in ascending order: the listing `ORDER BY` yields. */
  ghost function Ordered<K(!new)>(s: set<K>, less: (K, K) -> bool): (r: seq<K>)
    requires StrictTotalOrder(less)
    ensures SortedBy(r, less) && Elements(r) == s && |r| == |s|
    decreases s
  {
    if s == {} then []
    else
      LeastExists(s, less);
      var m :| IsLeast(m, s, less);
      var rest := Ordered(s - {m}, less);
      OrderedCons(m, s, rest, less);
      [m] + rest
  }

  /** The least member followed by the ascending listing of the others is the ascending listing of all. */
  lemma OrderedCons<K(!new)>(m: K, s: set<K>, rest: seq<K>, less: (K, K) -> bool)
    requires IsLeast(m, s, less)
    requires SortedBy(rest, less) && Elements(rest) == s - {m} && |rest| == |s - {m}|
    ensures SortedBy([m] + rest, less) && Elements([m] + rest) == s && |[m] + rest| == |s|
  {
    var r := [m] + rest;
    assert Elements(r) == {m} + Elements(rest);
    forall i, j | 0 <= i < j < |r| ensures less(r[i], r[j]) {
      if i > 0 {
        assert r[i] == rest[i - 1] && r[j] == rest[j - 1];
      } else {
        assert r[j] == rest[j - 1] && r[j] in Elements(rest);
      }
    }
  }

  /** Two ascending sequences with the same members are the same sequence. */
  lemma {:induction false} SortedUnique<K(!new)>(a: seq<K>, b: seq<K>, less: (K, K) -> bool)
    requires StrictTotalOrder(less)
    requires SortedBy(a, less) && SortedBy(b, less) && Elements(a) == Elements(b)
    ensures a == b
    decreases |a|
  {
    ElementsEmpty(a);
    ElementsEmpty(b);
    if a != [] && b != [] {
      assert a[0] in Elements(b);
      assert b[0] in Elements(a);
      var i :| 0 <= i < |a| && a[i] == b[0];
      var j :| 0 <= j < |b| && b[j] == a[0];
      if a[0] != b[0] {
        assert false;
      }
      assert Elements(a[1..]) == Elements(a) - {a[0]} by {
        forall k | 0 < k < |a| ensures a[k] != a[0] { assert less(a[0], a[k]); }
        assert a == [a[0]] + a[1..];
      }
      assert Elements(b[1..]) == Elements(b) - {b[0]} by {
        forall k | 0 < k < |b| ensures b[k] != b[0] { assert less(b[0], b[k]); }
        assert b == [b[0]] + b[1..];
      }
      SortedUnique(a[1..], b[1..], less);
      assert a == [a[0]] + a[1..] && b == [b[0]] + b[1..];
    }
  }

  /** The least member of a non-empty set, found by one pass over it. */
  method Least<K(==,!new)>(s: set<K>, less: (K, K) -> bool) returns (m: K)
    requires s != {} && StrictTotalOrder(less)
    ensures IsLeast(m, s, less)
  {
    m :| m in s;
    var rest := s - {m};
    while rest != {}
      invariant rest <= s && m in s && m !in rest
      invariant forall y :: y in s && y !in rest && y != m ==> less(m, y)
      decreases rest
    {
      var x :| x in rest;
      if less(x, m) {
        m := x;
      }
      rest := rest - {x};
    }
  }

  /** Selection sort of a key set: the model of the SQL engine's `ORDER BY`. */
  method Sort<K(==,!new)>(s: set<K>, less: (K, K) -> bool) returns (r: seq<K>)
    requires StrictTotalOrder(less)
    ensures r == Ordered(s, less)
  {
    r := [];
    var rest := s;
    while rest != {}
      invariant SortInvariant(s, r, rest, less)
      decreases rest
    {
      var m := Least(rest, less);
      SortStep(s, r, rest, m, less);
      r := r + [m];
      rest := rest - {m};
    }
    SortedUnique(r, Ordered(s, less), less);
  }

  /** `r` holds, in order, the members of `s` already taken; `rest` the others, all above them. */
  ghost predicate SortInvariant<K>(s: set<K>, r: seq<K>, rest: set<K>, less: (K, K) -> bool) {
    && Elements(r) + rest == s && Elements(r) !! rest
    && SortedBy(r, less)
    && (forall i, y :: 0 <= i < |r| && y in rest ==> less(r[i], y))
  }

  lemma SortStep<K(!new)>(s: set<K>, r: seq<K>, rest: set<K>, m: K, less: (K, K) -> bool)
    requires StrictTotalOrder(less)
    requires SortInvariant(s, r, rest, less) && IsLeast(m, rest, less)
    ensures SortInvariant(s, r + [m], rest - {m}, less)
  {
    assert Elements(r + [m]) == Elements(r) + {m};
  }
}
