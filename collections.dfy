/**
 * The array operations the view code is built from: `filter`, `map`, `find`,
 * `sort` with a numeric comparator (stable, as ECMAScript requires) and the
 * de-duplication done by spreading a `Set`.
 */
module Collections {
  import opened Options

  /** The elements of `s` that satisfy `p`, in their original order (`Array.prototype.filter`). */
  function Filter<T>(s: seq<T>, p: T -> bool): (r: seq<T>)
    ensures |r| <= |s|
  {
    if s == [] then []
    else
      assert s == s[..|s| - 1] + [s[|s| - 1]];
      Filter(s[..|s| - 1], p) + if p(s[|s| - 1]) then [s[|s| - 1]] else []
  }

  /** The filtered sequence holds exactly the elements that pass. */
  lemma {:induction false} FilterMembers<T(!new)>(s: seq<T>, p: T -> bool)
    ensures forall x :: x in Filter(s, p) <==> x in s && p(x)
  {
    if s != [] {
      FilterMembers(s[..|s| - 1], p);
      assert s == s[..|s| - 1] + [s[|s| - 1]];
    }
  }

  /** Filtering one more element of a prefix appends it when it passes. */
  lemma FilterSnoc<T(!new)>(s: seq<T>, i: int, p: T -> bool)
    requires 0 <= i < |s|
    ensures Filter(s[..i + 1], p) == Filter(s[..i], p) + if p(s[i]) then [s[i]] else []
  {
    assert s[..i + 1][..i] == s[..i];
  }

  lemma MapSnoc<T, U>(s: seq<T>, x: T, f: T -> U)
    ensures Map(s + [x], f) == Map(s, f) + [f(x)]
  {
    assert (s + [x])[..|s|] == s;
  }

  /** Filtering first by a weaker test changes nothing. */
  lemma {:induction false} FilterOfFilter<T(!new)>(s: seq<T>, p: T -> bool, q: T -> bool)
    requires forall x :: q(x) ==> p(x)
    ensures Filter(Filter(s, p), q) == Filter(s, q)
  {
    if s != [] {
      var n := |s| - 1;
      FilterOfFilter(s[..n], p, q);
      var a := Filter(s[..n], p);
      assert s[..n + 1] == s;
      FilterSnoc(s, n, p);
      FilterSnoc(s, n, q);
      if p(s[n]) {
        FilterSnoc(a + [s[n]], |a|, q);
        assert (a + [s[n]])[..|a| + 1] == a + [s[n]] && (a + [s[n]])[..|a|] == a;
      } else {
        assert Filter(s, p) == a + [] == a;
        assert Filter(s, q) == Filter(s[..n], q) + [] == Filter(s[..n], q);
      }
    }
  }

  /** `Array.prototype.map`. */
  function Map<T, U>(s: seq<T>, f: T -> U): (r: seq<U>)
    ensures |r| == |s|
    ensures forall i :: 0 <= i < |s| ==> r[i] == f(s[i])
  {
    if s == [] then [] else Map(s[..|s| - 1], f) + [f(s[|s| - 1])]
  }

  /** The index of the first element satisfying `p`, if any. */
  function FindIndex<T>(s: seq<T>, p: T -> bool): (r: Option<nat>)
    ensures r.Some? ==> r.value < |s| && p(s[r.value]) && forall j :: 0 <= j < r.value ==> !p(s[j])
    ensures r.None? ==> forall j :: 0 <= j < |s| ==> !p(s[j])
  {
    if s == [] then None
    else if p(s[0]) then Some(0)
    else match FindIndex(s[1..], p)
      case None => None
      case Some(i) => Some(i + 1)
  }

  /** `Array.prototype.find`: the first element satisfying `p`, or `undefined` (None). */
  function Find<T(!new)>(s: seq<T>, p: T -> bool): (r: Option<T>)
    ensures r.None? <==> forall x :: x in s ==> !p(x)
    ensures r.Some? ==> r.value in s && p(r.value)
    ensures r.Some? ==> exists i :: 0 <= i < |s| && s[i] == r.value && forall j :: 0 <= j < i ==> !p(s[j])
  {
    match FindIndex(s, p)
    case Some(i) =>
      assert s[i] == s[i];
      Some(s[i])
    case None => None
  }

  /** `i` is the first index of `s` whose element satisfies `p`. */
  ghost predicate FirstAt<T>(s: seq<T>, p: T -> bool, i: int) {
    0 <= i < |s| && p(s[i]) && forall j :: 0 <= j < i ==> !p(s[j])
  }

  /** Find returns something exactly when some index is the first to satisfy `p`, and then the element there. */
  lemma FirstIsFound<T(!new)>(s: seq<T>, p: T -> bool)
    ensures Find(s, p).Some? <==> exists i :: FirstAt(s, p, i)
    ensures forall i :: FirstAt(s, p, i) ==> Find(s, p) == Some(s[i])
  {
    var r := Find(s, p);
    if r.Some? {
      var k :| 0 <= k < |s| && s[k] == r.value && forall j :: 0 <= j < k ==> !p(s[j]);
      assert FirstAt(s, p, k);
      forall i | FirstAt(s, p, i)
        ensures r == Some(s[i])
      {
        assert p(s[k]);
      }
    } else {
      forall i | 0 <= i < |s|
        ensures !FirstAt(s, p, i)
      {
        assert s[i] in s;
      }
    }
  }

  /** When every element satisfying `p` is the same value, the order of the sequence does not matter to Find. */
  lemma FindIgnoresOrder<T(!new)>(s: seq<T>, t: seq<T>, p: T -> bool)
    requires multiset(s) == multiset(t)
    requires forall x, y :: x in s && y in s && p(x) && p(y) ==> x == y
    ensures Find(s, p) == Find(t, p)
  {
    forall x
      ensures x in s <==> x in t
    {
      assert x in s <==> x in multiset(s);
      assert x in t <==> x in multiset(t);
    }
  }

  ghost predicate SortedBy<T>(s: seq<T>, key: T -> int) {
    forall i, j :: 0 <= i < j < |s| ==> key(s[i]) <= key(s[j])
  }

  predicate NoDuplicates<T(==)>(s: seq<T>) {
    forall i, j :: 0 <= i < j < |s| ==> s[i] != s[j]
  }

  /** Inserts `x` after every element whose key is not greater than its own. */
  function Insert<T>(x: T, s: seq<T>, key: T -> int): (r: seq<T>)
    ensures multiset(r) == multiset(s) + multiset{x}
    ensures |r| == |s| + 1
  {
    if s == [] then [x]
    else if key(x) < key(s[0]) then [x] + s
    else
      assert s == [s[0]] + s[1..];
      [s[0]] + Insert(x, s[1..], key)
  }

  /**
   * Stable insertion sort in ascending key order: `sort((a, b) => key(a) - key(b))`.
   * The last element is inserted behind every earlier element of equal key.
   */
  function SortBy<T>(s: seq<T>, key: T -> int): (r: seq<T>)
    ensures multiset(r) == multiset(s)
    ensures |r| == |s|
  {
    if s == [] then []
    else
      assert s == s[..|s| - 1] + [s[|s| - 1]];
      Insert(s[|s| - 1], SortBy(s[..|s| - 1], key), key)
  }

  /** Insert adds only `x`, so a lower bound on the keys of `x` and of `s` bounds the result too. */
  lemma {:induction false} InsertKeepsLowerBound<T>(x: T, s: seq<T>, key: T -> int, lo: int)
    requires lo <= key(x) && forall k :: 0 <= k < |s| ==> lo <= key(s[k])
    ensures forall j :: 0 <= j < |Insert(x, s, key)| ==> lo <= key(Insert(x, s, key)[j])
  {
    if s != [] && key(x) >= key(s[0]) {
      InsertKeepsLowerBound(x, s[1..], key, lo);
    }
  }

  lemma {:induction false} InsertSorted<T>(x: T, s: seq<T>, key: T -> int)
    requires SortedBy(s, key)
    ensures SortedBy(Insert(x, s, key), key)
  {
    if s != [] && key(x) >= key(s[0]) {
      InsertSorted(x, s[1..], key);
      InsertKeepsLowerBound(x, s[1..], key, key(s[0]));
    }
  }

  lemma {:induction false} SortBySorted<T>(s: seq<T>, key: T -> int)
    ensures SortedBy(SortBy(s, key), key)
  {
    if s != [] {
      SortBySorted(s[..|s| - 1], key);
      InsertSorted(s[|s| - 1], SortBy(s[..|s| - 1], key), key);
    }
  }

  lemma {:induction false} InsertKeepsNoDuplicates<T>(x: T, s: seq<T>, key: T -> int)
    requires NoDuplicates(s) && x !in s
    ensures NoDuplicates(Insert(x, s, key))
  {
    if s != [] && key(x) >= key(s[0]) {
      var tail := s[1..];
      assert x !in tail;
      InsertKeepsNoDuplicates(x, tail, key);
      var r := Insert(x, tail, key);
      assert s[0] !in tail;
      assert s[0] !in multiset(tail) + multiset{x};
      assert s[0] !in r;
    }
  }

  /** Sorting a duplicate-free sequence leaves it duplicate-free. */
  lemma {:induction false} SortByKeepsNoDuplicates<T>(s: seq<T>, key: T -> int)
    requires NoDuplicates(s)
    ensures NoDuplicates(SortBy(s, key))
  {
    if s != [] {
      var init, last := s[..|s| - 1], s[|s| - 1];
      SortByKeepsNoDuplicates(init, key);
      assert last !in init;
      assert last !in multiset(SortBy(init, key));
      InsertKeepsNoDuplicates(last, SortBy(init, key), key);
    }
  }

  /** `[...new Set(s)]`: each value once, at its first occurrence. */
  function Distinct<T(==,!new)>(s: seq<T>): (r: seq<T>)
    ensures NoDuplicates(r)
    ensures forall x :: x in r <==> x in s
  {
    if s == [] then []
    else
      var d := Distinct(s[..|s| - 1]);
      assert s == s[..|s| - 1] + [s[|s| - 1]];
      if s[|s| - 1] in d then d else d + [s[|s| - 1]]
  }

  /** Each element of the result occurs in `s` exactly as often as in the input when it satisfies `p`, else never. */
  lemma {:induction false} FilterCount<T(!new)>(s: seq<T>, p: T -> bool, x: T)
    ensures multiset(Filter(s, p))[x] == if p(x) then multiset(s)[x] else 0
  {
    if s != [] {
      var n := |s| - 1;
      FilterCount(s[..n], p, x);
      assert s == s[..n] + [s[n]];
    }
  }

  /** Filtering keeps a sorted sequence sorted (it keeps the input order). */
  lemma {:induction false} FilterSorted<T(!new)>(s: seq<T>, p: T -> bool, key: T -> int)
    requires SortedBy(s, key)
    ensures SortedBy(Filter(s, p), key)
  {
    if s != [] {
      var init, last := s[..|s| - 1], s[|s| - 1];
      FilterSorted(init, p, key);
      FilterMembers(init, p);
      var f := Filter(init, p);
      forall i | 0 <= i < |f|
        ensures key(f[i]) <= key(last)
      {
        assert f[i] in init;
        var k :| 0 <= k < |init| && init[k] == f[i];
        assert s[k] == f[i];
      }
    }
  }

  /**
   * Two sequences that correspond position by position, with the same verdict of the
   * filters and the same image under `f`, give filtered results with the same images.
   */
  lemma {:induction false} FilterMapCorresponding<T(!new), U>(a: seq<T>, b: seq<T>, p: T -> bool, q: T -> bool, f: T -> U)
    requires |a| == |b|
    requires forall i :: 0 <= i < |a| ==> p(a[i]) == q(b[i]) && f(a[i]) == f(b[i])
    ensures Map(Filter(a, p), f) == Map(Filter(b, q), f)
  {
    if a != [] {
      var n := |a| - 1;
      FilterMapCorresponding(a[..n], b[..n], p, q, f);
      FilterSnoc(a, n, p);
      FilterSnoc(b, n, q);
      assert a[..n + 1] == a && b[..n + 1] == b;
      if p(a[n]) {
        MapSnoc(Filter(a[..n], p), a[n], f);
        MapSnoc(Filter(b[..n], q), b[n], f);
      }
    }
  }

  /** Sorting neither adds nor drops a value. */
  lemma SortByMembers<T>(s: seq<T>, key: T -> int, x: T)
    ensures x in SortBy(s, key) <==> x in s
  {
    assert x in SortBy(s, key) <==> x in multiset(SortBy(s, key));
    assert x in s <==> x in multiset(s);
  }

  /** `x` appears at exactly one position of `s`. */
  predicate OccursOnce<T(==)>(s: seq<T>, x: T) {
    multiset(s)[x] == 1
  }

  lemma {:induction false} NoDuplicatesOccursOnce<T>(s: seq<T>, x: T)
    requires NoDuplicates(s) && x in s
    ensures OccursOnce(s, x)
  {
    var init, last := s[..|s| - 1], s[|s| - 1];
    assert s == init + [last];
    if last == x {
      assert x !in init;
    } else {
      NoDuplicatesOccursOnce(init, x);
    }
  }
}
