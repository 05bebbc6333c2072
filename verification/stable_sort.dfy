/**
 * A stable insertion sort over a "comes strictly before" relation, the
 * model of `Array.prototype.sort` with a comparator: since ES2019 that sort
 * is stable, and the output of a stable sort is unique, so any stable
 * algorithm gives the same result.
 */
module StableSort {

  /** `lt` is a strict weak order: asymmetric, and incomparability is
      transitive (if a is before c, every b is after a or before c). */
  ghost predicate StrictWeakOrder<T(!new)>(lt: (T, T) -> bool) {
    && (forall a, b :: lt(a, b) ==> !lt(b, a))
    && (forall a, b, c :: lt(a, c) ==> lt(a, b) || lt(b, c))
  }

  /** No element is strictly before one that precedes it. */
  ghost predicate Sorted<T>(s: seq<T>, lt: (T, T) -> bool) {
    forall i, j :: 0 <= i < j < |s| ==> !lt(s[j], s[i])
  }

  predicate Distinct<T(==)>(s: seq<T>) {
    forall i, j :: 0 <= i < j < |s| ==> s[i] != s[j]
  }

  /** Puts `x` in front of the first element it does not come after. */
  function Insert<T>(x: T, s: seq<T>, lt: (T, T) -> bool): seq<T>
  {
    if s == [] || !lt(s[0], x) then [x] + s
    else [s[0]] + Insert(x, s[1..], lt)
  }

  /** Sorts `s` by `lt`; each element is inserted in front of the equal ones
      that followed it in `s`, so equal elements keep their order. */
  function Sort<T>(s: seq<T>, lt: (T, T) -> bool): seq<T>
  {
    if s == [] then []
    else Insert(s[0], Sort(s[1..], lt), lt)
  }

  /** Sorting only reorders: the result holds the same elements, each as
      many times. */
  lemma {:induction false} SortPermutes<T>(s: seq<T>, lt: (T, T) -> bool)
    ensures multiset(Sort(s, lt)) == multiset(s)
    decreases |s|
  {
    if s != [] {
      SortPermutes(s[1..], lt);
      InsertPermutes(s[0], Sort(s[1..], lt), lt);
      assert s == [s[0]] + s[1..];
    }
  }

  lemma {:induction false} InsertPermutes<T>(x: T, s: seq<T>, lt: (T, T) -> bool)
    ensures multiset(Insert(x, s, lt)) == multiset(s) + multiset{x}
    decreases |s|
  {
    if s != [] && lt(s[0], x) {
      InsertPermutes(x, s[1..], lt);
      assert s == [s[0]] + s[1..];
    }
  }

  /** `Insert(x, s)` places `x` at index `p`: everything before it comes
      strictly before `x`, the element after it does not. */
  lemma {:induction false} InsertShape<T>(x: T, s: seq<T>, lt: (T, T) -> bool) returns (p: nat)
    ensures p <= |s| && Insert(x, s, lt) == s[..p] + [x] + s[p..]
    ensures forall k :: 0 <= k < p ==> lt(s[k], x)
    ensures p < |s| ==> !lt(s[p], x)
    decreases |s|
  {
    if s == [] || !lt(s[0], x) {
      p := 0;
    } else {
      var q := InsertShape(x, s[1..], lt);
      p := q + 1;
      assert s[..p] == [s[0]] + s[1..][..q];
      assert s[p..] == s[1..][q..];
    }
  }

  lemma {:induction false} InsertSorted<T(!new)>(x: T, s: seq<T>, lt: (T, T) -> bool)
    requires StrictWeakOrder(lt)
    requires Sorted(s, lt)
    ensures Sorted(Insert(x, s, lt), lt)
  {
    var p := InsertShape(x, s, lt);
    var r := Insert(x, s, lt);
    forall i, j | 0 <= i < j < |r| ensures !lt(r[j], r[i]) {
      if i < p && j == p {
        assert r[i] == s[i] && r[j] == x;
      } else if i == p && j > p {
        assert r[j] == s[j - 1] && r[i] == x;
        if j - 1 > p {
          assert !lt(s[j - 1], s[p]);
        }
      } else if i < p && j > p {
        assert r[i] == s[i] && r[j] == s[j - 1];
      } else if j < p {
        assert r[i] == s[i] && r[j] == s[j];
      } else {
        assert r[i] == s[i - 1] && r[j] == s[j - 1];
      }
    }
  }

  /** The result of `Sort` is sorted. */
  lemma {:induction false} SortSorted<T(!new)>(s: seq<T>, lt: (T, T) -> bool)
    requires StrictWeakOrder(lt)
    ensures Sorted(Sort(s, lt), lt)
    decreases |s|
  {
    if s != [] {
      SortSorted(s[1..], lt);
      InsertSorted(s[0], Sort(s[1..], lt), lt);
    }
  }

  lemma DistinctByMultiset<T>(s: seq<T>)
    requires forall x :: x in multiset(s) ==> multiset(s)[x] == 1
    ensures Distinct(s)
  {
    forall i, j | 0 <= i < j < |s| ensures s[i] != s[j] {
      assert s == s[..j] + s[j..];
      var before, after := multiset(s[..j]), multiset(s[j..]);
      assert multiset(s)[s[j]] == before[s[j]] + after[s[j]];
      assert s[i] in before && s[j] in after;
    }
  }

  lemma {:induction false} MultisetOfDistinct<T>(s: seq<T>)
    requires Distinct(s)
    ensures forall x :: x in multiset(s) ==> multiset(s)[x] == 1
    decreases |s|
  {
    if s != [] {
      assert s == [s[0]] + s[1..];
      MultisetOfDistinct(s[1..]);
      assert s[0] !in multiset(s[1..]);
    }
  }

  /** Sorting neither duplicates nor merges elements. */
  lemma SortPreservesDistinct<T>(s: seq<T>, lt: (T, T) -> bool)
    requires Distinct(s)
    ensures Distinct(Sort(s, lt))
  {
    MultisetOfDistinct(s);
    SortPermutes(s, lt);
    DistinctByMultiset(Sort(s, lt));
  }

  // ---------------------------------------------------------------------
  // Stability
  // ---------------------------------------------------------------------

  /** The elements of `s` that satisfy `keep`, in order. */
  function Filter<T(!new)>(s: seq<T>, keep: T -> bool): seq<T>
  {
    if s == [] then []
    else if keep(s[0]) then [s[0]] + Filter(s[1..], keep)
    else Filter(s[1..], keep)
  }

  /** The filtered list holds exactly the kept elements, and is no longer
      than the list. */
  lemma {:induction false} FilterMembers<T(!new)>(s: seq<T>, keep: T -> bool)
    ensures |Filter(s, keep)| <= |s|
    ensures forall x :: x in Filter(s, keep) <==> x in s && keep(x)
    decreases |s|
  {
    if s != [] {
      FilterMembers(s[1..], keep);
      assert forall x :: x in s <==> x == s[0] || x in s[1..];
    }
  }

  /** Neither comes strictly before the other. */
  predicate Tied<T>(lt: (T, T) -> bool, a: T, b: T) {
    !lt(a, b) && !lt(b, a)
  }

  /**
   * Stability: for every class of tied elements, the sorted list holds the
   * members of the class in the order they had in the input.
   */
  lemma {:induction false} SortIsStable<T(!new)>(s: seq<T>, lt: (T, T) -> bool, e: T)
    requires StrictWeakOrder(lt)
    ensures Filter(Sort(s, lt), x => Tied(lt, x, e)) == Filter(s, x => Tied(lt, x, e))
    decreases |s|
  {
    if s != [] {
      SortIsStable(s[1..], lt, e);
      InsertIsStable(s[0], Sort(s[1..], lt), lt, e);
    }
  }

  lemma InsertIsStable<T(!new)>(x: T, s: seq<T>, lt: (T, T) -> bool, e: T)
    requires StrictWeakOrder(lt)
    ensures Filter(Insert(x, s, lt), y => Tied(lt, y, e)) == Filter([x] + s, y => Tied(lt, y, e))
  {
    var keep := y => Tied(lt, y, e);
    var p := InsertShape(x, s, lt);
    if keep(x) {
      forall y | y in s[..p] ensures !keep(y) {
        var k :| 0 <= k < p && s[k] == y;
        TiedNotBefore(lt, s[k], x, e);
      }
      FilterNone(s[..p], keep);
    }
    FilterAround(s[..p], x, s[p..], keep);
    FilterAround([], x, s, keep);
    assert s[..p] + s[p..] == s;
    FilterAppend(s[..p], s[p..], keep);
  }

  /** Whatever comes strictly before a member of a class is outside it. */
  lemma TiedNotBefore<T(!new)>(lt: (T, T) -> bool, a: T, x: T, e: T)
    requires StrictWeakOrder(lt)
    requires lt(a, x) && Tied(lt, x, e)
    ensures !Tied(lt, a, e)
  {
  }

  lemma FilterAround<T(!new)>(a: seq<T>, x: T, b: seq<T>, keep: T -> bool)
    ensures Filter(a + [x] + b, keep) == Filter(a, keep) + (if keep(x) then [x] else []) + Filter(b, keep)
  {
    FilterAppend(a + [x], b, keep);
    FilterAppend(a, [x], keep);
    assert Filter([x], keep) == if keep(x) then [x] else [] by {
      assert [x][1..] == [];
    }
  }

  /** Filtering a list with one more element at the end. */
  lemma FilterSnoc<T(!new)>(s: seq<T>, keep: T -> bool)
    requires s != []
    ensures Filter(s, keep) == Filter(s[..|s| - 1], keep) + if keep(s[|s| - 1]) then [s[|s| - 1]] else []
  {
    var n := |s| - 1;
    assert s == s[..n] + [s[n]];
    FilterAppend(s[..n], [s[n]], keep);
    assert [s[n]][1..] == [];
  }

  lemma {:induction false} FilterAppend<T(!new)>(a: seq<T>, b: seq<T>, keep: T -> bool)
    ensures Filter(a + b, keep) == Filter(a, keep) + Filter(b, keep)
    decreases |a|
  {
    if a == [] {
      assert a + b == b;
    } else {
      assert (a + b)[1..] == a[1..] + b;
      FilterAppend(a[1..], b, keep);
    }
  }

  lemma {:induction false} FilterNone<T(!new)>(s: seq<T>, keep: T -> bool)
    requires forall y :: y in s ==> !keep(y)
    ensures Filter(s, keep) == []
    decreases |s|
  {
    if s != [] {
      FilterNone(s[1..], keep);
    }
  }
}
