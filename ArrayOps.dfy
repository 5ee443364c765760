/**
 * `Array.prototype.sort` with a comparator `key(a) - key(b)` and
 * `Array.prototype.filter`, for any element type: a stable insertion
 * sort on an integer key that may be missing (a NaN difference, which the
 * sort treats as "equal"), and an order-keeping filter.
 */
module ArrayOps {
  import opened Wrappers

  /** The comparator says `a` goes before `b`: both keys exist and `a`'s is smaller. */
  predicate Before<T>(key: T -> Option<int>, a: T, b: T)
  {
    key(a).Some? && key(b).Some? && key(a).value < key(b).value
  }

  predicate AllKeyed<T>(key: T -> Option<int>, s: seq<T>)
  {
    forall i :: 0 <= i < |s| ==> key(s[i]).Some?
  }

  /** Each element has a key no smaller than the one before it. */
  predicate SortedBy<T>(key: T -> Option<int>, s: seq<T>)
  {
    AllKeyed(key, s) && forall i :: 0 < i < |s| ==> key(s[i - 1]).value <= key(s[i]).value
  }

  /** In a sorted sequence every key is no smaller than every key before it. */
  lemma {:induction false} SortedPairwise<T>(key: T -> Option<int>, s: seq<T>, i: nat, j: nat)
    requires SortedBy(key, s) && i <= j < |s|
    ensures key(s[i]).value <= key(s[j]).value
    decreases j - i
  {
    if i < j {
      SortedPairwise(key, s, i, j - 1);
    }
  }

  /** Inserts `p` after every element it is not before: the step of a stable insertion sort. */
  function InsertBy<T>(key: T -> Option<int>, sorted: seq<T>, p: T): (r: seq<T>)
    ensures multiset(r) == multiset(sorted) + multiset{p} && |r| == |sorted| + 1
    ensures r[|r| - 1] == p || (sorted != [] && r[|r| - 1] == sorted[|sorted| - 1])
    decreases |sorted|
  {
    if sorted == [] then [p]
    else
      var init, last := sorted[..|sorted| - 1], sorted[|sorted| - 1];
      assert sorted == init + [last];
      if Before(key, p, last) then InsertBy(key, init, p) + [last] else sorted + [p]
  }

  /** Without its last element a sorted sequence is still sorted. */
  lemma SortedInit<T>(key: T -> Option<int>, s: seq<T>)
    requires SortedBy(key, s) && s != []
    ensures SortedBy(key, s[..|s| - 1])
  {
    var init := s[..|s| - 1];
    forall i | 0 <= i < |init| ensures init[i] == s[i] { }
  }

  /** Appending an element whose key is no smaller than the last keeps a sequence sorted. */
  lemma SortedSnoc<T>(key: T -> Option<int>, s: seq<T>, p: T)
    requires SortedBy(key, s) && key(p).Some?
    requires s != [] ==> key(s[|s| - 1]).value <= key(p).value
    ensures SortedBy(key, s + [p])
  {
    var r := s + [p];
    forall i | 0 <= i < |r| ensures key(r[i]).Some? {
      if i < |s| { assert r[i] == s[i]; }
    }
    forall i | 0 < i < |r| ensures key(r[i - 1]).value <= key(r[i]).value {
      assert r[i - 1] == s[i - 1];
      if i < |s| { assert r[i] == s[i]; }
    }
  }

  /** Putting an element whose key is no larger than the first in front keeps a sequence sorted. */
  lemma SortedCons<T>(key: T -> Option<int>, p: T, s: seq<T>)
    requires SortedBy(key, s) && key(p).Some?
    requires s != [] ==> key(p).value <= key(s[0]).value
    ensures SortedBy(key, [p] + s)
  {
    var r := [p] + s;
    forall i | 0 <= i < |r| ensures key(r[i]).Some? {
      if i > 0 { assert r[i] == s[i - 1]; }
    }
    forall i | 0 < i < |r| ensures key(r[i - 1]).value <= key(r[i]).value {
      assert r[i] == s[i - 1];
      if i > 1 { assert r[i - 1] == s[i - 2]; }
    }
  }

  /** Inserting a keyed element into a sorted sequence keeps it sorted. */
  lemma {:induction false} InsertKeepsSorted<T>(key: T -> Option<int>, sorted: seq<T>, p: T)
    requires SortedBy(key, sorted) && key(p).Some?
    ensures SortedBy(key, InsertBy(key, sorted, p))
    decreases |sorted|
  {
    if sorted != [] {
      var init, last := sorted[..|sorted| - 1], sorted[|sorted| - 1];
      SortedInit(key, sorted);
      if Before(key, p, last) {
        InsertBeforeLast(key, sorted, p);
        InsertKeepsSorted(key, init, p);
        InsertLastAtMost(key, sorted, p);
        SortedSnoc(key, InsertBy(key, init, p), last);
      } else {
        InsertAtEnd(key, sorted, p);
        SortedSnoc(key, sorted, p);
      }
    }
  }

  /**
   * `s.sort((a, b) => key(a) - key(b))` as a stable insertion sort. When
   * every key exists the comparator is consistent and the stable result is
   * the one ECMAScript requires; otherwise the order is
   * implementation-defined and this is one permitted outcome.
   */
  function SortBy<T>(key: T -> Option<int>, s: seq<T>): (r: seq<T>)
    ensures multiset(r) == multiset(s) && |r| == |s|
    ensures AllKeyed(key, s) ==> SortedBy(key, r)
  {
    if s == [] then []
    else
      var init, last := s[..|s| - 1], s[|s| - 1];
      assert s == init + [last];
      var r := InsertBy(key, SortBy(key, init), last);
      assert AllKeyed(key, s) ==> SortedBy(key, r) by {
        if AllKeyed(key, s) {
          assert AllKeyed(key, init);
          InsertKeepsSorted(key, SortBy(key, init), last);
        }
      }
      r
  }

  /** A sorted sequence is left as it is. */
  lemma {:induction false} SortKeepsSorted<T>(key: T -> Option<int>, s: seq<T>)
    requires SortedBy(key, s)
    ensures SortBy(key, s) == s
  {
    if s != [] {
      var init, last := s[..|s| - 1], s[|s| - 1];
      SortedInit(key, s);
      SortKeepsSorted(key, init);
      if init != [] {
        assert init[|init| - 1] == s[|s| - 2];
      }
      InsertAtEnd(key, init, last);
      assert s == init + [last];
    }
  }

  /** An element before the last goes into the sequence without it. */
  lemma InsertBeforeLast<T>(key: T -> Option<int>, sorted: seq<T>, p: T)
    requires sorted != [] && Before(key, p, sorted[|sorted| - 1])
    ensures InsertBy(key, sorted, p) == InsertBy(key, sorted[..|sorted| - 1], p) + [sorted[|sorted| - 1]]
  {
  }

  /** When `p` goes before the last element, whatever ends up before that element has a key no larger than its. */
  lemma InsertLastAtMost<T>(key: T -> Option<int>, sorted: seq<T>, p: T)
    requires SortedBy(key, sorted) && sorted != [] && Before(key, p, sorted[|sorted| - 1])
    ensures var front := InsertBy(key, sorted[..|sorted| - 1], p);
      key(front[|front| - 1]).Some? && key(front[|front| - 1]).value <= key(sorted[|sorted| - 1]).value
  {
    var init := sorted[..|sorted| - 1];
    if init != [] {
      assert init[|init| - 1] == sorted[|sorted| - 2];
    }
  }

  /** An element that is not before the last goes at the end. */
  lemma InsertAtEnd<T>(key: T -> Option<int>, sorted: seq<T>, p: T)
    requires sorted != [] ==> !Before(key, p, sorted[|sorted| - 1])
    ensures InsertBy(key, sorted, p) == sorted + [p]
  {
  }

  /** `s.filter(keep)`: the kept elements, in their order. */
  function Filter<T>(keep: T -> bool, s: seq<T>): (r: seq<T>)
    ensures |r| <= |s|
    ensures forall i :: 0 <= i < |r| ==> r[i] in s && keep(r[i])
    ensures forall i :: 0 <= i < |s| && keep(s[i]) ==> s[i] in r
  {
    if s == [] then []
    else (if keep(s[0]) then [s[0]] else []) + Filter(keep, s[1..])
  }

  /** Filtering works piecewise, so it keeps the elements in their order. */
  lemma {:induction false} FilterAppend<T>(keep: T -> bool, a: seq<T>, b: seq<T>)
    ensures Filter(keep, a + b) == Filter(keep, a) + Filter(keep, b)
  {
    if a != [] {
      assert (a + b)[0] == a[0];
      assert (a + b)[1..] == a[1..] + b;
      FilterAppend(keep, a[1..], b);
    } else {
      assert a + b == b;
    }
  }

  lemma {:induction false} FilterAll<T>(keep: T -> bool, s: seq<T>)
    requires forall i :: 0 <= i < |s| ==> keep(s[i])
    ensures Filter(keep, s) == s
  {
    if s != [] {
      FilterAll(keep, s[1..]);
    }
  }

  lemma {:induction false} FilterNone<T>(keep: T -> bool, s: seq<T>)
    requires forall i :: 0 <= i < |s| ==> !keep(s[i])
    ensures Filter(keep, s) == []
  {
    if s != [] {
      FilterNone(keep, s[1..]);
    }
  }

  /** Filtering a sorted sequence leaves it sorted. */
  lemma {:induction false} FilterKeepsSorted<T>(key: T -> Option<int>, keep: T -> bool, s: seq<T>)
    requires SortedBy(key, s)
    ensures SortedBy(key, Filter(keep, s))
  {
    if s != [] {
      var tail := s[1..];
      assert SortedBy(key, tail) by {
        assert forall i :: 0 <= i < |tail| ==> tail[i] == s[i + 1];
      }
      FilterKeepsSorted(key, keep, tail);
      var r := Filter(keep, tail);
      if keep(s[0]) && r != [] {
        assert r[0] in tail;
        var k :| 0 <= k < |tail| && tail[k] == r[0];
        SortedPairwise(key, s, 0, k + 1);
        SortedCons(key, s[0], r);
      }
    }
  }

  /** An element strictly before another does not share its key, so a single-key filter keeps only one of them. */
  lemma NotBothKept<T>(key: T -> Option<int>, keep: T -> bool, k: int, p: T, q: T)
    requires Before(key, p, q)
    requires forall x :: keep(x) ==> key(x) == Some(k)
    ensures Filter(keep, [p]) == [] || Filter(keep, [q]) == []
  {
    assert [p][1..] == [] && [q][1..] == [];
  }

  lemma SwapEmpty<T>(a: seq<T>, b: seq<T>, c: seq<T>)
    requires b == [] || c == []
    ensures a + b + c == a + c + b
  {
  }

  /** Inserting an element leaves the elements with one key in place and puts it after those with its key. */
  lemma {:induction false} InsertKeepsKeyOrder<T>(key: T -> Option<int>, keep: T -> bool, k: int, sorted: seq<T>, p: T)
    requires forall x :: keep(x) ==> key(x) == Some(k)
    ensures Filter(keep, InsertBy(key, sorted, p)) == Filter(keep, sorted) + Filter(keep, [p])
    decreases |sorted|
  {
    if sorted == [] {
      assert InsertBy(key, sorted, p) == [p];
    } else {
      var init, last := sorted[..|sorted| - 1], sorted[|sorted| - 1];
      assert sorted == init + [last];
      var fInit, fLast, fP := Filter(keep, init), Filter(keep, [last]), Filter(keep, [p]);
      FilterAppend(keep, init, [last]);
      if Before(key, p, last) {
        var front := InsertBy(key, init, p);
        assert InsertBy(key, sorted, p) == front + [last];
        InsertKeepsKeyOrder(key, keep, k, init, p);
        FilterAppend(keep, front, [last]);
        NotBothKept(key, keep, k, p, last);
        SwapEmpty(fInit, fP, fLast);
      } else {
        assert InsertBy(key, sorted, p) == sorted + [p];
        FilterAppend(keep, sorted, [p]);
      }
    }
  }

  /** The sort is stable: the elements sharing any one key keep their input order. */
  lemma {:induction false} SortIsStable<T>(key: T -> Option<int>, keep: T -> bool, k: int, s: seq<T>)
    requires forall x :: keep(x) ==> key(x) == Some(k)
    ensures Filter(keep, SortBy(key, s)) == Filter(keep, s)
  {
    if s != [] {
      var init, last := s[..|s| - 1], s[|s| - 1];
      assert s == init + [last];
      SortIsStable(key, keep, k, init);
      InsertKeepsKeyOrder(key, keep, k, SortBy(key, init), last);
      FilterAppend(keep, init, [last]);
    }
  }
}
