/** Sequence combinators standing in for Swift's `filter`, `map`,
    `first(where:)` and sorted queries, with the facts the model needs
    about them. */
module Seqs {
  import opened Wrappers

  /** `s.filter(p)`: the elements satisfying `p`, in their original order. */
  function Filter<T(!new)>(s: seq<T>, p: T -> bool): (r: seq<T>)
    ensures |r| <= |s|
    ensures forall x :: x in r <==> x in s && p(x)
  {
    if |s| == 0 then []
    else if p(s[0]) then [s[0]] + Filter(s[1..], p)
    else Filter(s[1..], p)
  }

  /** `s.map(f)`. */
  function Map<T, U>(s: seq<T>, f: T -> U): (r: seq<U>)
    ensures |r| == |s|
    ensures forall i :: 0 <= i < |s| ==> r[i] == f(s[i])
  {
    seq(|s|, i requires 0 <= i < |s| => f(s[i]))
  }

  /** Position of the first element satisfying `p`, or `|s|` when there is none. */
  function IndexOf<T>(s: seq<T>, p: T -> bool): (r: nat)
    ensures r <= |s|
    ensures forall j :: 0 <= j < r ==> !p(s[j])
    ensures r < |s| ==> p(s[r])
  {
    if |s| == 0 then 0
    else if p(s[0]) then 0
    else 1 + IndexOf(s[1..], p)
  }

  /** `s.first(where: p)`. */
  function First<T>(s: seq<T>, p: T -> bool): (r: Option<T>)
    ensures r.None? <==> forall i :: 0 <= i < |s| ==> !p(s[i])
    ensures r.Some? ==> r.value in s && p(r.value)
    ensures r.Some? ==> r.value == s[IndexOf(s, p)]
  {
    var i := IndexOf(s, p);
    if i < |s| then Some(s[i]) else None
  }

  /** Two equally long sequences that agree on `p` everywhere have their
      first `p`-element at the same place. */
  lemma {:induction false} IndexOfPointwise<T>(s: seq<T>, t: seq<T>, p: T -> bool)
    requires |s| == |t|
    requires forall i :: 0 <= i < |s| ==> p(s[i]) == p(t[i])
    ensures IndexOf(s, p) == IndexOf(t, p)
    decreases |s|
  {
    if |s| > 0 && !p(s[0]) {
      IndexOfPointwise(s[1..], t[1..], p);
    }
  }

  /** The keys of the elements at `offsets`; offsets past the end pick
      nothing. */
  function KeysAt<T, K(!new)>(list: seq<T>, offsets: set<nat>, key: T -> K): (ks: set<K>)
    ensures forall k :: k in ks <==> exists i :: i in offsets && i < |list| && key(list[i]) == k
  {
    set i | i in offsets && i < |list| :: key(list[i])
  }

  /** No two elements share a key. */
  ghost predicate Distinct<T>(s: seq<T>, key: T -> int) {
    forall i, j :: 0 <= i < j < |s| ==> key(s[i]) != key(s[j])
  }

  /** Keys never decrease along `s`. */
  ghost predicate SortedBy<T>(s: seq<T>, key: T -> int) {
    forall i, j :: 0 <= i < j < |s| ==> key(s[i]) <= key(s[j])
  }

  /** Places `x` before the first element whose key is not smaller. */
  function Insert<T(!new)>(x: T, s: seq<T>, key: T -> int): (r: seq<T>)
    requires SortedBy(s, key)
    ensures SortedBy(r, key)
    ensures multiset(r) == multiset(s) + multiset{x}
    ensures forall y :: y in r <==> y in s || y == x
    ensures |r| == |s| + 1
  {
    if |s| == 0 then [x]
    else if key(x) <= key(s[0]) then [x] + s
    else
      SortedTail(s, key);
      var rest := Insert(x, s[1..], key);
      assert forall y :: y in rest ==> key(s[0]) <= key(y);
      SortedCons(s[0], rest, key);
      [s[0]] + rest
  }

  /** The tail of a sorted sequence is sorted, and no element of it has a
      smaller key than the head. */
  lemma SortedTail<T>(s: seq<T>, key: T -> int)
    requires SortedBy(s, key) && |s| > 0
    ensures SortedBy(s[1..], key)
    ensures forall y :: y in s[1..] ==> key(s[0]) <= key(y)
    ensures multiset(s) == multiset{s[0]} + multiset(s[1..])
  {
    assert s == [s[0]] + s[1..];
  }

  lemma SortedCons<T>(x: T, s: seq<T>, key: T -> int)
    requires SortedBy(s, key)
    requires forall i :: 0 <= i < |s| ==> key(x) <= key(s[i])
    ensures SortedBy([x] + s, key)
  {
    var r := [x] + s;
    forall i, j | 0 <= i < j < |r|
      ensures key(r[i]) <= key(r[j])
    {
      assert r[j] == s[j - 1];
      if i > 0 {
        assert r[i] == s[i - 1];
      }
    }
  }

  /** A stable sort by ascending key: the order of a sorted store query.
      Elements with equal keys keep their relative order. */
  function SortBy<T(!new)>(s: seq<T>, key: T -> int): (r: seq<T>)
    ensures SortedBy(r, key)
    ensures multiset(r) == multiset(s)
    ensures forall y :: y in r <==> y in s
    ensures |r| == |s|
  {
    if |s| == 0 then []
    else
      assert s == [s[0]] + s[1..];
      Insert(s[0], SortBy(s[1..], key), key)
  }

  lemma {:induction false} FilterAppend<T(!new)>(s: seq<T>, t: seq<T>, p: T -> bool)
    ensures Filter(s + t, p) == Filter(s, p) + Filter(t, p)
    decreases |s|
  {
    if |s| == 0 {
      assert s + t == t;
    } else {
      assert (s + t)[1..] == s[1..] + t;
      FilterAppend(s[1..], t, p);
    }
  }

  /** Filtering twice is filtering once by the conjunction. */
  lemma {:induction false} FilterFilter<T(!new)>(s: seq<T>, p: T -> bool, q: T -> bool, both: T -> bool)
    requires forall x :: both(x) == (p(x) && q(x))
    ensures Filter(Filter(s, p), q) == Filter(s, both)
    decreases |s|
  {
    if |s| > 0 {
      FilterFilter(s[1..], p, q, both);
    }
  }

  /** When `p` of the image is `q` of the original, mapping does not change
      how many elements pass. */
  lemma {:induction false} FilterMapLength<T(!new), U(!new)>(s: seq<T>, f: T -> U, p: U -> bool, q: T -> bool)
    requires forall x :: p(f(x)) == q(x)
    ensures |Filter(Map(s, f), p)| == |Filter(s, q)|
    decreases |s|
  {
    if |s| > 0 {
      assert Map(s, f) == [f(s[0])] + Map(s[1..], f);
      FilterMapLength(s[1..], f, p, q);
    }
  }

  /** Dropping elements never adds to the number that pass `p`; dropping
      one that passes `p` removes at least one. */
  lemma {:induction false} FilterFilterLength<T(!new)>(s: seq<T>, keep: T -> bool, p: T -> bool)
    ensures |Filter(Filter(s, keep), p)| <= |Filter(s, p)|
    ensures (exists i :: 0 <= i < |s| && p(s[i]) && !keep(s[i])) ==>
              |Filter(Filter(s, keep), p)| < |Filter(s, p)|
    decreases |s|
  {
    if |s| > 0 {
      FilterFilterLength(s[1..], keep, p);
      if exists i :: 0 <= i < |s| && p(s[i]) && !keep(s[i]) {
        var i :| 0 <= i < |s| && p(s[i]) && !keep(s[i]);
        if i > 0 {
          assert s[1..][i - 1] == s[i];
        }
      }
    }
  }

  /** Nothing passes `p`, so nothing is kept. */
  lemma {:induction false} FilterNone<T(!new)>(s: seq<T>, p: T -> bool)
    requires forall i :: 0 <= i < |s| ==> !p(s[i])
    ensures Filter(s, p) == []
    decreases |s|
  {
    if |s| > 0 {
      FilterNone(s[1..], p);
    }
  }

  /** Filters that agree on every element of `s` keep the same elements. */
  lemma {:induction false} FilterAgree<T(!new)>(s: seq<T>, p: T -> bool, q: T -> bool)
    requires forall i :: 0 <= i < |s| ==> p(s[i]) == q(s[i])
    ensures Filter(s, p) == Filter(s, q)
    decreases |s|
  {
    if |s| > 0 {
      assert forall i :: 0 <= i < |s| - 1 ==> s[1..][i] == s[i + 1];
      FilterAgree(s[1..], p, q);
    }
  }

  /** When every element passes, filtering keeps the sequence as it is. */
  lemma {:induction false} FilterAll<T(!new)>(s: seq<T>, p: T -> bool)
    requires forall i :: 0 <= i < |s| ==> p(s[i])
    ensures Filter(s, p) == s
    decreases |s|
  {
    if |s| > 0 {
      assert forall i :: 0 <= i < |s| - 1 ==> s[1..][i] == s[i + 1];
      FilterAll(s[1..], p);
    }
  }

  /** When the element at `i` is the only one failing `p`, filtering cuts
      out exactly that position. */
  lemma {:induction false} FilterDropsOne<T(!new)>(s: seq<T>, p: T -> bool, i: nat)
    requires i < |s| && !p(s[i])
    requires forall j :: 0 <= j < |s| && j != i ==> p(s[j])
    ensures Filter(s, p) == s[..i] + s[i + 1..]
  {
    var before, after := s[..i], s[i + 1..];
    assert s == before + ([s[i]] + after);
    forall j | 0 <= j < |before|
      ensures p(before[j])
    {
      assert before[j] == s[j];
    }
    forall j | 0 <= j < |after|
      ensures p(after[j])
    {
      assert after[j] == s[i + 1 + j];
    }
    FilterAll(before, p);
    FilterAll(after, p);
    assert [s[i]][1..] == [];
    assert Filter([s[i]], p) == [];
    FilterAppend([s[i]], after, p);
    assert Filter([s[i]] + after, p) == after;
    FilterAppend(before, [s[i]] + after, p);
  }

  /** Dropping only elements that fail `p` leaves the `p`-elements as they were. */
  lemma {:induction false} FilterNothingDropped<T(!new)>(s: seq<T>, keep: T -> bool, p: T -> bool)
    requires forall i :: 0 <= i < |s| && p(s[i]) ==> keep(s[i])
    ensures Filter(Filter(s, keep), p) == Filter(s, p)
    decreases |s|
  {
    if |s| > 0 {
      FilterNothingDropped(s[1..], keep, p);
    }
  }

  /** The elements of a filter, counted with multiplicity. */
  lemma {:induction false} FilterMultiset<T(!new)>(s: seq<T>, p: T -> bool)
    ensures forall x :: multiset(Filter(s, p))[x] == if p(x) then multiset(s)[x] else 0
    decreases |s|
  {
    if |s| > 0 {
      assert s == [s[0]] + s[1..];
      FilterMultiset(s[1..], p);
    }
  }

  /** Reordering a sequence does not change how many elements pass `p`. */
  lemma FilterPermutationLength<T(!new)>(s: seq<T>, t: seq<T>, p: T -> bool)
    requires multiset(s) == multiset(t)
    ensures |Filter(s, p)| == |Filter(t, p)|
  {
    FilterMultiset(s, p);
    FilterMultiset(t, p);
    assert multiset(Filter(s, p)) == multiset(Filter(t, p));
    calc {
      |Filter(s, p)|;
      |multiset(Filter(s, p))|;
      |multiset(Filter(t, p))|;
      |Filter(t, p)|;
    }
  }

  /** A sequence with at most one element passing `p` has at most one such element. */
  lemma AtMostOnePasses<T(!new)>(s: seq<T>, p: T -> bool, x: T, y: T)
    requires |Filter(s, p)| <= 1
    requires x in s && p(x) && y in s && p(y)
    ensures x == y
  {
    assert x in Filter(s, p) && y in Filter(s, p);
  }

  lemma {:induction false} FilterDistinct<T(!new)>(s: seq<T>, p: T -> bool, key: T -> int)
    requires Distinct(s, key)
    ensures Distinct(Filter(s, p), key)
    decreases |s|
  {
    if |s| > 0 {
      assert Distinct(s[1..], key) by {
        forall i, j | 0 <= i < j < |s| - 1
          ensures key(s[1..][i]) != key(s[1..][j])
        {
          assert s[1..][i] == s[i + 1] && s[1..][j] == s[j + 1];
        }
      }
      FilterDistinct(s[1..], p, key);
      var rest := Filter(s[1..], p);
      if p(s[0]) {
        forall y | y in rest
          ensures key(y) != key(s[0])
        {
          var k :| 0 <= k < |s[1..]| && s[1..][k] == y;
          assert s[k + 1] == y;
        }
      }
    }
  }

  /** Filtering the sorted sequence gives the same result as sorting the
      filtered one: the sort is stable. */
  lemma {:induction false} SortFilterCommute<T(!new)>(s: seq<T>, p: T -> bool, key: T -> int)
    ensures SortBy(Filter(s, p), key) == Filter(SortBy(s, key), p)
    decreases |s|
  {
    if |s| > 0 {
      SortFilterCommute(s[1..], p, key);
      var sorted := SortBy(s[1..], key);
      if p(s[0]) {
        assert Filter(s, p) == [s[0]] + Filter(s[1..], p);
        assert SortBy(Filter(s, p), key) == Insert(s[0], SortBy(Filter(s[1..], p), key), key);
        FilterInsertKept(s[0], sorted, p, key);
      } else {
        FilterInsertDropped(s[0], sorted, p, key);
      }
    }
  }

  lemma {:induction false} FilterInsertKept<T(!new)>(x: T, t: seq<T>, p: T -> bool, key: T -> int)
    requires SortedBy(t, key) && p(x)
    ensures SortedBy(Filter(t, p), key)
    ensures Filter(Insert(x, t, key), p) == Insert(x, Filter(t, p), key)
    decreases |t|
  {
    FilterSorted(t, p, key);
    if |t| > 0 {
      assert SortedBy(t[1..], key);
      FilterInsertKept(x, t[1..], p, key);
      if key(x) <= key(t[0]) {
        var f := Filter(t, p);
        if |f| > 0 {
          assert f[0] in t;
        }
      }
    }
  }

  lemma {:induction false} FilterInsertDropped<T(!new)>(x: T, t: seq<T>, p: T -> bool, key: T -> int)
    requires SortedBy(t, key) && !p(x)
    ensures Filter(Insert(x, t, key), p) == Filter(t, p)
    decreases |t|
  {
    if |t| > 0 && key(x) > key(t[0]) {
      assert SortedBy(t[1..], key);
      FilterInsertDropped(x, t[1..], p, key);
    }
  }

  lemma {:induction false} FilterSorted<T(!new)>(t: seq<T>, p: T -> bool, key: T -> int)
    requires SortedBy(t, key)
    ensures SortedBy(Filter(t, p), key)
    decreases |t|
  {
    if |t| > 0 {
      assert SortedBy(t[1..], key);
      FilterSorted(t[1..], p, key);
      forall y | y in Filter(t[1..], p)
        ensures key(t[0]) <= key(y)
      {
        var k :| 0 <= k < |t[1..]| && t[1..][k] == y;
        assert t[k + 1] == y;
      }
    }
  }
}
