/** Order-preserving list filtering, the building block of the list
    comprehensions and append loops in the surface-extraction code. */
module Sequences {
  import opened Wrappers

  /** r is s with some elements left out and the rest kept in their order. */
  ghost predicate IsSubsequence<T>(r: seq<T>, s: seq<T>)
    decreases |s|
  {
    |r| <= |s| &&
    (r == [] || (r[0] == s[0] && IsSubsequence(r[1..], s[1..])) || IsSubsequence(r, s[1..]))
  }

  /** No element occurs twice. */
  ghost predicate NoDuplicates<T>(s: seq<T>) {
    forall i, j :: 0 <= i < j < |s| ==> s[i] != s[j]
  }

  /** The complement of a test. */
  function Not<T>(p: T -> bool): T -> bool {
    x => !p(x)
  }

  /** The elements of s that pass p, in their order in s: `[x for x in s if p(x)]`. */
  function Filter<T>(p: T -> bool, s: seq<T>): (r: seq<T>)
    ensures |r| <= |s|
    ensures forall k :: 0 <= k < |r| ==> r[k] in s && p(r[k])
    ensures forall i :: 0 <= i < |s| && p(s[i]) ==> s[i] in r
  {
    if s == [] then []
    else if p(s[0]) then [s[0]] + Filter(p, s[1..])
    else Filter(p, s[1..])
  }

  /** Filtering keeps the order of what it keeps. */
  lemma {:induction false} FilterIsSubsequence<T>(p: T -> bool, s: seq<T>)
    ensures IsSubsequence(Filter(p, s), s)
  {
    if s != [] {
      FilterIsSubsequence(p, s[1..]);
      if p(s[0]) {
        assert Filter(p, s)[1..] == Filter(p, s[1..]);
      }
    }
  }

  /** An element of s is in the filtered list iff it passes the test. */
  lemma FilterMember<T>(p: T -> bool, s: seq<T>, x: T)
    requires x in s
    ensures x in Filter(p, s) <==> p(x)
  {
    var i :| 0 <= i < |s| && s[i] == x;
    if x in Filter(p, s) {
      var k :| 0 <= k < |Filter(p, s)| && Filter(p, s)[k] == x;
    }
  }

  /** Filtering a list extended at the end extends the filtered list at the end,
      which is what an append loop relies on. */
  lemma {:induction false} FilterAppend<T>(p: T -> bool, s: seq<T>, x: T)
    ensures Filter(p, s + [x]) == Filter(p, s) + (if p(x) then [x] else [])
  {
    if s == [] {
      assert s + [x] == [x];
    } else {
      assert (s + [x])[0] == s[0];
      assert (s + [x])[1..] == s[1..] + [x];
      FilterAppend(p, s[1..], x);
    }
  }

  /** Every element of s goes to exactly one of the two sides of a test. */
  lemma {:induction false} FilterPartition<T>(p: T -> bool, s: seq<T>)
    ensures multiset(Filter(p, s)) + multiset(Filter(Not(p), s)) == multiset(s)
    ensures |Filter(p, s)| + |Filter(Not(p), s)| == |s|
  {
    if s != [] {
      FilterPartition(p, s[1..]);
      assert s == [s[0]] + s[1..];
    }
  }

  /** Filtering keeps every occurrence of an element that passes and none of
      one that fails. */
  lemma {:induction false} FilterMultiplicity<T>(p: T -> bool, s: seq<T>, x: T)
    ensures multiset(Filter(p, s))[x] == if p(x) then multiset(s)[x] else 0
  {
    if s != [] {
      FilterMultiplicity(p, s[1..], x);
      var head := if p(s[0]) then [s[0]] else [];
      assert Filter(p, s) == head + Filter(p, s[1..]);
      assert multiset(s) == multiset([s[0]]) + multiset(s[1..]) by {
        assert s == [s[0]] + s[1..];
      }
    }
  }

  /** Two tests that agree on the elements of s select the same list. */
  lemma {:induction false} FilterCongruent<T>(p: T -> bool, q: T -> bool, s: seq<T>)
    requires forall x :: x in s ==> p(x) == q(x)
    ensures Filter(p, s) == Filter(q, s)
  {
    if s != [] {
      FilterCongruent(p, q, s[1..]);
    }
  }

  /** A more demanding test selects an order-preserving sublist of what a
      weaker test selects. */
  lemma {:induction false} FilterStronger<T>(p: T -> bool, q: T -> bool, s: seq<T>)
    requires forall x :: x in s && p(x) ==> q(x)
    ensures IsSubsequence(Filter(p, s), Filter(q, s))
  {
    if s != [] {
      FilterStronger(p, q, s[1..]);
      var a, b := Filter(p, s[1..]), Filter(q, s[1..]);
      if p(s[0]) {
        assert ([s[0]] + a)[1..] == a && ([s[0]] + b)[1..] == b;
      } else if q(s[0]) {
        assert ([s[0]] + b)[1..] == b;
      }
    }
  }

  /** The positions, from `from` on, at which s passes p, in increasing order
      (as IndicesWhereSelectFilter shows):
      `[i for i in range(from, len(s)) if p(s[i])]`. */
  function IndicesWhere<T>(p: T -> bool, s: seq<T>, from: nat): (r: seq<nat>)
    requires from <= |s|
    ensures forall k :: 0 <= k < |r| ==> from <= r[k] < |s| && p(s[r[k]])
    ensures forall i :: from <= i < |s| && p(s[i]) ==> i in r
    decreases |s| - from
  {
    if from == |s| then []
    else if p(s[from]) then [from] + IndicesWhere(p, s, from + 1)
    else IndicesWhere(p, s, from + 1)
  }

  /** Picking the elements at the positions IndicesWhere finds gives the filtered list. */
  lemma {:induction false} IndicesWhereSelectFilter<T>(p: T -> bool, s: seq<T>, from: nat)
    requires from <= |s|
    ensures |IndicesWhere(p, s, from)| == |Filter(p, s[from..])|
    ensures forall k :: 0 <= k < |IndicesWhere(p, s, from)| ==>
              Filter(p, s[from..])[k] == s[IndicesWhere(p, s, from)[k]]
    decreases |s| - from
  {
    if from < |s| {
      IndicesWhereSelectFilter(p, s, from + 1);
      SelectStep(p, s, from, IndicesWhere(p, s, from + 1), Filter(p, s[from + 1..]));
    } else {
      assert s[from..] == [];
    }
  }

  /** One element of the induction in IndicesWhereSelectFilter. */
  lemma SelectStep<T>(p: T -> bool, s: seq<T>, from: nat, rest: seq<nat>, tail: seq<T>)
    requires from < |s|
    requires rest == IndicesWhere(p, s, from + 1) && tail == Filter(p, s[from + 1..])
    requires |rest| == |tail| && forall k :: 0 <= k < |rest| ==> tail[k] == s[rest[k]]
    ensures |IndicesWhere(p, s, from)| == |Filter(p, s[from..])|
    ensures forall k :: 0 <= k < |IndicesWhere(p, s, from)| ==>
              Filter(p, s[from..])[k] == s[IndicesWhere(p, s, from)[k]]
  {
    var t := s[from..];
    assert t != [] && t[0] == s[from] && t[1..] == s[from + 1..];
    if p(s[from]) {
      assert IndicesWhere(p, s, from) == [from] + rest;
      assert Filter(p, t) == [s[from]] + tail;
      SelectCons(s, from, rest, tail);
    } else {
      assert IndicesWhere(p, s, from) == rest;
      assert Filter(p, s[from..]) == tail;
    }
  }

  /** Putting one more position in front of a selection puts its element in front
      of the selected list. */
  lemma SelectCons<T>(s: seq<T>, i: nat, rest: seq<nat>, tail: seq<T>)
    requires i < |s|
    requires |rest| == |tail| && forall k :: 0 <= k < |rest| ==> rest[k] < |s| && tail[k] == s[rest[k]]
    ensures forall k :: 0 <= k < |rest| + 1 ==> ([i] + rest)[k] < |s| && ([s[i]] + tail)[k] == s[([i] + rest)[k]]
  {
    forall k | 0 <= k < |rest| + 1 ensures ([i] + rest)[k] < |s| && ([s[i]] + tail)[k] == s[([i] + rest)[k]] {
      if k > 0 {
        assert ([s[i]] + tail)[k] == tail[k - 1];
        assert ([i] + rest)[k] == rest[k - 1];
      }
    }
  }

  /** The present values of a list with holes, in order:
      `[x for x in slots if not x is None]`. */
  function Compact<T>(slots: seq<Option<T>>): (r: seq<T>)
    ensures |r| <= |slots|
    ensures forall k :: 0 <= k < |r| ==> Some(r[k]) in slots
    ensures forall i :: 0 <= i < |slots| && slots[i].Some? ==> slots[i].value in r
  {
    if slots == [] then []
    else if slots[0].Some? then [slots[0].value] + Compact(slots[1..])
    else Compact(slots[1..])
  }

  /** Blanking out the elements of s that pass p and compacting leaves what fails p. */
  lemma {:induction false} CompactMasked<T>(p: T -> bool, s: seq<T>, slots: seq<Option<T>>)
    requires |slots| == |s|
    requires forall i :: 0 <= i < |s| ==> slots[i] == if p(s[i]) then None else Some(s[i])
    ensures Compact(slots) == Filter(Not(p), s)
  {
    if s != [] {
      CompactMasked(p, s[1..], slots[1..]);
    }
  }

  /** In a list without duplicates every element is counted at most once. */
  lemma {:induction false} DistinctCountsOnce<T>(s: seq<T>, x: T)
    requires NoDuplicates(s)
    ensures multiset(s)[x] <= 1
  {
    if s != [] {
      assert s == [s[0]] + s[1..];
      assert NoDuplicates(s[1..]) by {
        forall i, j | 0 <= i < j < |s[1..]| ensures s[1..][i] != s[1..][j] {
          assert s[1..][i] == s[i + 1] && s[1..][j] == s[j + 1];
        }
      }
      DistinctCountsOnce(s[1..], x);
      if x == s[0] {
        assert x !in s[1..] by {
          forall j | 0 <= j < |s[1..]| ensures s[1..][j] != x {
            assert s[1..][j] == s[j + 1];
          }
        }
      }
    }
  }

  /** An element at two positions is counted at least twice. */
  lemma RepeatedCountsTwice<T>(t: seq<T>, i: nat, j: nat)
    requires i < j < |t| && t[i] == t[j]
    ensures multiset(t)[t[i]] >= 2
  {
    assert t == t[..i] + [t[i]] + t[i + 1..j] + [t[j]] + t[j + 1..];
  }

  /** A list drawn (as a multiset) from a list without duplicates has none either. */
  lemma SubmultisetNoDuplicates<T>(s: seq<T>, t: seq<T>)
    requires NoDuplicates(s)
    requires multiset(t) <= multiset(s)
    ensures NoDuplicates(t)
  {
    forall i, j | 0 <= i < j < |t| ensures t[i] != t[j] {
      if t[i] == t[j] {
        RepeatedCountsTwice(t, i, j);
        DistinctCountsOnce(s, t[i]);
        assert false;
      }
    }
  }
}
