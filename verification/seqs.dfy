/** Filter and count over a sequence: keeping the elements that satisfy a
    test, in order, and counting them. The model uses them for file
    listings, table cells and per-module tallies. */
module Seqs {

  /** Elements of `s` satisfying `p`, in their original order. */
  function Filter<T(!new)>(s: seq<T>, p: T -> bool): (r: seq<T>)
    ensures |r| <= |s|
    ensures forall x :: x in r <==> x in s && p(x)
  {
    if |s| == 0 then []
    else Filter(s[..|s| - 1], p) + (if p(s[|s| - 1]) then [s[|s| - 1]] else [])
  }

  /** Number of elements of `s` satisfying `p`. */
  function Count<T>(s: seq<T>, p: T -> bool): nat
  {
    if |s| == 0 then 0
    else Count(s[..|s| - 1], p) + (if p(s[|s| - 1]) then 1 else 0)
  }

  /** The indices of `s` whose element satisfies `p`: the independent,
      position-based reading of `Count`. */
  ghost function Matching<T>(s: seq<T>, p: T -> bool): set<nat>
  {
    set i: nat | i < |s| && p(s[i])
  }

  /** Counting agrees with the length of the filtered list. */
  lemma {:induction false} CountIsFilterLength<T(!new)>(s: seq<T>, p: T -> bool)
    ensures Count(s, p) == |Filter(s, p)|
  {
    if |s| > 0 {
      CountIsFilterLength(s[..|s| - 1], p);
    }
  }

  /** Counting agrees with the number of matching positions. */
  lemma {:induction false} CountIsMatchingSize<T>(s: seq<T>, p: T -> bool)
    ensures Count(s, p) == |Matching(s, p)|
  {
    if |s| > 0 {
      var n := |s| - 1;
      CountIsMatchingSize(s[..n], p);
      if p(s[n]) {
        assert Matching(s, p) == Matching(s[..n], p) + {n};
      } else {
        assert Matching(s, p) == Matching(s[..n], p);
      }
    }
  }

  /** No more elements match than there are. */
  lemma {:induction false} CountBounded<T>(s: seq<T>, p: T -> bool)
    ensures Count(s, p) <= |s|
  {
    if |s| > 0 {
      CountBounded(s[..|s| - 1], p);
    }
  }

  /** A predicate that implies another is satisfied no more often. */
  lemma {:induction false} CountMonotone<T>(s: seq<T>, p: T -> bool, q: T -> bool)
    requires forall x :: p(x) ==> q(x)
    ensures Count(s, p) <= Count(s, q)
  {
    if |s| > 0 {
      CountMonotone(s[..|s| - 1], p, q);
    }
  }

  /** Two predicates that never hold together split a count between them. */
  lemma {:induction false} CountDisjoint<T>(s: seq<T>, p: T -> bool, q: T -> bool, both: T -> bool)
    requires forall x :: !(p(x) && q(x))
    requires forall x :: both(x) == (p(x) || q(x))
    ensures Count(s, p) + Count(s, q) == Count(s, both)
  {
    if |s| > 0 {
      CountDisjoint(s[..|s| - 1], p, q, both);
    }
  }

  /** Counting distributes over concatenation. */
  lemma {:induction false} CountAppend<T>(a: seq<T>, b: seq<T>, p: T -> bool)
    ensures Count(a + b, p) == Count(a, p) + Count(b, p)
  {
    if |b| > 0 {
      var n := |b| - 1;
      assert (a + b)[..|a + b| - 1] == a + b[..n];
      CountAppend(a, b[..n], p);
    } else {
      assert a + b == a;
    }
  }

  /** Filtering distributes over concatenation. */
  lemma {:induction false} FilterAppend<T(!new)>(a: seq<T>, b: seq<T>, p: T -> bool)
    ensures Filter(a + b, p) == Filter(a, p) + Filter(b, p)
  {
    if |b| > 0 {
      var n := |b| - 1;
      assert (a + b)[..|a + b| - 1] == a + b[..n];
      FilterAppend(a, b[..n], p);
    } else {
      assert a + b == a;
    }
  }

  /** Filtering keeps the multiset of matching elements. */
  lemma {:induction false} FilterMultiset<T(!new)>(s: seq<T>, t: seq<T>, p: T -> bool)
    requires multiset(s) == multiset(t)
    ensures multiset(Filter(s, p)) == multiset(Filter(t, p))
  {
    FilterMultisetCount(s, p);
    FilterMultisetCount(t, p);
  }

  lemma {:induction false} FilterMultisetCount<T(!new)>(s: seq<T>, p: T -> bool)
    ensures forall x :: multiset(Filter(s, p))[x] == if p(x) then multiset(s)[x] else 0
  {
    if |s| > 0 {
      var init := s[..|s| - 1];
      FilterMultisetCount(init, p);
      assert s == init + [s[|s| - 1]];
      assert multiset(s) == multiset(init) + multiset{s[|s| - 1]};
    }
  }

  /** Filtering by a weaker predicate first does not change the result of
      filtering by a stronger one. */
  lemma {:induction false} FilterNarrowed<T(!new)>(s: seq<T>, p: T -> bool, q: T -> bool)
    requires forall x :: q(x) ==> p(x)
    ensures Filter(Filter(s, p), q) == Filter(s, q)
  {
    if |s| > 0 {
      var init := s[..|s| - 1];
      var last := s[|s| - 1];
      FilterNarrowed(init, p, q);
      var single := if p(last) then [last] else [];
      FilterAppend(Filter(init, p), single, q);
      if p(last) {
        assert single[..0] == [];
      }
    }
  }
}
