/** Ordering individuals by fitness, ascending, the way the source does it:
    `array.sort((a, b) => a.fitness - b.fitness)`, which is a stable sort.
    SortByFitness is the reference definition (an insertion sort, hence
    stable); SortInPlace is the in-place array algorithm proved equal to it. */
module Sorting {
  import opened Types

  /** Every individual carries a fitness, as the evaluation step leaves them. */
  predicate Evaluated(s: seq<Individual>) {
    forall i :: 0 <= i < |s| ==> s[i].fitness.Some?
  }

  function Fit(ind: Individual): nat
    requires ind.fitness.Some?
  {
    ind.fitness.value
  }

  predicate SortedByFitness(s: seq<Individual>)
    requires Evaluated(s)
  {
    forall i, j :: 0 <= i < j < |s| ==> Fit(s[i]) <= Fit(s[j])
  }

  /** Places `x` after every element of `s` whose fitness is not larger,
      scanning from the right, as one insertion-sort pass does. */
  function Insert(s: seq<Individual>, x: Individual): (r: seq<Individual>)
    requires Evaluated(s) && x.fitness.Some?
    ensures |r| == |s| + 1 && Evaluated(r)
  {
    if s == [] then [x]
    else if Fit(s[|s| - 1]) > Fit(x) then Insert(s[..|s| - 1], x) + [s[|s| - 1]]
    else s + [x]
  }

  function SortByFitness(s: seq<Individual>): (r: seq<Individual>)
    requires Evaluated(s)
    ensures |r| == |s| && Evaluated(r)
  {
    if s == [] then [] else Insert(SortByFitness(s[..|s| - 1]), s[|s| - 1])
  }

  lemma {:induction false} InsertPermutes(s: seq<Individual>, x: Individual)
    requires Evaluated(s) && x.fitness.Some?
    ensures multiset(Insert(s, x)) == multiset(s) + multiset{x}
  {
    if s != [] && Fit(s[|s| - 1]) > Fit(x) {
      InsertPermutes(s[..|s| - 1], x);
      assert s == s[..|s| - 1] + [s[|s| - 1]];
    }
  }

  /** The sorted sequence is a permutation of its input. */
  lemma {:induction false} SortPermutes(s: seq<Individual>)
    requires Evaluated(s)
    ensures multiset(SortByFitness(s)) == multiset(s)
  {
    if s != [] {
      SortPermutes(s[..|s| - 1]);
      InsertPermutes(SortByFitness(s[..|s| - 1]), s[|s| - 1]);
      assert s == s[..|s| - 1] + [s[|s| - 1]];
    }
  }

  /** The sorted sequence is non-decreasing in fitness. */
  lemma {:induction false} SortSorts(s: seq<Individual>)
    requires Evaluated(s)
    ensures SortedByFitness(SortByFitness(s))
  {
    if s != [] {
      SortSorts(s[..|s| - 1]);
      InsertSorted(SortByFitness(s[..|s| - 1]), s[|s| - 1]);
    }
  }

  lemma {:induction false} InsertSorted(s: seq<Individual>, x: Individual)
    requires Evaluated(s) && x.fitness.Some? && SortedByFitness(s)
    ensures SortedByFitness(Insert(s, x))
  {
    if s != [] && Fit(s[|s| - 1]) > Fit(x) {
      var last := s[|s| - 1];
      var prefix := s[..|s| - 1];
      InsertSorted(prefix, x);
      InsertPermutes(prefix, x);
      var q := Insert(prefix, x);
      forall i | 0 <= i < |q|
        ensures Fit(q[i]) <= Fit(last)
      {
        assert q[i] in multiset(q);
        if q[i] != x {
          assert q[i] in multiset(prefix);
          var k :| 0 <= k < |prefix| && prefix[k] == q[i];
          assert s[k] == q[i];
        }
      }
    }
  }

  /** The individuals of `s` whose fitness is `v`, in their order in `s`. */
  function WithFit(s: seq<Individual>, v: nat): (r: seq<Individual>)
    requires Evaluated(s)
    ensures |r| <= |s|
  {
    if s == [] then []
    else WithFit(s[..|s| - 1], v) + (if Fit(s[|s| - 1]) == v then [s[|s| - 1]] else [])
  }

  lemma {:induction false} WithFitAppend(a: seq<Individual>, b: seq<Individual>, v: nat)
    requires Evaluated(a) && Evaluated(b)
    ensures Evaluated(a + b) && WithFit(a + b, v) == WithFit(a, v) + WithFit(b, v)
  {
    if b == [] {
      assert a + b == a;
    } else {
      WithFitAppend(a, b[..|b| - 1], v);
      assert (a + b)[..|a + b| - 1] == a + b[..|b| - 1];
    }
  }

  /** Inserting `x` keeps the relative order of the individuals of each fitness,
      and puts `x` after those already there with its own fitness. */
  lemma {:induction false} InsertStable(s: seq<Individual>, x: Individual, v: nat)
    requires Evaluated(s) && x.fitness.Some?
    ensures WithFit(Insert(s, x), v) == WithFit(s, v) + (if Fit(x) == v then [x] else [])
  {
    if s == [] {
      assert [x][..0] == [];
    } else if Fit(s[|s| - 1]) > Fit(x) {
      InsertStable(s[..|s| - 1], x, v);
      WithFitAppend(Insert(s[..|s| - 1], x), [s[|s| - 1]], v);
      assert [s[|s| - 1]][..0] == [];
    } else {
      WithFitAppend(s, [x], v);
      assert [x][..0] == [];
    }
  }

  /** Stability: for every fitness value, the individuals having it appear in
      the sorted sequence in the same order as in the input. */
  lemma {:induction false} SortStable(s: seq<Individual>, v: nat)
    requires Evaluated(s)
    ensures WithFit(SortByFitness(s), v) == WithFit(s, v)
  {
    if s != [] {
      SortStable(s[..|s| - 1], v);
      InsertStable(SortByFitness(s[..|s| - 1]), s[|s| - 1], v);
    }
  }

  /** Index of the first individual of minimal fitness. */
  function FirstMinimum(s: seq<Individual>): (j: nat)
    requires |s| > 0 && Evaluated(s)
    ensures j < |s|
    ensures forall i :: 0 <= i < |s| ==> Fit(s[j]) <= Fit(s[i])
    ensures forall i :: 0 <= i < j ==> Fit(s[j]) < Fit(s[i])
  {
    if |s| == 1 then 0
    else
      var j := FirstMinimum(s[..|s| - 1]);
      assert s[j] == s[..|s| - 1][j];
      if Fit(s[|s| - 1]) < Fit(s[j]) then |s| - 1 else j
  }

  lemma {:induction false} InsertHead(s: seq<Individual>, x: Individual)
    requires |s| > 0 && Evaluated(s) && x.fitness.Some? && SortedByFitness(s)
    ensures Insert(s, x)[0] == if Fit(x) < Fit(s[0]) then x else s[0]
  {
    if Fit(s[|s| - 1]) > Fit(x) && |s| > 1 {
      InsertHead(s[..|s| - 1], x);
    }
  }

  /** Stability at the head: the first element after sorting is the first
      individual, in input order, that has the minimal fitness. */
  lemma {:induction false} SortHeadIsFirstMinimum(s: seq<Individual>)
    requires |s| > 0 && Evaluated(s)
    ensures SortByFitness(s)[0] == s[FirstMinimum(s)]
  {
    var prefix := s[..|s| - 1];
    if |s| == 1 {
      assert prefix == [];
    } else {
      SortHeadIsFirstMinimum(prefix);
      SortSorts(prefix);
      InsertHead(SortByFitness(prefix), s[|s| - 1]);
    }
  }

  /** Inserting `x` passes over a suffix of elements that are all larger. */
  lemma {:induction false} InsertSkips(s: seq<Individual>, x: Individual, j: nat)
    requires Evaluated(s) && x.fitness.Some? && j <= |s|
    requires forall k :: j <= k < |s| ==> Fit(s[k]) > Fit(x)
    ensures Insert(s, x) == Insert(s[..j], x) + s[j..]
  {
    if j < |s| {
      var prefix := s[..|s| - 1];
      InsertSkips(prefix, x, j);
      assert prefix[..j] == s[..j];
      assert s[j..] == prefix[j..] + [s[|s| - 1]];
    } else {
      assert s[..j] == s;
    }
  }

  /** The array shape one insertion pass leaves behind is Insert's result. */
  lemma InsertShape(s: seq<Individual>, x: Individual, j: nat, b: seq<Individual>)
    requires Evaluated(s) && x.fitness.Some? && j <= |s| && |b| == |s| + 1
    requires forall k :: j <= k < |s| ==> Fit(s[k]) > Fit(x)
    requires j > 0 ==> Fit(s[j - 1]) <= Fit(x)
    requires forall k :: 0 <= k < j ==> b[k] == s[k]
    requires b[j] == x
    requires forall k :: j < k < |b| ==> b[k] == s[k - 1]
    ensures b == Insert(s, x)
  {
    InsertSkips(s, x, j);
    var front := s[..j];
    assert Insert(front, x) == front + [x] by {
      if j > 0 {
        assert front[|front| - 1] == s[j - 1];
      }
    }
    var whole := front + [x] + s[j..];
    forall k | 0 <= k < |b|
      ensures b[k] == whole[k]
    {
    }
  }

  /** Sorting one more element is one more insertion. */
  lemma SortByFitnessSnoc(s: seq<Individual>, i: nat)
    requires Evaluated(s) && i < |s|
    ensures SortByFitness(s[..i + 1]) == Insert(SortByFitness(s[..i]), s[i])
  {
    assert s[..i + 1][..i] == s[..i];
  }

  /** One pass of insertion sort: a[i] moves left past every larger element of a[..i]. */
  method InsertIntoPrefix(a: array<Individual>, i: nat)
    requires i < a.Length && Evaluated(a[..])
    modifies a
    ensures a[..i + 1] == Insert(old(a[..i]), old(a[i]))
    ensures a[i + 1..] == old(a[i + 1..])
  {
    ghost var s := a[..i];
    ghost var tail := a[i + 1..];
    var x := a[i];
    assert Evaluated(s) && x.fitness.Some?;
    var j := i;
    while j > 0 && Fit(a[j - 1]) > Fit(x)
      invariant 0 <= j <= i
      invariant forall k :: 0 <= k < j ==> a[k] == s[k]
      invariant forall k :: j < k <= i ==> a[k] == s[k - 1]
      invariant forall k :: j <= k < i ==> Fit(s[k]) > Fit(x)
      invariant a[i + 1..] == tail
    {
      a[j] := a[j - 1];
      j := j - 1;
    }
    a[j] := x;
    InsertShape(s, x, j, a[..i + 1]);
  }

  /** What the sorting loop's invariant gives at the start of pass `i`. */
  lemma PassStart(s: seq<Individual>, i: nat, b: seq<Individual>)
    requires Evaluated(s) && i < |s| && b == SortByFitness(s[..i]) + s[i..]
    ensures Evaluated(b) && b[..i] == SortByFitness(s[..i]) && b[i] == s[i]
  {
    var sorted := SortByFitness(s[..i]);
    forall k | 0 <= k < |b|
      ensures b[k].fitness.Some?
    {
      if k < i { assert b[k] == sorted[k]; } else { assert b[k] == s[k]; }
    }
    assert b[..i] == sorted;
  }

  /** Pass `i` of the sorting loop re-establishes its invariant for `i + 1`. */
  lemma PassEnd(s: seq<Individual>, i: nat, b: seq<Individual>)
    requires Evaluated(s) && i < |s| && |b| == |s|
    requires b[..i + 1] == Insert(SortByFitness(s[..i]), s[i]) && b[i + 1..] == s[i + 1..]
    ensures b == SortByFitness(s[..i + 1]) + s[i + 1..]
  {
    SortByFitnessSnoc(s, i);
    assert b == b[..i + 1] + b[i + 1..];
  }

  /** Insertion sort in place on the array. */
  method SortInPlace(a: array<Individual>)
    requires Evaluated(a[..])
    modifies a
    ensures a[..] == SortByFitness(old(a[..]))
  {
    ghost var s := a[..];
    var i := 0;
    while i < a.Length
      invariant 0 <= i <= a.Length
      invariant a[..] == SortByFitness(s[..i]) + s[i..]
    {
      PassStart(s, i, a[..]);
      InsertIntoPrefix(a, i);
      PassEnd(s, i, a[..]);
      i := i + 1;
    }
    assert s[..a.Length] == s;
  }
}
