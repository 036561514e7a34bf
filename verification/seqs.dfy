/** Sequence utilities shared by the link extractors and the toast list:
    duplicate-free sequences, order-preserving filtering, and the
    first-occurrence de-duplication that both `[...new Set(xs)]` and the
    "push unless `includes`" loop perform. */
module Seqs {

  /** No element occurs twice. */
  predicate Distinct<T(==,!new)>(xs: seq<T>) {
    forall i, j :: 0 <= i < j < |xs| ==> xs[i] != xs[j]
  }

  /** Position of the first occurrence of `x`. */
  function FirstIndex<T(==,!new)>(xs: seq<T>, x: T): (i: nat)
    requires x in xs
    ensures i < |xs| && xs[i] == x
    ensures forall k :: 0 <= k < i ==> xs[k] != x
  {
    if xs[0] == x then 0 else 1 + FirstIndex(xs[1..], x)
  }

  /** `xs.filter(p)`. */
  function Filter<T(!new)>(xs: seq<T>, p: T -> bool): (r: seq<T>)
    ensures |r| <= |xs|
    ensures forall x :: x in r <==> x in xs && p(x)
    ensures forall i :: 0 <= i < |r| ==> p(r[i])
  {
    if xs == [] then []
    else (if p(xs[0]) then [xs[0]] else []) + Filter(xs[1..], p)
  }

  /** Filtering distributes over concatenation, so it keeps the relative order of the survivors. */
  lemma {:induction false} FilterConcat<T(!new)>(a: seq<T>, b: seq<T>, p: T -> bool)
    ensures Filter(a + b, p) == Filter(a, p) + Filter(b, p)
  {
    if a == [] {
      assert a + b == b;
    } else {
      assert (a + b)[1..] == a[1..] + b;
      FilterConcat(a[1..], b, p);
    }
  }

  /** Filtering keeps everything exactly when every element passes. */
  lemma {:induction false} FilterKeepsAll<T(!new)>(xs: seq<T>, p: T -> bool)
    ensures Filter(xs, p) == xs <==> forall i :: 0 <= i < |xs| ==> p(xs[i])
    ensures |Filter(xs, p)| == |xs| <==> forall i :: 0 <= i < |xs| ==> p(xs[i])
  {
    if xs != [] {
      FilterKeepsAll(xs[1..], p);
      assert forall i :: 1 <= i < |xs| ==> xs[i] == xs[1..][i - 1];
    }
  }

  /** A filtered duplicate-free sequence is still duplicate-free. */
  lemma {:induction false} FilterDistinct<T(!new)>(xs: seq<T>, p: T -> bool)
    requires Distinct(xs)
    ensures Distinct(Filter(xs, p))
  {
    if xs != [] {
      FilterDistinct(xs[1..], p);
    }
  }

  /** Appends, left to right, every element of `xs` not already present. */
  function AppendNew<T(==,!new)>(acc: seq<T>, xs: seq<T>): (r: seq<T>)
    ensures |acc| <= |r| && r[..|acc|] == acc
    ensures forall x :: x in r <==> x in acc || x in xs
    ensures Distinct(acc) ==> Distinct(r)
    decreases |xs|
  {
    if xs == [] then acc
    else AppendNew(if xs[0] in acc then acc else acc + [xs[0]], xs[1..])
  }

  /** First-occurrence de-duplication. */
  function Dedup<T(==,!new)>(xs: seq<T>): (r: seq<T>)
    ensures Distinct(r)
    ensures forall x :: x in r <==> x in xs
  {
    AppendNew([], xs)
  }

  /** Adding the elements of `xs + ys` is adding those of `xs`, then those of `ys`. */
  lemma {:induction false} AppendNewConcat<T(!new)>(acc: seq<T>, xs: seq<T>, ys: seq<T>)
    ensures AppendNew(acc, xs + ys) == AppendNew(AppendNew(acc, xs), ys)
    decreases |xs|
  {
    if xs == [] {
      assert xs + ys == ys;
    } else {
      assert (xs + ys)[0] == xs[0];
      assert (xs + ys)[1..] == xs[1..] + ys;
      AppendNewConcat(if xs[0] in acc then acc else acc + [xs[0]], xs[1..], ys);
    }
  }

  /** De-duplicating one more element appends it exactly when it is new. */
  lemma DedupSnoc<T(!new)>(xs: seq<T>, x: T)
    ensures Dedup(xs + [x]) == if x in xs then Dedup(xs) else Dedup(xs) + [x]
  {
    AppendNewConcat([], xs, [x]);
    assert [x][1..] == [];
  }

  /** Two elements: both are kept, in order, unless they are equal. */
  lemma DedupPair<T(!new)>(a: T, b: T)
    ensures Dedup([a, b]) == if a == b then [a] else [a, b]
  {
    DedupSnoc([a], b);
    DedupSnoc([], a);
    assert [a, b] == [a] + [b];
    assert [] + [a] == [a];
  }

  /** An element repeated straight away is kept once. */
  lemma DedupRepeatedFirst<T(!new)>(a: T, b: T)
    ensures Dedup([a, a, b]) == Dedup([a, b])
  {
    DedupSnoc([a, a], b);
    DedupSnoc([a], a);
    DedupSnoc([a], b);
    assert [a, a, b] == [a, a] + [b];
    assert [a, a] == [a] + [a];
    assert [a, b] == [a] + [b];
  }

  /** The de-duplicated sequence lists elements in the order they first occur. */
  lemma {:induction false} DedupFirstOccurrenceOrder<T(!new)>(xs: seq<T>)
    ensures forall i, j :: 0 <= i < j < |Dedup(xs)| ==>
      FirstIndex(xs, Dedup(xs)[i]) < FirstIndex(xs, Dedup(xs)[j])
    decreases |xs|
  {
    if xs != [] {
      var init, x := xs[..|xs| - 1], xs[|xs| - 1];
      assert xs == init + [x];
      DedupFirstOccurrenceOrder(init);
      DedupSnoc(init, x);
      forall y | y in init
        ensures FirstIndex(xs, y) == FirstIndex(init, y)
      {
        FirstIndexPrefix(init, [x], y);
      }
      if x !in init {
        assert FirstIndex(xs, x) == |init| by {
          assert forall k :: 0 <= k < |init| ==> xs[k] == init[k];
        }
      }
    }
  }

  /** The first occurrence of an element of `a` in `a + b` lies inside `a`. */
  lemma {:induction false} FirstIndexPrefix<T(!new)>(a: seq<T>, b: seq<T>, y: T)
    requires y in a
    ensures FirstIndex(a + b, y) == FirstIndex(a, y)
  {
    var i := FirstIndex(a, y);
    var j := FirstIndex(a + b, y);
    assert (a + b)[i] == y;
  }

  /** A sequence that is already duplicate-free is its own de-duplication. */
  lemma {:induction false} DedupOfDistinct<T(!new)>(xs: seq<T>)
    requires Distinct(xs)
    ensures Dedup(xs) == xs
    decreases |xs|
  {
    if xs != [] {
      var init, x := xs[..|xs| - 1], xs[|xs| - 1];
      assert xs == init + [x];
      assert Distinct(init);
      DedupOfDistinct(init);
      DedupSnoc(init, x);
      assert x !in init by {
        assert forall k :: 0 <= k < |init| ==> init[k] == xs[k];
      }
    }
  }

  /** De-duplication is idempotent. */
  lemma DedupIdempotent<T(!new)>(xs: seq<T>)
    ensures Dedup(Dedup(xs)) == Dedup(xs)
  {
    DedupOfDistinct(Dedup(xs));
  }

  /** The elements of a duplicate-free sequence, as a set, are as many as its length. */
  lemma {:induction false} DistinctCard<T(!new)>(xs: seq<T>)
    requires Distinct(xs)
    ensures |(set x | x in xs)| == |xs|
  {
    if xs != [] {
      DistinctCard(xs[1..]);
      assert (set x | x in xs) == {xs[0]} + (set x | x in xs[1..]);
      assert xs[0] !in xs[1..];
    }
  }

  /** Filtering with a predicate that holds at least wherever another does
      keeps at least as many elements. */
  lemma {:induction false} FilterMonotone<T(!new)>(xs: seq<T>, p: T -> bool, q: T -> bool)
    requires forall i :: 0 <= i < |xs| && p(xs[i]) ==> q(xs[i])
    ensures |Filter(xs, p)| <= |Filter(xs, q)|
  {
    if xs != [] {
      assert forall i :: 0 <= i < |xs[1..]| ==> xs[1..][i] == xs[i + 1];
      FilterMonotone(xs[1..], p, q);
    }
  }

  /** Predicates that agree on every element filter alike. */
  lemma {:induction false} FilterCongruent<T(!new)>(xs: seq<T>, p: T -> bool, q: T -> bool)
    requires forall i :: 0 <= i < |xs| ==> p(xs[i]) == q(xs[i])
    ensures Filter(xs, p) == Filter(xs, q)
  {
    if xs != [] {
      assert forall i :: 0 <= i < |xs[1..]| ==> xs[1..][i] == xs[i + 1];
      FilterCongruent(xs[1..], p, q);
    }
  }
}
