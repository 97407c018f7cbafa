/** Sequence operations both scripts rely on: order-preserving deduplication
    (the `seen` set plus `append` loops), filtering in order (list building
    with `if`/`append`), and "the first candidate that applies" (a `for` loop
    with `break`).
 */
module Seqs {

  datatype Option<T> = None | Some(value: T)

  predicate NoDups<T(==)>(xs: seq<T>) {
    forall i, j :: 0 <= i < j < |xs| ==> xs[i] != xs[j]
  }

  /** The position of the first occurrence of `x` in `xs`. */
  function FirstIndex<T(==)>(xs: seq<T>, x: T): (i: nat)
    requires x in xs
    ensures i < |xs| && xs[i] == x
    ensures forall k :: 0 <= k < i ==> xs[k] != x
  {
    if xs[0] == x then 0 else 1 + FirstIndex(xs[1..], x)
  }

  /** Every element of `r` occurs in `xs`, and `r` lists them in the order of
      their first occurrences in `xs`. */
  predicate InFirstOccurrenceOrder<T(==)>(r: seq<T>, xs: seq<T>) {
    && (forall x :: x in r ==> x in xs)
    && forall i, j :: 0 <= i < j < |r| ==> FirstIndex(xs, r[i]) < FirstIndex(xs, r[j])
  }

  /** A first occurrence in a prefix is the first occurrence in the whole sequence. */
  lemma {:induction false} FirstIndexPrefix<T>(xs: seq<T>, n: nat, x: T)
    requires n <= |xs| && x in xs[..n]
    ensures x in xs && FirstIndex(xs, x) == FirstIndex(xs[..n], x)
  {
    var i := FirstIndex(xs[..n], x);
    assert xs[i] == x;
    assert forall k :: 0 <= k < i ==> xs[k] == xs[..n][k];
    FirstIndexIs(xs, x, i);
  }

  /** The first index is the one position holding `x` with no `x` before it. */
  lemma FirstIndexIs<T>(xs: seq<T>, x: T, i: nat)
    requires i < |xs| && xs[i] == x
    requires forall k :: 0 <= k < i ==> xs[k] != x
    ensures FirstIndex(xs, x) == i
  {
    var j := FirstIndex(xs, x);
    assert !(j < i) && !(i < j);
  }

  /** Keeps the first occurrence of every element and drops the later ones, in one
      left-to-right pass with a set of values already seen. */
  function Dedup<T(==,!new)>(xs: seq<T>): (r: seq<T>)
    ensures NoDups(r)
    ensures forall x :: x in r <==> x in xs
    ensures |r| <= |xs|
    ensures forall i, j :: 0 <= i < j < |r| ==> FirstIndex(xs, r[i]) < FirstIndex(xs, r[j])
  {
    if |xs| == 0 then []
    else
      var front := xs[..|xs| - 1];
      var last := xs[|xs| - 1];
      var d := Dedup(front);
      assert xs == front + [last];
      if last in d then
        DedupKeepsOrder(xs, d, |xs| - 1);
        d
      else
        var r := d + [last];
        DedupKeepsOrder(xs, d, |xs| - 1);
        assert FirstIndex(xs, last) == |xs| - 1;
        r
  }

  /** The first indices of the elements of a deduplicated prefix do not change
      when the sequence grows. */
  lemma DedupKeepsOrder<T(!new)>(xs: seq<T>, d: seq<T>, n: nat)
    requires n <= |xs|
    requires forall x :: x in d <==> x in xs[..n]
    requires forall i, j :: 0 <= i < j < |d| ==> FirstIndex(xs[..n], d[i]) < FirstIndex(xs[..n], d[j])
    ensures forall i :: 0 <= i < |d| ==> d[i] in xs && FirstIndex(xs, d[i]) == FirstIndex(xs[..n], d[i]) < n
    ensures forall i, j :: 0 <= i < j < |d| ==> FirstIndex(xs, d[i]) < FirstIndex(xs, d[j])
  {
    forall i | 0 <= i < |d|
      ensures d[i] in xs && FirstIndex(xs, d[i]) == FirstIndex(xs[..n], d[i]) < n
    {
      FirstIndexPrefix(xs, n, d[i]);
    }
  }

  /** A sequence without duplicates is its own deduplication, so deduplicating
      twice is deduplicating once. */
  lemma {:induction false} DedupOfDistinct<T(!new)>(xs: seq<T>)
    requires NoDups(xs)
    ensures Dedup(xs) == xs
  {
    if |xs| > 0 {
      var front := xs[..|xs| - 1];
      DedupOfDistinct(front);
      assert xs[|xs| - 1] !in front;
      assert front + [xs[|xs| - 1]] == xs;
    }
  }

  /** The elements of `xs` that satisfy `p`, in their order in `xs`: the list a
      loop builds when it appends exactly the elements that pass a test. */
  function Select<T(!new)>(xs: seq<T>, p: T -> bool): (r: seq<T>)
    ensures |r| <= |xs|
    ensures forall x :: x in r <==> x in xs && p(x)
  {
    if |xs| == 0 then []
    else
      var front := xs[..|xs| - 1];
      var last := xs[|xs| - 1];
      assert xs == front + [last];
      var s := Select(front, p);
      if p(last) then s + [last] else s
  }

  /** Filtering a non-empty sequence is filtering all but its last element and then
      deciding on the last one. */
  lemma SelectLast<T(!new)>(xs: seq<T>, p: T -> bool)
    requires |xs| > 0
    ensures var last := xs[|xs| - 1];
            Select(xs, p) == if p(last) then Select(xs[..|xs| - 1], p) + [last] else Select(xs[..|xs| - 1], p)
  {
  }

  /** Filtering a three-element sequence, spelled out. */
  lemma SelectOfThree<T(!new)>(a: T, b: T, c: T, p: T -> bool)
    ensures Select([a, b, c], p) == (if p(a) then [a] else []) + (if p(b) then [b] else []) + (if p(c) then [c] else [])
  {
    SelectLast([a], p);
    assert [a][..0] == [];
    SelectLast([a, b], p);
    assert [a, b][..1] == [a];
    SelectLast([a, b, c], p);
    assert [a, b, c][..2] == [a, b];
  }

  lemma SelectAppend<T(!new)>(xs: seq<T>, x: T, p: T -> bool)
    ensures Select(xs + [x], p) == if p(x) then Select(xs, p) + [x] else Select(xs, p)
  {
    assert (xs + [x])[..|xs|] == xs;
  }

  /** Filtering a one-element sequence keeps the element exactly when it passes. */
  lemma SelectOfOne<T(!new)>(x: T, p: T -> bool)
    ensures Select([x], p) == if p(x) then [x] else []
  {
    assert [x][..0] == [];
  }

  /** Filtering a concatenation is concatenating the filtered parts; with
      `SelectOfOne` this fixes the order and the multiplicity of every element kept. */
  lemma {:induction false} SelectConcat<T(!new)>(xs: seq<T>, ys: seq<T>, p: T -> bool)
    ensures Select(xs + ys, p) == Select(xs, p) + Select(ys, p)
  {
    if |ys| == 0 {
      assert xs + ys == xs;
    } else {
      var front := ys[..|ys| - 1];
      var last := ys[|ys| - 1];
      assert ys == front + [last];
      assert xs + ys == (xs + front) + [last];
      SelectConcat(xs, front, p);
      SelectAppend(xs + front, last, p);
      SelectAppend(front, last, p);
    }
  }

  /** Every element that passes occurs as often in the result as in `xs`; the
      others do not occur. */
  lemma {:induction false} SelectCounts<T(!new)>(xs: seq<T>, p: T -> bool, x: T)
    ensures multiset(Select(xs, p))[x] == if p(x) then multiset(xs)[x] else 0
  {
    if |xs| > 0 {
      var front := xs[..|xs| - 1];
      var last := xs[|xs| - 1];
      assert xs == front + [last];
      SelectCounts(front, p, x);
      SelectLast(xs, p);
    }
  }

  /** Filtering twice is filtering once by the conjunction of the two tests. */
  lemma {:induction false} SelectSelect<T(!new)>(xs: seq<T>, p: T -> bool, q: T -> bool, pq: T -> bool)
    requires forall x :: pq(x) == (p(x) && q(x))
    ensures Select(Select(xs, p), q) == Select(xs, pq)
  {
    if |xs| > 0 {
      var front := xs[..|xs| - 1];
      var last := xs[|xs| - 1];
      SelectSelect(front, p, q, pq);
      if p(last) {
        SelectAppend(Select(front, p), last, q);
      }
    }
  }

  /** Two tests that split the elements satisfying `f` between them, with no overlap,
      split `Select(xs, f)` into two lists holding exactly its elements. */
  lemma {:induction false} SelectPartition<T(!new)>(xs: seq<T>, f: T -> bool, p: T -> bool, q: T -> bool)
    requires forall x :: f(x) == (p(x) || q(x))
    requires forall x :: !(p(x) && q(x))
    ensures multiset(Select(xs, p)) + multiset(Select(xs, q)) == multiset(Select(xs, f))
    ensures |Select(xs, p)| + |Select(xs, q)| == |Select(xs, f)|
  {
    if |xs| > 0 {
      SelectPartition(xs[..|xs| - 1], f, p, q);
    }
    assert |multiset(Select(xs, p))| == |Select(xs, p)|;
    assert |multiset(Select(xs, q))| == |Select(xs, q)|;
    assert |multiset(Select(xs, f))| == |Select(xs, f)|;
  }

  /** The values `f` yields for the elements of `xs`, in order, skipping the
      elements for which it yields nothing: the list a loop builds when each element
      appends at most one value. */
  function FilterMap<T, U>(xs: seq<T>, f: T -> Option<U>): (r: seq<U>)
    ensures |r| <= |xs|
  {
    if |xs| == 0 then []
    else
      FilterMap(xs[..|xs| - 1], f) + match f(xs[|xs| - 1]) case Some(y) => [y] case None => []
  }

  lemma FilterMapOfOne<T, U>(x: T, f: T -> Option<U>)
    ensures FilterMap([x], f) == if f(x).Some? then [f(x).value] else []
  {
    assert [x][..0] == [];
  }

  /** Mapping a concatenation is concatenating the mapped parts; with
      `FilterMapOfOne` this fixes the order and the multiplicity of the values. */
  lemma {:induction false} FilterMapConcat<T, U>(xs: seq<T>, ys: seq<T>, f: T -> Option<U>)
    ensures FilterMap(xs + ys, f) == FilterMap(xs, f) + FilterMap(ys, f)
  {
    if |ys| == 0 {
      assert xs + ys == xs;
    } else {
      var front := ys[..|ys| - 1];
      assert ys[..|ys| - 1] == front;
      assert (xs + ys)[..|xs + ys| - 1] == xs + front;
      FilterMapConcat(xs, front, f);
    }
  }

  /** A value is in the result exactly when some element yields it. */
  lemma {:induction false} FilterMapMembers<T, U>(xs: seq<T>, f: T -> Option<U>, y: U)
    ensures y in FilterMap(xs, f) <==> exists i :: 0 <= i < |xs| && f(xs[i]) == Some(y)
  {
    if |xs| > 0 {
      var front := xs[..|xs| - 1];
      FilterMapMembers(front, f, y);
      if exists i :: 0 <= i < |xs| && f(xs[i]) == Some(y) {
        var i :| 0 <= i < |xs| && f(xs[i]) == Some(y);
        if i < |front| {
          assert front[i] == xs[i];
        }
      }
      if exists i :: 0 <= i < |front| && f(front[i]) == Some(y) {
        var i :| 0 <= i < |front| && f(front[i]) == Some(y);
        assert front[i] == xs[i];
      }
    }
  }

  /** The set of the values `f` yields for the elements of `xs`: the set a loop
      fills by adding one value per element. */
  function SetOf<T, U>(xs: seq<T>, f: T -> U): (r: set<U>)
    ensures |r| <= |xs|
  {
    if |xs| == 0 then {}
    else
      var rest := SetOf(xs[..|xs| - 1], f);
      assert |rest + {f(xs[|xs| - 1])}| <= |rest| + 1;
      rest + {f(xs[|xs| - 1])}
  }

  /** A value is in the set exactly when some element yields it. */
  lemma {:induction false} SetOfMembers<T, U>(xs: seq<T>, f: T -> U, y: U)
    ensures y in SetOf(xs, f) <==> exists i :: 0 <= i < |xs| && f(xs[i]) == y
  {
    if |xs| > 0 {
      var front := xs[..|xs| - 1];
      SetOfMembers(front, f, y);
      if exists i :: 0 <= i < |xs| && f(xs[i]) == y {
        var i :| 0 <= i < |xs| && f(xs[i]) == y;
        if i < |front| {
          assert front[i] == xs[i];
        }
      }
      if exists i :: 0 <= i < |front| && f(front[i]) == y {
        var i :| 0 <= i < |front| && f(front[i]) == y;
        assert front[i] == xs[i];
      }
    }
  }

  /** The position of the first element of `xs` that satisfies `p`, if there is one:
      the element a `for` loop over candidates reaches before it `break`s. */
  function FirstWhere<T>(xs: seq<T>, p: T -> bool): (r: Option<nat>)
    ensures r.Some? ==> r.value < |xs| && p(xs[r.value])
    ensures r.Some? ==> forall j :: 0 <= j < r.value ==> !p(xs[j])
    ensures r.None? ==> forall j :: 0 <= j < |xs| ==> !p(xs[j])
  {
    if |xs| == 0 then None
    else if p(xs[0]) then Some(0)
    else
      match FirstWhere(xs[1..], p)
      case Some(i) => Some(i + 1)
      case None => None
  }

  /** Those facts pin the answer down: the first index that passes is the only one
      that can be returned. */
  lemma FirstWhereIs<T>(xs: seq<T>, p: T -> bool, i: nat)
    requires i < |xs| && p(xs[i])
    requires forall j :: 0 <= j < i ==> !p(xs[j])
    ensures FirstWhere(xs, p) == Some(i)
  {
  }
}
