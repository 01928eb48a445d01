/** Sequence primitives the store and the dashboards are built from: the
    JavaScript `Array.prototype.filter` and `Array.prototype.find`, with the
    facts about them that the rest of the model relies on. */
module Seqs {

  /** `undefined` / `null` versus a value. */
  datatype Option<T> = None | Some(value: T) {
    function GetOr(default: T): T {
      match this
      case Some(v) => v
      case None => default
    }
  }

  /** `xs.filter(p)`: the elements of `xs` that satisfy `p`, in their order. */
  function Filter<T(==)>(xs: seq<T>, p: T -> bool): (r: seq<T>)
    ensures |r| <= |xs|
    ensures forall x :: x in r ==> x in xs && p(x)
    ensures forall x :: x in xs && p(x) ==> x in r
    decreases |xs|
  {
    if xs == [] then []
    else if p(xs[0]) then [xs[0]] + Filter(xs[1..], p)
    else Filter(xs[1..], p)
  }

  /** The number of elements of `xs` that satisfy `p`: `xs.filter(p).length`. */
  function Count<T(==)>(xs: seq<T>, p: T -> bool): nat {
    |Filter(xs, p)|
  }

  /** `xs.findIndex(p)`: the position of the first element satisfying `p`. */
  function FindIndex<T>(xs: seq<T>, p: T -> bool): (r: Option<nat>)
    ensures r.Some? ==> r.value < |xs| && p(xs[r.value])
    ensures r.Some? ==> forall j :: 0 <= j < r.value ==> !p(xs[j])
    ensures r.None? ==> forall j :: 0 <= j < |xs| ==> !p(xs[j])
    decreases |xs|
  {
    if xs == [] then None
    else if p(xs[0]) then Some(0)
    else
      match FindIndex(xs[1..], p)
      case None => None
      case Some(i) => Some(i + 1)
  }

  /** `xs.find(p)`: the first element satisfying `p`, or nothing. */
  function Find<T(==)>(xs: seq<T>, p: T -> bool): (r: Option<T>)
    ensures r.Some? ==> r.value in xs && p(r.value)
    ensures r.Some? ==> exists i :: 0 <= i < |xs| && xs[i] == r.value && forall j :: 0 <= j < i ==> !p(xs[j])
    ensures r.None? <==> forall x :: x in xs ==> !p(x)
  {
    match FindIndex(xs, p)
    case None => None
    case Some(i) => Some(xs[i])
  }

  /** Filtering distributes over concatenation, so filtering keeps the
      relative order of the elements it keeps. */
  lemma {:induction false} FilterConcat<T>(a: seq<T>, b: seq<T>, p: T -> bool)
    ensures Filter(a + b, p) == Filter(a, p) + Filter(b, p)
    decreases |a|
  {
    if a == [] {
      assert a + b == b;
    } else {
      assert (a + b)[0] == a[0];
      assert (a + b)[1..] == a[1..] + b;
      FilterConcat(a[1..], b, p);
    }
  }

  /** A filter that every element passes changes nothing. */
  lemma {:induction false} FilterKeepsAll<T>(xs: seq<T>, p: T -> bool)
    requires forall i :: 0 <= i < |xs| ==> p(xs[i])
    ensures Filter(xs, p) == xs
    decreases |xs|
  {
    if xs != [] {
      FilterKeepsAll(xs[1..], p);
    }
  }

  /** Filtering twice is filtering once by the conjunction. */
  lemma {:induction false} FilterFilter<T>(xs: seq<T>, p: T -> bool, q: T -> bool, pq: T -> bool)
    requires forall x :: pq(x) == (p(x) && q(x))
    ensures Filter(Filter(xs, p), q) == Filter(xs, pq)
    decreases |xs|
  {
    if xs != [] {
      FilterFilter(xs[1..], p, q, pq);
      if p(xs[0]) {
        assert Filter(xs, p) == [xs[0]] + Filter(xs[1..], p);
        FilterConcat([xs[0]], Filter(xs[1..], p), q);
        assert Filter([xs[0]], q) == if q(xs[0]) then [xs[0]] else [] by {
          assert [xs[0]][1..] == [];
        }
      }
    }
  }

  /** A weaker test keeps at least as many elements. */
  lemma {:induction false} CountMonotone<T>(xs: seq<T>, p: T -> bool, q: T -> bool)
    requires forall i :: 0 <= i < |xs| && p(xs[i]) ==> q(xs[i])
    ensures Count(xs, p) <= Count(xs, q)
    decreases |xs|
  {
    if xs != [] {
      CountMonotone(xs[1..], p, q);
    }
  }

  /** A weaker test that some element passes and the stronger one fails
      keeps strictly more elements. */
  lemma {:induction false} CountStrict<T>(xs: seq<T>, p: T -> bool, q: T -> bool, k: nat)
    requires forall i :: 0 <= i < |xs| && p(xs[i]) ==> q(xs[i])
    requires k < |xs| && q(xs[k]) && !p(xs[k])
    ensures Count(xs, p) < Count(xs, q)
    decreases |xs|
  {
    if k == 0 {
      CountMonotone(xs[1..], p, q);
    } else {
      CountStrict(xs[1..], p, q, k - 1);
    }
  }

  /** Counting by a disjunction of two exclusive tests adds the two counts. */
  lemma {:induction false} CountSplit<T>(xs: seq<T>, p: T -> bool, q: T -> bool, pq: T -> bool)
    requires forall x :: pq(x) == (p(x) || q(x))
    requires forall x :: !(p(x) && q(x))
    ensures Count(xs, pq) == Count(xs, p) + Count(xs, q)
    decreases |xs|
  {
    if xs != [] {
      CountSplit(xs[1..], p, q, pq);
    }
  }

  /** If exactly one position satisfies `p`, the count is one. */
  lemma {:induction false} CountOne<T>(xs: seq<T>, p: T -> bool, k: nat)
    requires k < |xs| && p(xs[k])
    requires forall j :: 0 <= j < |xs| && p(xs[j]) ==> j == k
    ensures Count(xs, p) == 1
    decreases |xs|
  {
    if k == 0 {
      assert forall j :: 0 <= j < |xs| - 1 ==> !p(xs[1..][j]);
      CountNone(xs[1..], p);
    } else {
      CountOne(xs[1..], p, k - 1);
    }
  }

  /** If no position satisfies `p`, the count is zero. */
  lemma {:induction false} CountNone<T>(xs: seq<T>, p: T -> bool)
    requires forall j :: 0 <= j < |xs| ==> !p(xs[j])
    ensures Count(xs, p) == 0
    decreases |xs|
  {
    if xs != [] {
      CountNone(xs[1..], p);
    }
  }

  /** Finding in a filtered sequence is finding by the conjunction. */
  lemma {:induction false} FindFilter<T>(xs: seq<T>, p: T -> bool, q: T -> bool, pq: T -> bool)
    requires forall x :: pq(x) == (p(x) && q(x))
    ensures Find(Filter(xs, p), q) == Find(xs, pq)
    decreases |xs|
  {
    if xs != [] {
      FindFilter(xs[1..], p, q, pq);
      var f := Filter(xs[1..], p);
      if p(xs[0]) {
        assert Filter(xs, p) == [xs[0]] + f;
        assert ([xs[0]] + f)[1..] == f;
      }
    }
  }

  /** Two sequences that agree on the test at every position up to the
      first hit of one of them have their first hit at the same place. */
  lemma FindIndexAgrees<T, U>(xs: seq<T>, p: T -> bool, ys: seq<U>, q: U -> bool, k: nat)
    requires k < |xs| && k < |ys|
    requires FindIndex(xs, p) == Some(k)
    requires forall i :: 0 <= i <= k ==> p(xs[i]) == q(ys[i])
    ensures FindIndex(ys, q) == Some(k)
  {
  }
}
