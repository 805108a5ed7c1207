/** Generic building blocks used by every other module: an optional value,
    the leftmost position satisfying a test (how an unanchored pattern finds its
    match), and order-preserving filtering of sequences (how the feed loop and
    the widget filters drop records). */
module Common {

  datatype Option<T> = None | Some(value: T)

  /** The least position in [lo, hi] at which `ok` holds, if there is one. */
  function FirstWhere(lo: nat, hi: nat, ok: nat -> bool): (r: Option<nat>)
    decreases hi + 1 - lo
    ensures r.Some? ==> lo <= r.value <= hi && ok(r.value)
    ensures r.Some? ==> forall q :: lo <= q < r.value ==> !ok(q)
    ensures r.None? ==> forall q :: lo <= q <= hi ==> !ok(q)
  {
    if lo > hi then None
    else if ok(lo) then Some(lo)
    else FirstWhere(lo + 1, hi, ok)
  }

  /** A position where `ok` holds and holds nowhere before is the one found. */
  lemma FirstWhereIs(lo: nat, hi: nat, ok: nat -> bool, p: nat)
    requires lo <= p <= hi && ok(p)
    requires forall q :: lo <= q < p ==> !ok(q)
    ensures FirstWhere(lo, hi, ok) == Some(p)
  {
  }

  /** Two tests that agree on [lo, hi] find the same first position. */
  lemma {:induction false} FirstWhereSame(lo: nat, hi: nat, ok1: nat -> bool, ok2: nat -> bool)
    requires forall q :: lo <= q <= hi ==> ok1(q) == ok2(q)
    ensures FirstWhere(lo, hi, ok1) == FirstWhere(lo, hi, ok2)
    decreases hi + 1 - lo
  {
    if lo <= hi && !ok1(lo) {
      FirstWhereSame(lo + 1, hi, ok1, ok2);
    }
  }

  /** `a` can be obtained from `b` by deleting elements (order kept). */
  predicate IsSubsequence<T(==)>(a: seq<T>, b: seq<T>)
    decreases |b|
  {
    if a == [] then true
    else if b == [] then false
    else if a[0] == b[0] then IsSubsequence(a[1..], b[1..])
    else IsSubsequence(a, b[1..])
  }

  /** The elements of `xs` that satisfy `p`, in their original order. */
  function Filter<T>(xs: seq<T>, p: T -> bool): (r: seq<T>)
    ensures |r| <= |xs|
    ensures forall k :: 0 <= k < |r| ==> p(r[k])
  {
    if xs == [] then []
    else (if p(xs[0]) then [xs[0]] else []) + Filter(xs[1..], p)
  }

  /** Apply `f` to every element and keep the values it produces, in order. */
  function FilterMap<A, B>(xs: seq<A>, f: A -> Option<B>): (r: seq<B>)
    ensures |r| <= |xs|
  {
    if xs == [] then []
    else (match f(xs[0]) case Some(y) => [y] case None => []) + FilterMap(xs[1..], f)
  }

  /** Number of elements of `xs` that satisfy `p`. */
  function CountWhere<T>(xs: seq<T>, p: T -> bool): nat
  {
    if xs == [] then 0 else (if p(xs[0]) then 1 else 0) + CountWhere(xs[1..], p)
  }

  lemma {:induction false} SubsequenceReflexive<T>(xs: seq<T>)
    ensures IsSubsequence(xs, xs)
    decreases |xs|
  {
    if xs != [] {
      SubsequenceReflexive(xs[1..]);
    }
  }

  lemma {:induction false} SubsequenceDropHead<T>(a: seq<T>, b: seq<T>)
    requires a != [] && IsSubsequence(a, b)
    ensures IsSubsequence(a[1..], b)
    decreases |b|, 1
  {
    if a[1..] != [] {
      if a[0] == b[0] {
        SubsequenceDropHead(a[1..], b[1..]);
        SubsequenceSkip(a[1..], b);
      } else {
        SubsequenceDropHead(a, b[1..]);
        SubsequenceSkip(a[1..], b);
      }
    }
  }

  lemma {:induction false} SubsequenceSkip<T>(a: seq<T>, b: seq<T>)
    requires b != [] && IsSubsequence(a, b[1..])
    ensures IsSubsequence(a, b)
    decreases |b|, 0
  {
    if a != [] && a[0] == b[0] {
      SubsequenceDropHead(a, b[1..]);
    }
  }

  /** Filtering deletes elements and never reorders the survivors. */
  lemma {:induction false} FilterIsSubsequence<T>(xs: seq<T>, p: T -> bool)
    ensures IsSubsequence(Filter(xs, p), xs)
    decreases |xs|
  {
    if xs != [] {
      FilterIsSubsequence(xs[1..], p);
      var rest := Filter(xs[1..], p);
      if p(xs[0]) {
        assert Filter(xs, p) == [xs[0]] + rest;
        assert ([xs[0]] + rest)[1..] == rest;
      } else {
        assert Filter(xs, p) == rest;
        SubsequenceSkip(rest, xs);
      }
    }
  }

  /** An element survives exactly when it was present and passes the test. */
  lemma {:induction false} FilterMembership<T>(xs: seq<T>, p: T -> bool, x: T)
    ensures x in Filter(xs, p) <==> x in xs && p(x)
    decreases |xs|
  {
    if xs != [] {
      FilterMembership(xs[1..], p, x);
      assert xs == [xs[0]] + xs[1..];
    }
  }

  /** A filter every element passes changes nothing. */
  lemma {:induction false} FilterKeepsAll<T>(xs: seq<T>, p: T -> bool)
    requires forall k :: 0 <= k < |xs| ==> p(xs[k])
    ensures Filter(xs, p) == xs
    decreases |xs|
  {
    if xs != [] {
      FilterKeepsAll(xs[1..], p);
    }
  }

  /** A filter no element passes leaves nothing. */
  lemma {:induction false} FilterDropsAll<T>(xs: seq<T>, p: T -> bool)
    requires forall k :: 0 <= k < |xs| ==> !p(xs[k])
    ensures Filter(xs, p) == []
    decreases |xs|
  {
    if xs != [] {
      FilterDropsAll(xs[1..], p);
    }
  }

  /** Filtering a concatenation filters each part: relative order is kept. */
  lemma {:induction false} FilterAppend<T>(xs: seq<T>, ys: seq<T>, p: T -> bool)
    ensures Filter(xs + ys, p) == Filter(xs, p) + Filter(ys, p)
    decreases |xs|
  {
    if xs == [] {
      assert xs + ys == ys;
    } else {
      assert (xs + ys)[1..] == xs[1..] + ys;
      FilterAppend(xs[1..], ys, p);
    }
  }

  /** Filtering a list with one more element at the end. */
  lemma FilterSnoc<T>(xs: seq<T>, x: T, p: T -> bool)
    ensures Filter(xs + [x], p) == Filter(xs, p) + (if p(x) then [x] else [])
  {
    FilterAppend(xs, [x], p);
    assert [x][1..] == [];
  }

  /** FilterMap of a concatenation is the concatenation of the FilterMaps. */
  lemma {:induction false} FilterMapAppend<A, B>(xs: seq<A>, ys: seq<A>, f: A -> Option<B>)
    ensures FilterMap(xs + ys, f) == FilterMap(xs, f) + FilterMap(ys, f)
    decreases |xs|
  {
    if xs == [] {
      assert xs + ys == ys;
    } else {
      assert (xs + ys)[1..] == xs[1..] + ys;
      FilterMapAppend(xs[1..], ys, f);
    }
  }

  /** FilterMap yields exactly one value per element that `f` accepts. */
  lemma {:induction false} FilterMapLength<A, B>(xs: seq<A>, f: A -> Option<B>, accepted: A -> bool)
    requires forall k :: 0 <= k < |xs| ==> accepted(xs[k]) == f(xs[k]).Some?
    ensures |FilterMap(xs, f)| == CountWhere(xs, accepted)
    decreases |xs|
  {
    if xs != [] {
      assert forall k :: 1 <= k < |xs| ==> xs[1..][k - 1] == xs[k];
      FilterMapLength(xs[1..], f, accepted);
    }
  }

  /** Every value FilterMap produces has a property every produced value has. */
  lemma {:induction false} FilterMapAll<A, B>(xs: seq<A>, f: A -> Option<B>, p: B -> bool)
    requires forall k :: 0 <= k < |xs| && f(xs[k]).Some? ==> p(f(xs[k]).value)
    ensures forall k :: 0 <= k < |FilterMap(xs, f)| ==> p(FilterMap(xs, f)[k])
    decreases |xs|
  {
    if xs != [] {
      assert forall k :: 1 <= k < |xs| ==> xs[1..][k - 1] == xs[k];
      FilterMapAll(xs[1..], f, p);
    }
  }

  /** `y` is produced exactly when some element of `xs` maps to it. */
  lemma {:induction false} FilterMapMembership<A, B>(xs: seq<A>, f: A -> Option<B>, y: B)
    ensures y in FilterMap(xs, f) <==> exists k :: 0 <= k < |xs| && f(xs[k]) == Some(y)
    decreases |xs|
  {
    if xs != [] {
      FilterMapMembership(xs[1..], f, y);
      if y in FilterMap(xs[1..], f) {
        var k :| 0 <= k < |xs[1..]| && f(xs[1..][k]) == Some(y);
        assert f(xs[k + 1]) == Some(y);
      }
      if exists k :: 0 <= k < |xs| && f(xs[k]) == Some(y) {
        var k :| 0 <= k < |xs| && f(xs[k]) == Some(y);
        if k > 0 {
          assert f(xs[1..][k - 1]) == Some(y);
        }
      }
    }
  }

  lemma CountStep<T>(xs: seq<T>, i: nat, p: T -> bool)
    requires i < |xs|
    ensures CountWhere(xs[..i + 1], p) == CountWhere(xs[..i], p) + (if p(xs[i]) then 1 else 0)
  {
    assert xs[..i + 1] == xs[..i] + [xs[i]];
    CountWhereSnoc(xs[..i], xs[i], p);
  }

  lemma {:induction false} CountWhereSnoc<T>(xs: seq<T>, x: T, p: T -> bool)
    ensures CountWhere(xs + [x], p) == CountWhere(xs, p) + (if p(x) then 1 else 0)
    decreases |xs|
  {
    if xs == [] {
      assert xs + [x] == [x];
    } else {
      assert (xs + [x])[1..] == xs[1..] + [x];
      CountWhereSnoc(xs[1..], x, p);
    }
  }

  lemma {:induction false} CountWhereBound<T>(xs: seq<T>, p: T -> bool)
    ensures CountWhere(xs, p) <= |xs|
    ensures CountWhere(xs, p) == |xs| <==> forall k :: 0 <= k < |xs| ==> p(xs[k])
    decreases |xs|
  {
    if xs != [] {
      CountWhereBound(xs[1..], p);
      assert forall k :: 1 <= k < |xs| ==> xs[1..][k - 1] == xs[k];
    }
  }

  lemma {:induction false} CountWhereSame<T>(xs: seq<T>, p: T -> bool, q: T -> bool)
    requires forall k :: 0 <= k < |xs| ==> p(xs[k]) == q(xs[k])
    ensures CountWhere(xs, p) == CountWhere(xs, q)
    decreases |xs|
  {
    if xs != [] {
      assert forall k :: 1 <= k < |xs| ==> xs[1..][k - 1] == xs[k];
      CountWhereSame(xs[1..], p, q);
    }
  }

}
