/** Left folds over sequences (JavaScript's `reduce((acc, x) => acc + f(x), 0)`) and order-preserving
    filters (`Array.prototype.filter`), with the algebra the GPA arithmetic relies on. */
module Sums {

  /** Sum of `f` over `s`, folded from the left exactly as `reduce` does. */
  function Sum<T>(s: seq<T>, f: T -> real): real
  {
    if |s| == 0 then 0.0 else Sum(s[..|s| - 1], f) + f(s[|s| - 1])
  }

  lemma {:induction false} SumAppend<T>(a: seq<T>, b: seq<T>, f: T -> real)
    ensures Sum(a + b, f) == Sum(a, f) + Sum(b, f)
    decreases |b|
  {
    if |b| == 0 {
      assert a + b == a;
    } else {
      var b' := b[..|b| - 1];
      assert (a + b)[..|a + b| - 1] == a + b';
      SumAppend(a, b', f);
    }
  }

  lemma SumSingleton<T>(x: T, f: T -> real)
    ensures Sum([x], f) == f(x)
  {
    assert [x][..0] == [];
  }

  /** Inserting one element anywhere adds its term to the sum. */
  lemma SumInsert<T>(before: seq<T>, x: T, after: seq<T>, f: T -> real)
    ensures Sum(before + [x] + after, f) == Sum(before + after, f) + f(x)
  {
    SumSingleton(x, f);
    SumAppend(before + [x], after, f);
    SumAppend(before, [x], f);
    SumAppend(before, after, f);
  }

  /** Replacing one element moves the fold by exactly the change in that element's term. */
  lemma SumUpdate<T>(s: seq<T>, i: nat, x: T, f: T -> real)
    requires i < |s|
    ensures Sum(s[i := x], f) == Sum(s, f) - f(s[i]) + f(x)
  {
    var before, after := s[..i], s[i + 1..];
    assert s == before + [s[i]] + after;
    assert s[i := x] == before + [x] + after;
    SumInsert(before, s[i], after, f);
    SumInsert(before, x, after, f);
  }

  /** The fold does not depend on the order of the elements. */
  lemma {:induction false} SumPermutation<T>(a: seq<T>, b: seq<T>, f: T -> real)
    requires multiset(a) == multiset(b)
    ensures Sum(a, f) == Sum(b, f)
    decreases |a|
  {
    if |a| == 0 {
      assert |b| == |multiset(b)| == 0;
    } else {
      var x := a[0];
      var i := SplitAt(a, b);
      SumPermutation(a[1..], b[..i] + b[i + 1..], f);
      SumAppend([x], a[1..], f);
      SumAppend(b[..i] + [x], b[i + 1..], f);
      SumAppend(b[..i], [x], f);
      SumAppend(b[..i], b[i + 1..], f);
      SumSingleton(x, f);
    }
  }

  /** Two functions that agree on every element have the same sum. */
  lemma {:induction false} SumPointwise<T>(s: seq<T>, f: T -> real, g: T -> real)
    requires forall x :: x in s ==> f(x) == g(x)
    ensures Sum(s, f) == Sum(s, g)
    decreases |s|
  {
    if |s| > 0 {
      SumPointwise(s[..|s| - 1], f, g);
    }
  }

  /** Pointwise `f <= g` carries over to the sums. */
  lemma {:induction false} SumMonotone<T>(s: seq<T>, f: T -> real, g: T -> real)
    requires forall x :: x in s ==> f(x) <= g(x)
    ensures Sum(s, f) <= Sum(s, g)
    decreases |s|
  {
    if |s| > 0 {
      SumMonotone(s[..|s| - 1], f, g);
    }
  }

  /** A sum of non-negative terms is non-negative. */
  lemma {:induction false} SumNonNegative<T>(s: seq<T>, f: T -> real)
    requires forall x :: x in s ==> 0.0 <= f(x)
    ensures 0.0 <= Sum(s, f)
    decreases |s|
  {
    if |s| > 0 {
      SumNonNegative(s[..|s| - 1], f);
    }
  }

  /** A total of `n` terms each within [lo, hi] has its mean within [lo, hi]. */
  lemma MeanWithin(total: real, n: real, lo: real, hi: real)
    requires n > 0.0
    requires lo * n <= total <= hi * n
    ensures lo <= total / n <= hi
  {
    var m := total / n;
    assert m * n == total;
  }

  /** The elements of `s` that satisfy `p`, in their original order. */
  function Filter<T>(s: seq<T>, p: T -> bool): (r: seq<T>)
    ensures |r| <= |s|
  {
    if |s| == 0 then []
    else
      var init := Filter(s[..|s| - 1], p);
      if p(s[|s| - 1]) then init + [s[|s| - 1]] else init
  }

  /** Filtering keeps every element satisfying `p` as often as it occurs, and no other. */
  lemma {:induction false} FilterMultiplicity<T>(s: seq<T>, p: T -> bool)
    ensures forall x :: multiset(Filter(s, p))[x] == if p(x) then multiset(s)[x] else 0
    ensures forall x :: x in Filter(s, p) <==> x in s && p(x)
    decreases |s|
  {
    if |s| > 0 {
      var init := s[..|s| - 1];
      var last := s[|s| - 1];
      FilterMultiplicity(init, p);
      assert s == init + [last];
      FilterSnoc(init, last, p);
      var kept := if p(last) then multiset{last} else multiset{};
      assert multiset(Filter(s, p)) == multiset(Filter(init, p)) + kept;
      assert multiset(s) == multiset(init) + multiset{last};
    }
    forall x
      ensures x in Filter(s, p) <==> x in s && p(x)
    {
      assert x in Filter(s, p) <==> x in multiset(Filter(s, p));
      assert x in s <==> x in multiset(s);
    }
  }

  lemma FilterSnoc<T>(s: seq<T>, x: T, p: T -> bool)
    ensures p(x) ==> Filter(s + [x], p) == Filter(s, p) + [x]
    ensures !p(x) ==> Filter(s + [x], p) == Filter(s, p)
  {
    assert (s + [x])[..|s|] == s;
  }

  /** The step of `FilterAppend`: appending one more element to `b` keeps the split. */
  lemma FilterAppendStep<T>(a: seq<T>, b: seq<T>, last: T, p: T -> bool)
    requires Filter(a + b, p) == Filter(a, p) + Filter(b, p)
    ensures Filter(a + (b + [last]), p) == Filter(a, p) + Filter(b + [last], p)
  {
    var fa, fb := Filter(a, p), Filter(b, p);
    assert a + (b + [last]) == (a + b) + [last];
    FilterSnoc(a + b, last, p);
    FilterSnoc(b, last, p);
    if p(last) {
      assert (fa + fb) + [last] == fa + (fb + [last]);
    }
  }

  /** Filtering keeps the relative order: it distributes over concatenation. */
  lemma {:induction false} FilterAppend<T>(a: seq<T>, b: seq<T>, p: T -> bool)
    ensures Filter(a + b, p) == Filter(a, p) + Filter(b, p)
    decreases |b|
  {
    if |b| == 0 {
      assert a + b == a;
    } else {
      var init := b[..|b| - 1];
      assert b == init + [b[|b| - 1]];
      FilterAppend(a, init, p);
      FilterAppendStep(a, init, b[|b| - 1], p);
    }
  }

  /** Dropping elements on which `f` is zero does not change the sum. */
  lemma {:induction false} SumFilterZero<T>(s: seq<T>, p: T -> bool, f: T -> real)
    requires forall x :: x in s && !p(x) ==> f(x) == 0.0
    ensures Sum(Filter(s, p), f) == Sum(s, f)
    decreases |s|
  {
    if |s| > 0 {
      var init := s[..|s| - 1];
      var last := s[|s| - 1];
      SumFilterZero(init, p, f);
      if p(last) {
        assert Filter(s, p) == Filter(init, p) + [last];
        SumAppend(Filter(init, p), [last], f);
        assert [last][..0] == [];
      }
    }
  }

  /** `s` with `g` applied to every element (`Array.prototype.map`). */
  function Map<T, U>(s: seq<T>, g: T -> U): (r: seq<U>)
    ensures |r| == |s|
    ensures forall i :: 0 <= i < |s| ==> r[i] == g(s[i])
  {
    seq(|s|, i requires 0 <= i < |s| => g(s[i]))
  }

  lemma MapAppend<T, U>(a: seq<T>, b: seq<T>, g: T -> U)
    ensures Map(a + b, g) == Map(a, g) + Map(b, g)
  {
    assert forall i :: 0 <= i < |a + b| ==> Map(a + b, g)[i] == (Map(a, g) + Map(b, g))[i];
  }

  /** Mapping two permutations of each other gives two permutations of each other. */
  lemma {:induction false} MapPermutation<T, U>(a: seq<T>, b: seq<T>, g: T -> U)
    requires multiset(a) == multiset(b)
    ensures multiset(Map(a, g)) == multiset(Map(b, g))
    decreases |a|
  {
    if |a| == 0 {
      assert |b| == |multiset(b)| == 0;
    } else {
      var x := a[0];
      var i := SplitAt(a, b);
      var rest := b[..i] + b[i + 1..];
      MapPermutation(a[1..], rest, g);
      MapAppend([x], a[1..], g);
      MapAppend(b[..i] + [x], b[i + 1..], g);
      MapAppend(b[..i], [x], g);
      MapAppend(b[..i], b[i + 1..], g);
      assert Map([x], g) == [g(x)];
      calc {
        multiset(Map(a, g));
        multiset([g(x)] + Map(a[1..], g));
        multiset{g(x)} + multiset(Map(rest, g));
        multiset{g(x)} + multiset(Map(b[..i], g)) + multiset(Map(b[i + 1..], g));
        multiset(Map(b[..i], g) + [g(x)] + Map(b[i + 1..], g));
        multiset(Map(b, g));
      }
    }
  }

  /** Where the first element of `a` sits in its permutation `b`, and what is left on both sides. */
  lemma SplitAt<T>(a: seq<T>, b: seq<T>) returns (i: nat)
    requires multiset(a) == multiset(b)
    requires |a| > 0
    ensures i < |b| && b[i] == a[0]
    ensures a == [a[0]] + a[1..]
    ensures b == b[..i] + [a[0]] + b[i + 1..]
    ensures multiset(a[1..]) == multiset(b[..i] + b[i + 1..])
  {
    var x := a[0];
    assert x in multiset(b);
    i :| 0 <= i < |b| && b[i] == x;
    assert b == b[..i] + [x] + b[i + 1..];
    assert a == [x] + a[1..];
    calc {
      multiset(a[1..]);
      multiset(a) - multiset{x};
      multiset(b) - multiset{x};
      { assert multiset(b) == multiset(b[..i]) + multiset{x} + multiset(b[i + 1..]); }
      multiset(b[..i] + b[i + 1..]);
    }
  }

  /** `splice(i, 1)` on a copy: the element at `i` is taken out and the others keep their order. */
  function RemoveAt<T>(s: seq<T>, i: nat): (r: seq<T>)
    requires i < |s|
    ensures |r| == |s| - 1
    ensures forall k :: 0 <= k < i ==> r[k] == s[k]
    ensures forall k :: i <= k < |r| ==> r[k] == s[k + 1]
    ensures multiset(r) + multiset{s[i]} == multiset(s)
  {
    assert s == s[..i] + [s[i]] + s[i + 1..];
    s[..i] + s[i + 1..]
  }

  /** Removing a position commutes with mapping every element. */
  lemma MapRemoveAt<T, U>(s: seq<T>, i: nat, g: T -> U)
    requires i < |s|
    ensures Map(RemoveAt(s, i), g) == RemoveAt(Map(s, g), i)
  {
    var l, r := Map(RemoveAt(s, i), g), RemoveAt(Map(s, g), i);
    forall k | 0 <= k < |l|
      ensures l[k] == r[k]
    {
      if k < i {
        assert RemoveAt(s, i)[k] == s[k];
      } else {
        assert RemoveAt(s, i)[k] == s[k + 1];
      }
    }
  }

  /** The filter predicate of a delete by id: keep the elements whose key is not `id`. */
  function KeepUnless<T>(key: T -> string, id: string): T -> bool
  {
    (x: T) => key(x) != id
  }
}
