/** Sums of real values over a list. */
module Sums {

  function Sum<T>(f: T -> real, xs: seq<T>): real {
    if xs == [] then 0.0 else f(xs[0]) + Sum(f, xs[1..])
  }

  lemma SumCons<T>(f: T -> real, x: T, xs: seq<T>)
    ensures Sum(f, [x] + xs) == f(x) + Sum(f, xs)
  {
    assert ([x] + xs)[1..] == xs;
  }

  /** A nonempty sum of positive values is positive. */
  lemma {:induction false} SumPositive<T>(f: T -> real, xs: seq<T>)
    requires xs != [] && forall i :: 0 <= i < |xs| ==> f(xs[i]) > 0.0
    ensures Sum(f, xs) > 0.0
    decreases |xs|
  {
    if |xs| > 1 {
      SumPositive(f, xs[1..]);
    }
  }

  lemma DivAdd(a: real, b: real, s: real)
    requires s != 0.0
    ensures a / s + b / s == (a + b) / s
  {
  }

  /** The terms of one sum are `c` times those of the other, one by one. */
  ghost predicate Proportional<T, U>(f: T -> real, c: real, g: U -> real, xs: seq<T>, ys: seq<U>) {
    |xs| == |ys| && forall i :: 0 <= i < |xs| ==> f(xs[i]) == c * g(ys[i])
  }

  lemma ProportionalCons<T, U>(f: T -> real, c: real, g: U -> real, x: T, xs: seq<T>, y: U, ys: seq<U>)
    requires f(x) == c * g(y) && Proportional(f, c, g, xs, ys)
    ensures Proportional(f, c, g, [x] + xs, [y] + ys)
  {
  }

  lemma {:induction false} SumProportional<T, U>(f: T -> real, c: real, g: U -> real, xs: seq<T>, ys: seq<U>)
    requires Proportional(f, c, g, xs, ys)
    ensures Sum(f, xs) == c * Sum(g, ys)
    decreases |xs|
  {
    if xs != [] {
      SumProportional(f, c, g, xs[1..], ys[1..]);
      Distribute(c, g(ys[0]), Sum(g, ys[1..]));
    }
  }

  /** In proportion, one sum vanishes with the other. */
  lemma SumVanishes<T, U>(f: T -> real, c: real, g: U -> real, xs: seq<T>, ys: seq<U>)
    requires Proportional(f, c, g, xs, ys) && c != 0.0
    ensures Sum(f, xs) == 0.0 <==> Sum(g, ys) == 0.0
  {
    SumProportional(f, c, g, xs, ys);
  }

  /** What is a fraction of its own sum adds up to one. */
  lemma SumNormal<T, U>(f: T -> real, c: real, g: U -> real, xs: seq<T>, ys: seq<U>)
    requires Proportional(f, c, g, xs, ys) && c != 0.0 && Sum(f, xs) == c
    ensures Sum(g, ys) == 1.0
  {
    SumProportional(f, c, g, xs, ys);
    CancelLeft(c, Sum(g, ys));
  }

  lemma CancelLeft(s: real, x: real)
    requires s != 0.0 && s == s * x
    ensures x == 1.0
  {
    assert s * (x - 1.0) == 0.0;
  }

  lemma Distribute(c: real, a: real, b: real)
    ensures c * (a + b) == c * a + c * b
  {
  }

  lemma ProductBounds(lo: real, c: real, hi: real, w: real)
    requires lo <= c <= hi && w >= 0.0
    ensures lo * w <= c * w <= hi * w
  {
    assert (c - lo) * w >= 0.0 && (hi - c) * w >= 0.0;
  }

  /** Every term lies between the bounds times its weight. */
  ghost predicate Bracketed<T>(term: T -> real, weight: T -> real, xs: seq<T>, lo: real, hi: real) {
    forall i :: 0 <= i < |xs| ==> lo * weight(xs[i]) <= term(xs[i]) <= hi * weight(xs[i])
  }

  /** The terms of one sum are those of two others added up, one by one. */
  ghost predicate Adds<T>(f: T -> real, g: T -> real, h: T -> real, xs: seq<T>) {
    forall i :: 0 <= i < |xs| ==> f(xs[i]) == g(xs[i]) + h(xs[i])
  }

  lemma {:induction false} SumAdds<T>(f: T -> real, g: T -> real, h: T -> real, xs: seq<T>)
    requires Adds(f, g, h, xs)
    ensures Sum(f, xs) == Sum(g, xs) + Sum(h, xs)
    decreases |xs|
  {
    if xs != [] {
      SumAdds(f, g, h, xs[1..]);
    }
  }

  lemma AddsCons<T>(f: T -> real, g: T -> real, h: T -> real, x: T, xs: seq<T>)
    requires f(x) == g(x) + h(x) && Adds(f, g, h, xs)
    ensures Adds(f, g, h, [x] + xs)
  {
  }

  ghost predicate Below<T>(f: T -> real, g: T -> real, xs: seq<T>) {
    forall i :: 0 <= i < |xs| ==> f(xs[i]) <= g(xs[i])
  }

  lemma {:induction false} SumMonotone<T>(f: T -> real, g: T -> real, xs: seq<T>)
    requires Below(f, g, xs)
    ensures Sum(f, xs) <= Sum(g, xs)
    decreases |xs|
  {
    if xs != [] {
      SumMonotone(f, g, xs[1..]);
    }
  }

  function Times<T>(c: real, f: T -> real): T -> real {
    x => c * f(x)
  }

  lemma SumTimes<T>(c: real, f: T -> real, xs: seq<T>)
    ensures Sum(Times(c, f), xs) == c * Sum(f, xs)
  {
    assert Proportional(Times(c, f), c, f, xs, xs);
    SumProportional(Times(c, f), c, f, xs, xs);
  }

  lemma SumTimesOne<T>(c: real, f: T -> real, xs: seq<T>)
    requires Sum(f, xs) == 1.0
    ensures Sum(Times(c, f), xs) == c
  {
    SumTimes(c, f, xs);
  }

  /** With weights that add up to one, the sum lies between the bounds themselves. */
  lemma MeanBetween<T>(term: T -> real, weight: T -> real, xs: seq<T>, lo: real, hi: real)
    requires Bracketed(term, weight, xs, lo, hi) && Sum(weight, xs) == 1.0
    ensures lo <= Sum(term, xs) <= hi
  {
    BracketedBelow(term, weight, xs, lo, hi);
    SumMonotone(Times(lo, weight), term, xs);
    SumMonotone(term, Times(hi, weight), xs);
    SumTimes(lo, weight, xs);
    SumTimes(hi, weight, xs);
  }

  lemma BracketedBelow<T>(term: T -> real, weight: T -> real, xs: seq<T>, lo: real, hi: real)
    requires Bracketed(term, weight, xs, lo, hi)
    ensures Below(Times(lo, weight), term, xs) && Below(term, Times(hi, weight), xs)
  {
  }

  function Without<T>(xs: seq<T>, i: nat): seq<T>
    requires i < |xs|
  {
    xs[..i] + xs[i + 1..]
  }

  lemma {:induction false} SumTakeOut<T>(f: T -> real, xs: seq<T>, i: nat)
    requires i < |xs|
    ensures Sum(f, xs) == f(xs[i]) + Sum(f, Without(xs, i))
    decreases |xs|
  {
    if i == 0 {
      assert Without(xs, 0) == xs[1..];
    } else {
      SumTakeOut(f, xs[1..], i - 1);
      assert Without(xs, i) == [xs[0]] + Without(xs[1..], i - 1);
    }
  }

  lemma MultisetWithout<T>(xs: seq<T>, i: nat)
    requires i < |xs|
    ensures multiset(Without(xs, i)) == multiset(xs) - multiset{xs[i]}
  {
    assert xs == xs[..i] + ([xs[i]] + xs[i + 1..]);
    assert multiset(xs) == multiset(xs[..i]) + (multiset{xs[i]} + multiset(xs[i + 1..]));
  }

  /** A sum does not depend on the order of its terms. */
  lemma {:induction false} SumPermutation<T>(f: T -> real, a: seq<T>, b: seq<T>)
    requires multiset(a) == multiset(b)
    ensures Sum(f, a) == Sum(f, b)
    decreases |a|
  {
    assert |a| == |multiset(a)| == |multiset(b)| == |b|;
    if a != [] {
      assert a[0] in multiset(b);
      var i :| 0 <= i < |b| && b[i] == a[0];
      SumTakeOut(f, b, i);
      MultisetWithout(a, 0);
      MultisetWithout(b, i);
      assert Without(a, 0) == a[1..];
      SumPermutation(f, a[1..], Without(b, i));
    }
  }
}
