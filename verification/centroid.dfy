/** The approximated location: an average of cell positions, weighted by the inverse of the signal, over reals. */
module Centroid {
  import opened Sums

  /** One matched cell: its position and the signal with which the terminal hears it. */
  datatype Match = Match(lat: real, lon: real, signal: real)

  datatype Outcome = NoData | DivisionByZero | Found(lat: real, lon: real)

  /** What is averaged. The average of `Unit` is the sum of the weights. */
  datatype Axis = Lat | Lon | Unit

  function Coord(axis: Axis, m: Match): real {
    match axis
    case Lat => m.lat
    case Lon => m.lon
    case Unit => 1.0
  }

  /** One over the signal; a signal of zero never gets this far. */
  function Inverse(m: Match): real {
    if m.signal == 0.0 then 0.0 else 1.0 / m.signal
  }

  function SumInverse(data: seq<Match>): real {
    Sum(Inverse, data)
  }

  function Weight(m: Match, sumsig: real): real
    requires sumsig != 0.0
  {
    Inverse(m) / sumsig
  }

  /** What one match contributes to an average. */
  function Term(axis: Axis, sumsig: real): Match -> real
    requires sumsig != 0.0
  {
    m => Coord(axis, m) * Weight(m, sumsig)
  }

  function Average(axis: Axis, data: seq<Match>, sumsig: real): real
    requires sumsig != 0.0
  {
    Sum(Term(axis, sumsig), data)
  }

  predicate HasZero(data: seq<Match>) {
    exists i :: 0 <= i < |data| && data[i].signal == 0.0
  }

  function Lookup(data: seq<Match>): Outcome {
    if data == [] then NoData
    else if HasZero(data) then DivisionByZero
    else
      var sumsig := SumInverse(data);
      if sumsig == 0.0 then DivisionByZero
      else Found(Average(Lat, data, sumsig), Average(Lon, data, sumsig))
  }

  predicate AllPositive(data: seq<Match>) {
    forall i :: 0 <= i < |data| ==> data[i].signal > 0.0
  }

  predicate AllNegative(data: seq<Match>) {
    forall i :: 0 <= i < |data| ==> data[i].signal < 0.0
  }

  predicate OneSign(data: seq<Match>) {
    AllPositive(data) || AllNegative(data)
  }

  // ----- arithmetic -----

  function Magnitude(x: real): real {
    if x < 0.0 then -x else x
  }

  lemma InverseSign(m: Match)
    ensures m.signal > 0.0 ==> Inverse(m) > 0.0
    ensures m.signal < 0.0 ==> Inverse(m) < 0.0
  {
    if m.signal != 0.0 {
      assert Inverse(m) * m.signal == 1.0;
    }
  }

  lemma QuotientSign(a: real, s: real)
    requires (a > 0.0 && s > 0.0) || (a < 0.0 && s < 0.0)
    ensures a / s > 0.0
  {
    var q := a / s;
    assert q * s == a;
  }

  lemma PositiveFactor(x: real, y: real)
    requires y > 0.0 && x * y > 0.0
    ensures x > 0.0
  {
  }

  lemma InverseOrder(a: real, b: real, p: real, q: real)
    requires 0.0 < a < b && p * a == 1.0 && q * b == 1.0
    ensures p > q
  {
    assert a * b > 0.0;
    assert (p - q) * (a * b) == (p * a) * b - (q * b) * a == b - a;
    PositiveFactor(p - q, a * b);
  }

  lemma InverseOrdered(m: Match, n: Match)
    requires (m.signal > 0.0 && n.signal > 0.0) || (m.signal < 0.0 && n.signal < 0.0)
    requires Magnitude(m.signal) < Magnitude(n.signal)
    ensures if m.signal > 0.0 then Inverse(m) > Inverse(n) else Inverse(m) < Inverse(n)
  {
    var a, b, p, q := m.signal, n.signal, Inverse(m), Inverse(n);
    assert p * a == 1.0 && q * b == 1.0;
    if a > 0.0 {
      InverseOrder(a, b, p, q);
    } else {
      InverseOrder(-a, -b, -p, -q);
    }
  }

  lemma QuotientOrder(p: real, q: real, s: real)
    requires (p > q && s > 0.0) || (p < q && s < 0.0)
    ensures p / s > q / s
  {
    QuotientSign(p - q, s);
    DivAdd(p - q, q, s);
  }

  // ----- the weights -----

  lemma SumInverseSign(data: seq<Match>)
    requires data != [] && OneSign(data)
    ensures AllPositive(data) ==> SumInverse(data) > 0.0
    ensures AllNegative(data) ==> SumInverse(data) < 0.0
  {
    forall i | 0 <= i < |data|
      ensures data[i].signal > 0.0 ==> Inverse(data[i]) > 0.0
      ensures data[i].signal < 0.0 ==> Inverse(data[i]) < 0.0
    {
      InverseSign(data[i]);
    }
    if AllPositive(data) {
      SumPositive(Inverse, data);
    } else {
      SumPositive(Times(-1.0, Inverse), data);
      SumTimes(-1.0, Inverse, data);
    }
  }

  /** With signals of one sign the lookup succeeds and every weight is positive. */
  lemma WeightsPositive(data: seq<Match>)
    requires data != [] && OneSign(data)
    ensures Lookup(data).Found?
    ensures SumInverse(data) != 0.0
    ensures forall i :: 0 <= i < |data| ==> Weight(data[i], SumInverse(data)) > 0.0
  {
    SumInverseSign(data);
    forall i | 0 <= i < |data| ensures Weight(data[i], SumInverse(data)) > 0.0 {
      InverseSign(data[i]);
      QuotientSign(Inverse(data[i]), SumInverse(data));
    }
  }

  /** The weights of any successful lookup add up to one. */
  lemma WeightsAddUp(data: seq<Match>)
    requires SumInverse(data) != 0.0
    ensures Average(Unit, data, SumInverse(data)) == 1.0
  {
    var sumsig := SumInverse(data);
    UnitTerms(data, sumsig);
    SumNormal(Inverse, sumsig, Term(Unit, sumsig), data, data);
  }

  lemma UnitTerm(m: Match, sumsig: real)
    requires sumsig != 0.0
    ensures Inverse(m) == sumsig * Term(Unit, sumsig)(m)
  {
    assert Term(Unit, sumsig)(m) == Weight(m, sumsig);
    assert Weight(m, sumsig) * sumsig == Inverse(m);
  }

  lemma UnitTerms(data: seq<Match>, sumsig: real)
    requires sumsig != 0.0
    ensures Proportional(Inverse, sumsig, Term(Unit, sumsig), data, data)
  {
    forall i | 0 <= i < |data| ensures Inverse(data[i]) == sumsig * Term(Unit, sumsig)(data[i]) {
      UnitTerm(data[i], sumsig);
    }
  }

  lemma TermBounds(axis: Axis, m: Match, sumsig: real, lo: real, hi: real)
    requires sumsig != 0.0 && lo <= Coord(axis, m) <= hi && Weight(m, sumsig) >= 0.0
    ensures lo * Term(Unit, sumsig)(m) <= Term(axis, sumsig)(m) <= hi * Term(Unit, sumsig)(m)
  {
    ProductBounds(lo, Coord(axis, m), hi, Weight(m, sumsig));
  }

  lemma AllTermBounds(axis: Axis, data: seq<Match>, sumsig: real, lo: real, hi: real)
    requires sumsig != 0.0
    requires forall i :: 0 <= i < |data| ==> lo <= Coord(axis, data[i]) <= hi && Weight(data[i], sumsig) >= 0.0
    ensures Bracketed(Term(axis, sumsig), Term(Unit, sumsig), data, lo, hi)
  {
    forall i | 0 <= i < |data|
      ensures lo * Term(Unit, sumsig)(data[i]) <= Term(axis, sumsig)(data[i]) <= hi * Term(Unit, sumsig)(data[i])
    {
      TermBounds(axis, data[i], sumsig, lo, hi);
    }
  }

  lemma AverageBounds(axis: Axis, data: seq<Match>, sumsig: real, lo: real, hi: real)
    requires sumsig != 0.0 && Average(Unit, data, sumsig) == 1.0
    requires forall i :: 0 <= i < |data| ==> lo <= Coord(axis, data[i]) <= hi && Weight(data[i], sumsig) >= 0.0
    ensures lo <= Average(axis, data, sumsig) <= hi
  {
    AllTermBounds(axis, data, sumsig, lo, hi);
    MeanBetween(Term(axis, sumsig), Term(Unit, sumsig), data, lo, hi);
  }

  /** The location lies within every box that holds all matched cells. */
  lemma LocationInBox(data: seq<Match>, south: real, north: real, west: real, east: real)
    requires data != [] && OneSign(data)
    requires forall i :: 0 <= i < |data| ==> south <= data[i].lat <= north && west <= data[i].lon <= east
    ensures Lookup(data).Found?
    ensures south <= Lookup(data).lat <= north && west <= Lookup(data).lon <= east
  {
    var sumsig := SumInverse(data);
    WeightsPositive(data);
    WeightsAddUp(data);
    AverageBounds(Lat, data, sumsig, south, north);
    AverageBounds(Lon, data, sumsig, west, east);
  }

  /** A signal of smaller magnitude, which is a stronger one, weighs strictly more. */
  lemma StrongerWeighsMore(data: seq<Match>, i: nat, j: nat)
    requires OneSign(data) && i < |data| && j < |data|
    requires Magnitude(data[i].signal) < Magnitude(data[j].signal)
    ensures SumInverse(data) != 0.0
    ensures Weight(data[i], SumInverse(data)) > Weight(data[j], SumInverse(data))
  {
    SumInverseSign(data);
    InverseOrdered(data[i], data[j]);
    QuotientOrder(Inverse(data[i]), Inverse(data[j]), SumInverse(data));
  }

  // ----- where the location is -----

  /** How strongly the matches pull a point at latitude `x` away from it, each by the inverse of its signal. */
  function LatPull(data: seq<Match>, x: real): real {
    if data == [] then 0.0
    else (if data[0].signal == 0.0 then 0.0 else (data[0].lat - x) / data[0].signal) + LatPull(data[1..], x)
  }

  function LonPull(data: seq<Match>, x: real): real {
    if data == [] then 0.0
    else (if data[0].signal == 0.0 then 0.0 else (data[0].lon - x) / data[0].signal) + LonPull(data[1..], x)
  }

  function Pull(axis: Axis, x: real): Match -> real {
    m => (Coord(axis, m) - x) * Inverse(m)
  }

  lemma OnePull(c: real, x: real, s: real)
    requires s != 0.0
    ensures (c - x) / s == (c - x) * (1.0 / s)
  {
  }

  lemma {:induction false} PullsAddUp(data: seq<Match>, x: real)
    ensures LatPull(data, x) == Sum(Pull(Lat, x), data)
    ensures LonPull(data, x) == Sum(Pull(Lon, x), data)
    decreases |data|
  {
    if data != [] {
      PullsAddUp(data[1..], x);
      if data[0].signal != 0.0 {
        OnePull(data[0].lat, x, data[0].signal);
        OnePull(data[0].lon, x, data[0].signal);
      }
    }
  }

  /** The same pull in terms of weights. */
  function Offset(axis: Axis, sumsig: real, x: real): Match -> real
    requires sumsig != 0.0
  {
    m => (Coord(axis, m) - x) * Weight(m, sumsig)
  }

  lemma OneOffset(c: real, x: real, i: real, w: real, s: real)
    requires w * s == i
    ensures (c - x) * i == s * ((c - x) * w)
    ensures (c - x) * w == c * w + (-x) * (1.0 * w)
  {
  }

  lemma OffsetOf(axis: Axis, m: Match, x: real, s: real)
    requires s != 0.0
    ensures Pull(axis, x)(m) == s * Offset(axis, s, x)(m)
    ensures Offset(axis, s, x)(m) == Term(axis, s)(m) + Times(-x, Term(Unit, s))(m)
  {
    assert Weight(m, s) * s == Inverse(m);
    OneOffset(Coord(axis, m), x, Inverse(m), Weight(m, s), s);
  }

  lemma {:induction false} OffsetsOf(axis: Axis, data: seq<Match>, x: real, s: real)
    requires s != 0.0
    ensures Proportional(Pull(axis, x), s, Offset(axis, s, x), data, data)
    ensures Adds(Offset(axis, s, x), Term(axis, s), Times(-x, Term(Unit, s)), data)
    decreases |data|
  {
    if data != [] {
      OffsetOf(axis, data[0], x, s);
      OffsetsOf(axis, data[1..], x, s);
      ProportionalCons(Pull(axis, x), s, Offset(axis, s, x), data[0], data[1..], data[0], data[1..]);
      AddsCons(Offset(axis, s, x), Term(axis, s), Times(-x, Term(Unit, s)), data[0], data[1..]);
      assert data == [data[0]] + data[1..];
    }
  }

  lemma AxisBalances(axis: Axis, data: seq<Match>, x: real)
    requires SumInverse(data) != 0.0
    ensures Sum(Pull(axis, x), data) == 0.0 <==> x == Average(axis, data, SumInverse(data))
  {
    var s := SumInverse(data);
    OffsetsOf(axis, data, x, s);
    SumVanishes(Pull(axis, x), s, Offset(axis, s, x), data, data);
    SumAdds(Offset(axis, s, x), Term(axis, s), Times(-x, Term(Unit, s)), data);
    WeightsAddUp(data);
    SumTimesOne(-x, Term(Unit, s), data);
  }

  /**
    The location is the point where the inverse signals balance, on either axis, and there is no other such point.
    No signs are asked for, only that there is a location at all.
  */
  lemma LocationBalances(data: seq<Match>, x: real)
    requires Lookup(data).Found?
    ensures LatPull(data, x) == 0.0 <==> x == Lookup(data).lat
    ensures LonPull(data, x) == 0.0 <==> x == Lookup(data).lon
  {
    PullsAddUp(data, x);
    AxisBalances(Lat, data, x);
    AxisBalances(Lon, data, x);
  }

  /** There is one if and only if there are matches, none of them without a signal, whose inverses do not cancel out. */
  lemma FoundExactly(data: seq<Match>)
    ensures Lookup(data).Found? <==>
            data != [] && (forall i :: 0 <= i < |data| ==> data[i].signal != 0.0) && InverseTotal(data) != 0.0
    ensures Lookup(data).NoData? <==> data == []
  {
    InverseTotalIs(data);
  }

  function InverseTotal(data: seq<Match>): real {
    if data == [] then 0.0
    else (if data[0].signal == 0.0 then 0.0 else 1.0 / data[0].signal) + InverseTotal(data[1..])
  }

  lemma {:induction false} InverseTotalIs(data: seq<Match>)
    ensures InverseTotal(data) == SumInverse(data)
    decreases |data|
  {
    if data != [] {
      InverseTotalIs(data[1..]);
    }
  }

  /** `x` is away from `a` and `b` in the ratio of the magnitudes of `s` and `t`, hence nearer to the smaller one's. */
  predicate InRatio(x: real, a: real, b: real, s: real, t: real) {
    && Magnitude(x - a) * Magnitude(t) == Magnitude(x - b) * Magnitude(s)
    && (a != b && Magnitude(s) < Magnitude(t) ==> Magnitude(x - a) < Magnitude(x - b))
  }

  lemma TwoPulls(a: real, b: real, x: real, s: real, t: real)
    requires (s > 0.0 && t > 0.0) || (s < 0.0 && t < 0.0)
    requires (a - x) / s + (b - x) / t == 0.0
    ensures InRatio(x, a, b, s, t)
  {
    var p := (a - x) / s;
    assert p * s == a - x && p * t == -(b - x) by {
      assert (b - x) / t == -p;
    }
    CommonFactor(p, a - x, b - x, s, t);
  }

  lemma CommonFactor(p: real, d: real, e: real, s: real, t: real)
    requires p * s == d && p * t == -e
    ensures Magnitude(d) * Magnitude(t) == Magnitude(e) * Magnitude(s)
    ensures d != e && Magnitude(s) < Magnitude(t) ==> Magnitude(d) < Magnitude(e)
  {
    ProductMagnitude(p, s);
    ProductMagnitude(p, t);
    assert Magnitude(p) * Magnitude(s) == Magnitude(d) && Magnitude(p) * Magnitude(t) == Magnitude(e);
    ExchangeFactors(Magnitude(p), Magnitude(s), Magnitude(t));
    if p == 0.0 {
      assert d == 0.0 && e == 0.0;
    } else if Magnitude(s) < Magnitude(t) {
      ProductGrows(Magnitude(p), Magnitude(s), Magnitude(t), Magnitude(d), Magnitude(e));
    }
  }

  lemma ProductMagnitude(x: real, y: real)
    ensures Magnitude(x) * Magnitude(y) == Magnitude(x * y)
  {
  }

  lemma ExchangeFactors(p: real, s: real, t: real)
    ensures (p * s) * t == (p * t) * s
  {
  }

  lemma ProductGrows(p: real, s: real, t: real, d: real, e: real)
    requires p > 0.0 && s < t && p * s == d && p * t == e
    ensures d < e
  {
    assert p * (t - s) > 0.0;
  }

  lemma TwoLatPulls(a: Match, b: Match, x: real)
    requires a.signal != 0.0 && b.signal != 0.0
    ensures LatPull([a, b], x) == (a.lat - x) / a.signal + (b.lat - x) / b.signal
  {
    assert [a, b][1..] == [b] && [b][1..] == [];
    assert LatPull([b], x) == (b.lat - x) / b.signal;
  }

  lemma TwoLonPulls(a: Match, b: Match, x: real)
    requires a.signal != 0.0 && b.signal != 0.0
    ensures LonPull([a, b], x) == (a.lon - x) / a.signal + (b.lon - x) / b.signal
  {
    assert [a, b][1..] == [b] && [b][1..] == [];
    assert LonPull([b], x) == (b.lon - x) / b.signal;
  }

  lemma TwoMatches(a: Match, b: Match)
    requires OneSign([a, b])
    ensures (a.signal > 0.0 && b.signal > 0.0) || (a.signal < 0.0 && b.signal < 0.0)
    ensures Lookup([a, b]).Found?
    ensures LatPull([a, b], Lookup([a, b]).lat) == 0.0 && LonPull([a, b], Lookup([a, b]).lon) == 0.0
  {
    assert [a, b][0] == a && [a, b][1] == b;
    WeightsPositive([a, b]);
    LocationBalances([a, b], Lookup([a, b]).lat);
    LocationBalances([a, b], Lookup([a, b]).lon);
  }

  /** Between two matches the location divides either axis in the ratio of the signals, nearer to the stronger. */
  lemma NearerToStronger(a: Match, b: Match)
    requires OneSign([a, b])
    ensures Lookup([a, b]).Found?
    ensures InRatio(Lookup([a, b]).lat, a.lat, b.lat, a.signal, b.signal)
    ensures InRatio(Lookup([a, b]).lon, a.lon, b.lon, a.signal, b.signal)
  {
    TwoMatches(a, b);
    TwoLatPulls(a, b, Lookup([a, b]).lat);
    TwoLonPulls(a, b, Lookup([a, b]).lon);
    TwoPulls(a.lat, b.lat, Lookup([a, b]).lat, a.signal, b.signal);
    TwoPulls(a.lon, b.lon, Lookup([a, b]).lon, a.signal, b.signal);
  }

  // ----- what the result does not depend on -----

  lemma LookupIgnoresOrder(a: seq<Match>, b: seq<Match>)
    requires multiset(a) == multiset(b)
    ensures Lookup(a) == Lookup(b)
  {
    assert |a| == |multiset(a)| == |multiset(b)| == |b|;
    forall i | 0 <= i < |a| ensures a[i] in b {
      assert a[i] in multiset(b);
    }
    forall i | 0 <= i < |b| ensures b[i] in a {
      assert b[i] in multiset(a);
    }
    assert HasZero(a) == HasZero(b);
    SumPermutation(Inverse, a, b);
    var sumsig := SumInverse(a);
    if sumsig != 0.0 {
      SumPermutation(Term(Lat, sumsig), a, b);
      SumPermutation(Term(Lon, sumsig), a, b);
    }
  }

  function ScaledMatch(m: Match, k: real): Match {
    m.(signal := k * m.signal)
  }

  /** All signals multiplied by the same factor; with the factor -1, all signs flipped. */
  function Scaled(data: seq<Match>, k: real): seq<Match> {
    if data == [] then [] else [ScaledMatch(data[0], k)] + Scaled(data[1..], k)
  }

  lemma CancelFactor(a: real, s: real, k: real)
    requires s != 0.0 && k != 0.0
    ensures k * s != 0.0 && (k * a) / (k * s) == a / s
  {
    var q := a / s;
    assert q * s == a;
    assert q * (k * s) == k * (q * s) == k * a;
  }

  lemma InverseScaled(m: Match, k: real)
    requires k != 0.0
    ensures Inverse(m) == k * Inverse(ScaledMatch(m, k))
  {
    if m.signal != 0.0 {
      var x := k * m.signal;
      assert x != 0.0;
      CancelFactor(1.0, m.signal, k);
      assert k / x == k * (1.0 / x);
    }
  }

  lemma {:induction false} InversesScaled(data: seq<Match>, k: real)
    requires k != 0.0
    ensures Proportional(Inverse, k, Inverse, data, Scaled(data, k))
    decreases |data|
  {
    if data != [] {
      InverseScaled(data[0], k);
      InversesScaled(data[1..], k);
      ProportionalCons(Inverse, k, Inverse, data[0], data[1..], ScaledMatch(data[0], k), Scaled(data[1..], k));
      assert data == [data[0]] + data[1..];
    }
  }

  lemma SumScaled(data: seq<Match>, k: real)
    requires k != 0.0
    ensures SumInverse(data) == k * SumInverse(Scaled(data, k))
  {
    InversesScaled(data, k);
    SumProportional(Inverse, k, Inverse, data, Scaled(data, k));
  }

  lemma ZeroFactor(k: real, x: real)
    requires k != 0.0
    ensures k * x == 0.0 <==> x == 0.0
  {
  }

  lemma SumsVanish(data: seq<Match>, k: real)
    requires k != 0.0
    ensures SumInverse(data) == 0.0 <==> SumInverse(Scaled(data, k)) == 0.0
  {
    SumScaled(data, k);
    ZeroFactor(k, SumInverse(Scaled(data, k)));
  }

  lemma WeightScaled(m: Match, all: seq<Match>, k: real)
    requires k != 0.0 && SumInverse(all) != 0.0 && SumInverse(Scaled(all, k)) != 0.0
    ensures Weight(ScaledMatch(m, k), SumInverse(Scaled(all, k))) == Weight(m, SumInverse(all))
  {
    SumScaled(all, k);
    InverseScaled(m, k);
    SameQuotient(Inverse(m), SumInverse(all), Inverse(ScaledMatch(m, k)), SumInverse(Scaled(all, k)), k);
  }

  lemma SameQuotient(a: real, s: real, b: real, t: real, k: real)
    requires k != 0.0 && s != 0.0 && t != 0.0 && a == k * b && s == k * t
    ensures b / t == a / s
  {
    CancelFactor(b, t, k);
  }

  /** No term of the average changes: `data` is what is still to be added up of `all` matches. */
  lemma {:induction false} AverageScaled(axis: Axis, data: seq<Match>, all: seq<Match>, k: real)
    requires k != 0.0 && SumInverse(all) != 0.0 && SumInverse(Scaled(all, k)) != 0.0
    ensures Average(axis, Scaled(data, k), SumInverse(Scaled(all, k))) == Average(axis, data, SumInverse(all))
    decreases |data|
  {
    if data != [] {
      AverageScaled(axis, data[1..], all, k);
      WeightScaled(data[0], all, k);
      SumCons(Term(axis, SumInverse(Scaled(all, k))), ScaledMatch(data[0], k), Scaled(data[1..], k));
    }
  }

  lemma {:induction false} ZeroScaled(data: seq<Match>, k: real)
    requires k != 0.0
    ensures |Scaled(data, k)| == |data|
    ensures HasZero(Scaled(data, k)) <==> HasZero(data)
    decreases |data|
  {
    if data != [] {
      ZeroScaled(data[1..], k);
      ZeroCons(data[0], data[1..]);
      ZeroCons(ScaledMatch(data[0], k), Scaled(data[1..], k));
      assert data == [data[0]] + data[1..];
    }
  }

  lemma ZeroCons(m: Match, data: seq<Match>)
    ensures HasZero([m] + data) <==> m.signal == 0.0 || HasZero(data)
  {
    var all := [m] + data;
    if m.signal == 0.0 {
      assert all[0].signal == 0.0;
    }
    if i: int :| 0 <= i < |data| && data[i].signal == 0.0 {
      assert all[i + 1].signal == 0.0;
    }
  }

  /** Neither the unit nor the sign in which signals are given matters. */
  lemma LookupIgnoresScale(data: seq<Match>, k: real)
    requires k != 0.0
    ensures Lookup(Scaled(data, k)) == Lookup(data)
  {
    var scaled := Scaled(data, k);
    ZeroScaled(data, k);
    SumsVanish(data, k);
    if SumInverse(data) != 0.0 {
      AverageScaled(Lat, data, data, k);
      AverageScaled(Lon, data, data, k);
    }
  }
}
