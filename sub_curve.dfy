// Extraction of sub-curves from a B-spline curve: the sub-curve between two
// parameters (crossing the seam of a periodic curve at most once), the pieces
// between several split parameters, and the doubling of a periodic curve that
// makes a seam-crossing extraction possible.

module SubCurve {
  import opened KnotSeq

  /** The library's default parameter tolerance, used when the periodic case recurses. */
  const DefaultParameterEpsilon: real := 0.0000000001

  /** The conditions under which the extraction throws. */
  datatype Error = FromNotBelowTo | OutsideCurve | SeamCrossedTwice | NonPeriodic

  datatype Result<T> = Ok(value: T) | Err(error: Error)

  /**
   * The arguments handed to the spline-curve constructor for a new curve:
   * the number of coefficients, the order, the knots and the coefficients it
   * copies, the dimension and whether the curve is rational.
   */
  datatype CurveArgs = CurveArgs(numCoefs: nat, order: nat, knots: seq<real>, coefs: seq<real>,
                                 dim: nat, rational: bool)

  /** Number of reals per coefficient: rational coefficients carry a weight. */
  function EffDim(dim: nat, rational: bool): nat
  {
    if rational then dim + 1 else dim
  }

  /** The constructor arguments hold as many knots and coefficients as the count asks for. */
  ghost predicate ArgsShaped(a: CurveArgs)
  {
    a.order >= 1 && |a.knots| == a.numCoefs + a.order
    && |a.coefs| == Times(EffDim(a.dim, a.rational), a.numCoefs)
  }

  /** The constructor arguments describe a well-formed curve: at least `order` coefficients and sorted knots. */
  ghost predicate ArgsSized(a: CurveArgs)
  {
    ArgsShaped(a) && a.numCoefs >= a.order && NonDecreasing(a.knots)
  }

  /** The curve's parameter interval starts at `x`: knot `order - 1` is `x`. */
  predicate StartsAt(a: CurveArgs, x: real)
  {
    1 <= a.order <= |a.knots| && a.knots[a.order - 1] == x
  }

  /** The curve's parameter interval ends at `x`: knot `numCoefs` is `x`. */
  predicate EndsAt(a: CurveArgs, x: real)
  {
    a.numCoefs < |a.knots| && a.knots[a.numCoefs] == x
  }

  /**
   * Sizes of a curve's arrays: `order + n` knots, `dim * n` coefficients and,
   * for a rational curve, `(dim + 1) * n` homogeneous coefficients.
   */
  ghost predicate SizedParts(dim: nat, order: nat, rational: bool, knots: seq<real>,
                             coefs: seq<real>, rcoefs: seq<real>)
  {
    order >= 1 && |knots| >= order && |coefs| == Times(dim, |knots| - order)
    && (rational ==> |rcoefs| == Times(dim + 1, |knots| - order))
  }

  /** A curve with at least `order` coefficients, sorted knots and a non-empty parameter interval. */
  ghost predicate ValidParts(dim: nat, order: nat, rational: bool, knots: seq<real>,
                             coefs: seq<real>, rcoefs: seq<real>)
  {
    SizedParts(dim, order, rational, knots, coefs, rcoefs) && |knots| >= 2 * order
    && NonDecreasing(knots) && knots[order - 1] < knots[|knots| - order]
  }

  /** Every knot moved by `delta`. */
  function Shifted(s: seq<real>, delta: real): (r: seq<real>)
    ensures |r| == |s| && forall j :: 0 <= j < |s| ==> r[j] == s[j] + delta
  {
    seq(|s|, j requires 0 <= j < |s| => s[j] + delta)
  }

  /** The parameter interval of knots `knots` with order `order`: start `knots[order-1]`, end `knots[|knots|-order]`. */
  function Period(knots: seq<real>, order: nat): real
    requires 1 <= order <= |knots|
  {
    knots[|knots| - order] - knots[order - 1]
  }

  /** A continuity number `cont` leaves at least one coefficient after the first `cont + 1`. */
  predicate AppendRange(knots: seq<real>, order: nat, cont: int)
  {
    0 <= cont && 1 <= order && order + cont + 1 <= |knots|
  }

  /** The knots of the doubled curve: the knots, then the knots after `order + cont + 1` shifted by one period. */
  function AppendedKnots(knots: seq<real>, order: nat, cont: int): seq<real>
    requires AppendRange(knots, order, cont)
  {
    knots + Shifted(knots[order + cont + 1..], Period(knots, order))
  }

  /** The coefficients of the doubled curve: all, then those after the first `cont + 1`. */
  function AppendedCoefs(c: seq<real>, effdim: nat, cont: int): seq<real>
    requires 0 <= cont && Times(effdim, cont + 1) <= |c|
  {
    c + c[Times(effdim, cont + 1)..]
  }

  /**
   * The arrays `nk`, `nc`, `nr` are those of the curve with knots `knots` and
   * coefficients `coefs` (homogeneous `rcoefs`) taken twice: the knots, and
   * both coefficient arrays of a rational curve, with one period appended.
   */
  ghost predicate Doubled(dim: nat, order: nat, rational: bool, knots: seq<real>, coefs: seq<real>,
                          rcoefs: seq<real>, cont: int, nk: seq<real>, nc: seq<real>, nr: seq<real>)
  {
    AppendRange(knots, order, cont)
    && Times(dim, cont + 1) <= |coefs| && (rational ==> Times(dim + 1, cont + 1) <= |rcoefs|)
    && nk == AppendedKnots(knots, order, cont)
    && nc == AppendedCoefs(coefs, dim, cont)
    && nr == (if rational then AppendedCoefs(rcoefs, dim + 1, cont) else rcoefs)
  }

  /**
   * What a periodicity analysis returning `cont >= 0` guarantees: the knot
   * vector is knot-periodic. Its last `order + cont + 1` knots, which start
   * at index `numCoefs - cont - 1`, are its first `order + cont + 1` knots
   * moved by one period.
   */
  ghost predicate KnotPeriodic(knots: seq<real>, order: nat, cont: int)
  {
    AppendRange(knots, order, cont)
    && (forall i, j {:trigger knots[i], knots[j]} :: 0 <= i < order + cont + 1 && j == |knots| - order - cont - 1 + i
          ==> knots[j] == knots[i] + Period(knots, order))
  }

  /**
   * The periodicity analysis, which is not part of this model: given the knots
   * and the coefficients it returns a negative number for a non-periodic curve,
   * otherwise the order of continuity across the seam.
   */
  type Analyzer = (seq<real>, seq<real>) -> int

  ghost predicate AnalyzerContract(analyze: Analyzer, order: nat)
  {
    forall kn, cs :: analyze(kn, cs) < 0 || KnotPeriodic(kn, order, analyze(kn, cs))
  }

  /**
   * The coefficient refinement of knot insertion, not part of this model:
   * given the reals per coefficient, the old knots, the inserted knots and the
   * old coefficients it returns the new coefficients, one per inserted knot more.
   */
  type Refiner = (nat, seq<real>, seq<real>, seq<real>) -> seq<real>

  ghost predicate RefinerContract(refine: Refiner)
  {
    forall e: nat, kn: seq<real>, ins: seq<real>, cs: seq<real> :: |refine(e, kn, ins, cs)| == |cs| + Times(e, |ins|)
  }

  /**
   * `e * n` as repeated addition. Coefficient counts are stated with it so
   * that the solver reasons about them linearly; `TimesIsProduct` relates it
   * to multiplication.
   */
  function Times(e: nat, n: nat): nat
  {
    if n == 0 then 0 else Times(e, n - 1) + e
  }

  lemma {:induction false} TimesIsProduct(e: nat, n: nat)
    ensures Times(e, n) == e * n
  {
    if n > 0 {
      TimesIsProduct(e, n - 1);
    }
  }

  lemma {:induction false} TimesAdd(e: nat, a: nat, b: nat)
    ensures Times(e, a + b) == Times(e, a) + Times(e, b)
    decreases b
  {
    if b > 0 {
      TimesAdd(e, a, b - 1);
    }
  }

  lemma TimesBelow(e: nat, a: nat, b: nat)
    requires a <= b
    ensures Times(e, a) <= Times(e, b)
  {
    TimesAdd(e, a, b - a);
  }

  lemma DoubledSize(e: nat, n: nat, cont: nat)
    requires cont + 1 <= n
    ensures Times(e, cont + 1) <= Times(e, n)
    ensures Times(e, n) + (Times(e, n) - Times(e, cont + 1)) == Times(e, 2 * n - cont - 1)
  {
    TimesAdd(e, cont + 1, n - cont - 1);
    TimesAdd(e, n, n - cont - 1);
  }

  /** Appending a period gives `2 * numCoefs - cont - 1` coefficients and keeps the start parameter. */
  lemma AppendedParams(knots: seq<real>, order: nat, cont: int)
    requires AppendRange(knots, order, cont)
    ensures var nk := AppendedKnots(knots, order, cont);
      |nk| == 2 * (|knots| - order) - cont - 1 + order && nk[..|knots|] == knots
      && nk[order - 1] == knots[order - 1]
  {
  }

  /**
   * On knot-periodic knots the doubled knot vector is the knot vector
   * continued periodically: from index `numCoefs - cont - 1` on it is the
   * original moved by one period.
   */
  lemma AppendedPeriodic(knots: seq<real>, order: nat, cont: int)
    requires KnotPeriodic(knots, order, cont)
    ensures var nk := AppendedKnots(knots, order, cont);
      var shift := |knots| - order - cont - 1;
      forall j :: shift <= j < |nk| ==> nk[j] == knots[j - shift] + Period(knots, order)
  {
    var nk := AppendedKnots(knots, order, cont);
    var shift := |knots| - order - cont - 1;
    var tail := Shifted(knots[order + cont + 1..], Period(knots, order));
    forall j | shift <= j < |nk|
      ensures nk[j] == knots[j - shift] + Period(knots, order)
    {
      if j < |knots| {
        assert knots[j] == knots[j - shift] + Period(knots, order);
      } else {
        assert nk[j] == tail[j - |knots|];
      }
    }
  }

  /** Doubling knot-periodic knots ends one period after the old end. */
  lemma AppendedEnd(knots: seq<real>, order: nat, cont: int)
    requires KnotPeriodic(knots, order, cont)
    ensures var nk := AppendedKnots(knots, order, cont);
      order <= |nk| && nk[|nk| - order] == knots[|knots| - order] + Period(knots, order)
  {
    AppendedPeriodic(knots, order, cont);
    var nk := AppendedKnots(knots, order, cont);
    var shift := |knots| - order - cont - 1;
    assert |nk| - order - shift == |knots| - order;
  }

  /** Doubling sorted knot-periodic knots keeps them sorted. */
  lemma AppendedSorted(knots: seq<real>, order: nat, cont: int)
    requires KnotPeriodic(knots, order, cont) && NonDecreasing(knots)
    ensures NonDecreasing(AppendedKnots(knots, order, cont))
  {
    AppendedPeriodic(knots, order, cont);
    var nk := AppendedKnots(knots, order, cont);
    var shift := |knots| - order - cont - 1;
    forall i, j | 0 <= i <= j < |nk|
      ensures nk[i] <= nk[j]
    {
      if j < |knots| {
        assert nk[i] == knots[i] && nk[j] == knots[j];
      } else if i >= shift {
        assert nk[i] == knots[i - shift] + Period(knots, order);
      } else {
        assert nk[i] == knots[i] <= knots[shift] == nk[shift];
        assert nk[shift] == knots[0] + Period(knots, order);
      }
    }
  }

  /** On a curve with a non-empty interval the analysis always leaves coefficients to append. */
  lemma PeriodicShiftPositive(knots: seq<real>, order: nat, cont: int)
    requires KnotPeriodic(knots, order, cont) && knots[order - 1] < knots[|knots| - order]
    ensures cont + 2 <= |knots| - order
  {
    var shift := |knots| - order - cont - 1;
    assert knots[shift] == knots[0] + Period(knots, order);
  }

  /**
   * Appending a period keeps the array sizes consistent when both coefficient
   * arrays of a rational curve are extended.
   */
  lemma AppendedSized(dim: nat, order: nat, rational: bool, knots: seq<real>,
                      coefs: seq<real>, rcoefs: seq<real>, cont: int)
    requires SizedParts(dim, order, rational, knots, coefs, rcoefs) && AppendRange(knots, order, cont)
    ensures Times(dim, cont + 1) <= |coefs|
    ensures rational ==> Times(dim + 1, cont + 1) <= |rcoefs|
    ensures SizedParts(dim, order, rational, AppendedKnots(knots, order, cont),
                       AppendedCoefs(coefs, dim, cont),
                       if rational then AppendedCoefs(rcoefs, dim + 1, cont) else rcoefs)
  {
    var n := |knots| - order;
    AppendedParams(knots, order, cont);
    DoubledSize(dim, n, cont);
    DoubledSize(dim + 1, n, cont);
  }

  /** Doubling a periodic curve gives a valid curve on the doubled interval. */
  lemma AppendedValid(dim: nat, order: nat, rational: bool, knots: seq<real>,
                      coefs: seq<real>, rcoefs: seq<real>, cont: int)
    requires ValidParts(dim, order, rational, knots, coefs, rcoefs) && KnotPeriodic(knots, order, cont)
    ensures Times(dim, cont + 1) <= |coefs|
    ensures rational ==> Times(dim + 1, cont + 1) <= |rcoefs|
    ensures var nk := AppendedKnots(knots, order, cont);
      ValidParts(dim, order, rational, nk, AppendedCoefs(coefs, dim, cont),
                 if rational then AppendedCoefs(rcoefs, dim + 1, cont) else rcoefs)
      && nk[order - 1] == knots[order - 1]
      && nk[|nk| - order] == knots[|knots| - order] + Period(knots, order)
  {
    AppendedSized(dim, order, rational, knots, coefs, rcoefs, cont);
    AppendedParams(knots, order, cont);
    AppendedEnd(knots, order, cont);
    AppendedSorted(knots, order, cont);
  }

  /**
   * As written, a rational curve gets only its homogeneous coefficients
   * doubled: when anything is appended, its projected coefficients keep the
   * old count, which no longer matches the new number of coefficients.
   */
  lemma AsWrittenLeavesCoefsShort(dim: nat, order: nat, knots: seq<real>,
                                  coefs: seq<real>, rcoefs: seq<real>, cont: int)
    requires dim >= 1 && SizedParts(dim, order, true, knots, coefs, rcoefs) && AppendRange(knots, order, cont)
    requires cont + 2 <= |knots| - order
    ensures Times(dim + 1, cont + 1) <= |rcoefs|
    ensures !SizedParts(dim, order, true, AppendedKnots(knots, order, cont),
                        coefs, AppendedCoefs(rcoefs, dim + 1, cont))
  {
    var n := |knots| - order;
    AppendedParams(knots, order, cont);
    DoubledSize(dim + 1, n, cont);
    var nn := |AppendedKnots(knots, order, cont)| - order;
    assert nn == n + (n - cont - 1) && n - cont - 1 >= 1;
    TimesAdd(dim, n, n - cont - 1);
    TimesBelow(dim, 1, n - cont - 1);
    assert |coefs| == Times(dim, n) < Times(dim, nn);
  }

  /**
   * A concrete closed rational curve of order 2 on knots 0..5, its last
   * control point equal to its first, whose doubling leaves 4 projected
   * coefficients for 7 control points.
   */
  lemma AsWrittenExample()
    ensures var knots := [0.0, 1.0, 2.0, 3.0, 4.0, 5.0];
      var coefs := [0.0, 1.0, 2.0, 0.0];
      var rcoefs := [0.0, 1.0, 1.0, 1.0, 2.0, 1.0, 0.0, 1.0];
      SizedParts(1, 2, true, knots, coefs, rcoefs) && KnotPeriodic(knots, 2, 0)
      && |AppendedKnots(knots, 2, 0)| - 2 == 7
      && |AppendedCoefs(rcoefs, 2, 0)| == 14 && |coefs| == 4
  {
    var knots := [0.0, 1.0, 2.0, 3.0, 4.0, 5.0];
    var nk := AppendedKnots(knots, 2, 0);
    assert Period(knots, 2) == 3.0;
    assert knots[3..] == [3.0, 4.0, 5.0];
    assert nk == [0.0, 1.0, 2.0, 3.0, 4.0, 5.0, 6.0, 7.0, 8.0];
  }

  /**
   * A short knot-periodic curve: order 3 on knots 0..6 has four coefficients
   * and continuity 1 across the seam; doubling gives knots 0..8 and ends at 6.
   */
  lemma ShortPeriodicExample()
    ensures var knots := [0.0, 1.0, 2.0, 3.0, 4.0, 5.0, 6.0];
      KnotPeriodic(knots, 3, 1)
      && AppendedKnots(knots, 3, 1) == [0.0, 1.0, 2.0, 3.0, 4.0, 5.0, 6.0, 7.0, 8.0]
      && AppendedKnots(knots, 3, 1)[9 - 3] == 6.0
  {
    var knots := [0.0, 1.0, 2.0, 3.0, 4.0, 5.0, 6.0];
    assert Period(knots, 3) == 2.0;
    assert knots[5..] == [5.0, 6.0];
  }

  /** How many times, at most, the periodic case may still double the curve before `to` falls inside. */
  function DoublingsOf(s: real, e: real, to: real): nat
    requires s < e
  {
    if to <= e + DefaultParameterEpsilon then 0
    else
      var x := (to - s) / (e - s);
      if x.Floor < 0 then 0 else x.Floor + 1
  }

  lemma HalfFloor(x: real)
    requires x > 1.0
    ensures x.Floor >= 0
    ensures (x / 2.0).Floor < 0 || (x / 2.0).Floor + 1 <= x.Floor
  {
    var f := x.Floor;
    var g := (x / 2.0).Floor;
    assert f as real <= x < f as real + 1.0;
    assert g as real <= x / 2.0;
    if x >= 2.0 {
      assert g as real <= x - 1.0 < f as real;
    } else {
      assert g as real < 1.0;
    }
  }

  lemma QuotientAboveOne(a: real, b: real)
    requires 0.0 < b < a
    ensures a / b > 1.0
  {
    assert (a / b) * b == a;
  }

  /** Doubling the curve brings the recursion closer to its end. */
  lemma DoublingsShrink(s: real, e: real, to: real, fuzzy: real)
    requires s < e && to > e + fuzzy
    ensures DoublingsOf(s, e + (e - s), to) < DoublingsOf(s, e, to)
         || (DoublingsOf(s, e + (e - s), to) == 0 && DoublingsOf(s, e, to) == 0 && fuzzy != DefaultParameterEpsilon)
  {
    if to > e + DefaultParameterEpsilon {
      var x := (to - s) / (e - s);
      var x2 := (to - s) / (e + (e - s) - s);
      QuotientAboveOne(to - s, e - s);
      assert x2 == x / 2.0 by {
        assert e + (e - s) - s == 2.0 * (e - s);
      }
      HalfFloor(x);
    }
  }

  /**
   * The curve `c` after inserting `newKnots`: the knots merged, one more
   * coefficient per inserted knot, and the coefficients refined.
   */
  function Inserted(c: CurveArgs, newKnots: seq<real>, refine: Refiner): (r: CurveArgs)
    requires ArgsShaped(c) && RefinerContract(refine)
    ensures ArgsShaped(r) && r.order == c.order && r.dim == c.dim && r.rational == c.rational
    ensures r.knots == Merge(c.knots, newKnots) && r.numCoefs == c.numCoefs + |newKnots|
  {
    TimesAdd(EffDim(c.dim, c.rational), c.numCoefs, |newKnots|);
    CurveArgs(c.numCoefs + |newKnots|, c.order, Merge(c.knots, newKnots),
              refine(EffDim(c.dim, c.rational), c.knots, newKnots, c.coefs), c.dim, c.rational)
  }

  /** Merging in knots and refining both coefficient arrays keeps the array sizes consistent. */
  lemma InsertedSized(dim: nat, order: nat, rational: bool, knots: seq<real>, coefs: seq<real>, rcoefs: seq<real>,
                      newKnots: seq<real>, refine: Refiner)
    requires SizedParts(dim, order, rational, knots, coefs, rcoefs) && RefinerContract(refine)
    ensures SizedParts(dim, order, rational, Merge(knots, newKnots), refine(dim, knots, newKnots, coefs),
                       if rational then refine(dim + 1, knots, newKnots, rcoefs) else rcoefs)
  {
    var n, m := |knots| - order, |newKnots|;
    assert |Merge(knots, newKnots)| - order == n + m;
    TimesAdd(dim, n, m);
    TimesAdd(dim + 1, n, m);
  }

  /** The arguments with the knots merged and the coefficients refined are those of `Inserted`. */
  lemma InsertedWhole(w: CurveArgs, newKnots: seq<real>, refine: Refiner, c: CurveArgs)
    requires ArgsShaped(w) && RefinerContract(refine)
    requires c.order == w.order && c.dim == w.dim && c.rational == w.rational
    requires c.knots == Merge(w.knots, newKnots) && c.numCoefs == |c.knots| - c.order
    requires c.coefs == refine(EffDim(w.dim, w.rational), w.knots, newKnots, w.coefs)
    ensures c == Inserted(w, newKnots, refine)
  {
  }

  /** A B-spline curve: dimension, order, knots, coefficients and, when rational, homogeneous coefficients. */
  class SplineCurve {
    var dim: nat
    var order: nat
    var rational: bool
    var knots: seq<real>
    var coefs: seq<real>
    var rcoefs: seq<real>

    /** A curve with the given arrays. */
    constructor (dim: nat, order: nat, rational: bool, knots: seq<real>, coefs: seq<real>, rcoefs: seq<real>)
      ensures this.dim == dim && this.order == order && this.rational == rational
      ensures this.knots == knots && this.coefs == coefs && this.rcoefs == rcoefs
    {
      this.dim := dim;
      this.order := order;
      this.rational := rational;
      this.knots := knots;
      this.coefs := coefs;
      this.rcoefs := rcoefs;
    }

    /** A copy of `other`. */
    constructor Copy(other: SplineCurve)
      ensures dim == other.dim && order == other.order && rational == other.rational
      ensures knots == other.knots && coefs == other.coefs && rcoefs == other.rcoefs
    {
      dim := other.dim;
      order := other.order;
      rational := other.rational;
      knots := other.knots;
      coefs := other.coefs;
      rcoefs := other.rcoefs;
    }

    ghost predicate Sized()
      reads this
    {
      SizedParts(dim, order, rational, knots, coefs, rcoefs)
    }

    /** A curve with at least `order` coefficients, sorted knots and a non-empty parameter interval. */
    ghost predicate Valid()
      reads this
    {
      ValidParts(dim, order, rational, knots, coefs, rcoefs)
    }

    function NumCoefs(): nat
      reads this
      requires order <= |knots|
    {
      |knots| - order
    }

    function StartParam(): real
      reads this
      requires 1 <= order <= |knots|
    {
      knots[order - 1]
    }

    function EndParam(): real
      reads this
      requires 1 <= order <= |knots|
    {
      knots[|knots| - order]
    }

    /** The coefficients the curve is built from: the homogeneous ones of a rational curve. */
    function Active(): (c: seq<real>)
      reads this
      requires Sized()
      ensures |c| == Times(EffDim(dim, rational), NumCoefs())
    {
      if rational then rcoefs else coefs
    }

    /** The curve's own constructor arguments. */
    function Whole(): (c: CurveArgs)
      reads this
      requires Sized()
      ensures ArgsShaped(c) && c.order == order && c.dim == dim && c.rational == rational
      ensures c.knots == knots && c.numCoefs == NumCoefs() && c.coefs == Active()
    {
      CurveArgs(NumCoefs(), order, knots, Active(), dim, rational)
    }

    /** The bound on the remaining periodic recursions of `SubCurve` for the end parameter `to`. */
    function Doublings(to: real): nat
      reads this
      requires Valid()
    {
      DoublingsOf(StartParam(), EndParam(), to)
    }

    /**
     * The sub-curve between `from` and `to`. When `to` lies more than `fuzzy`
     * beyond the end, the curve is taken as periodic: it is doubled and the
     * sub-curve of the doubled curve is taken with the default tolerance.
     */
    method SubCurve(from: real, to: real, fuzzy: real, analyze: Analyzer, refine: Refiner)
        returns (r: Result<CurveArgs>)
      requires Valid() && AnalyzerContract(analyze, order) && RefinerContract(refine)
      ensures from >= to ==> r == Err(FromNotBelowTo)
      ensures from < to && from < StartParam() - fuzzy ==> r == Err(OutsideCurve)
      ensures (from < to && from >= StartParam() - fuzzy && to > EndParam() + fuzzy
               && to > EndParam() + (EndParam() - StartParam()) + fuzzy) ==> r == Err(SeamCrossedTwice)
      ensures from < to && from >= StartParam() - fuzzy && to <= EndParam() + fuzzy ==> r.Ok?
      ensures (from < to && from >= StartParam() - fuzzy && to > EndParam() + fuzzy
               && to <= EndParam() + (EndParam() - StartParam()) + fuzzy
               && analyze(knots, Active()) < 0) ==> r == Err(NonPeriodic)
      ensures r == Err(NonPeriodic) ==> to > EndParam() + fuzzy
      ensures r.Ok? ==> Fits(r.value, order, dim, rational)
      ensures r.Ok? ==> StartsAt(r.value, from) && EndsAt(r.value, to)
      ensures from < to && from >= StartParam() - fuzzy && to <= EndParam() + fuzzy ==>
        (EndsReachOrder(knots, from, to, order);
         r == Ok(Extract(Inserted(Whole(), Difference(Repeat(from, order) + Repeat(to, order), knots), refine), from, to)))
      decreases Doublings(to), if fuzzy == DefaultParameterEpsilon then 0 else 1
    {
      if from >= to {
        return Err(FromNotBelowTo);
      }
      if from < StartParam() - fuzzy {
        return Err(OutsideCurve);
      }
      if to > EndParam() + fuzzy {
        if to > EndParam() + (EndParam() - StartParam()) + fuzzy {
          return Err(SeamCrossedTwice);
        }
        var twice, ok := DoubledCopy(analyze);
        if !ok {
          return Err(NonPeriodic);
        }
        DoublingsShrink(StartParam(), EndParam(), to, fuzzy);
        r := twice.SubCurve(from, to, DefaultParameterEpsilon, analyze, refine);
        return;
      }
      var a := Refined(from, to, refine);
      r := Ok(a);
    }

    /** A copy of this curve traversed twice, when the analysis finds it periodic. */
    method DoubledCopy(analyze: Analyzer) returns (twice: SplineCurve, ok: bool)
      requires Valid() && AnalyzerContract(analyze, order)
      ensures fresh(twice)
      ensures ok <==> analyze(knots, Active()) >= 0
      ensures ok ==> (twice.Valid() && twice.dim == dim && twice.order == order && twice.rational == rational
        && twice.StartParam() == StartParam() && twice.EndParam() == EndParam() + (EndParam() - StartParam()))
    {
      twice := new SplineCurve.Copy(this);
      ok := twice.AppendSelfPeriodic(analyze);
    }

    /** Inserts `from` and `to` until each has multiplicity `order` in a copy, and extracts the part between them. */
    method Refined(from: real, to: real, refine: Refiner) returns (a: CurveArgs)
      requires Valid() && RefinerContract(refine) && from < to
      ensures Fits(a, order, dim, rational) && StartsAt(a, from) && EndsAt(a, to)
      ensures (EndsReachOrder(knots, from, to, order);
               a == Extract(Inserted(Whole(), Difference(Repeat(from, order) + Repeat(to, order), knots), refine), from, to))
    {
      var want := EndKnots(from, to, order);
      var newKnots := Difference(want, knots);
      var theCurve := InsertedCopy(newKnots, refine);
      EndsReachOrder(knots, from, to, order);
      a := Extract(theCurve.Whole(), from, to);
    }

    /**
     * The pieces of the curve between consecutive split parameters, which are
     * returned sorted, as the caller's vector is sorted in place.
     */
    method Split(param: seq<real>, fuzzy: real, refine: Refiner)
        returns (sortedParam: seq<real>, pieces: seq<CurveArgs>)
      requires Valid() && RefinerContract(refine)
      requires forall i :: 0 <= i < |param| ==> StartParam() < param[i] < EndParam()
      requires forall i, j :: 0 <= i < j < |param| ==> param[i] != param[j]
      ensures |sortedParam| == |param| && multiset(sortedParam) == multiset(param) && Increasing(sortedParam)
      ensures SplitInto(pieces, Inserted(Whole(), Difference(RepeatEach(sortedParam, order), knots), refine), knots, sortedParam)
    {
      sortedParam := SortedParams(param, StartParam(), EndParam());
      var kk := order;
      var want := RepeatedParams(sortedParam, kk);
      var newKnots := Difference(want, knots);
      var cv := InsertedCopy(newKnots, refine);
      pieces := RefinedPieces(cv.Whole(), knots, sortedParam);
    }

    /** The two pieces either side of one split parameter. */
    method SplitAt(param: real, fuzzy: real, refine: Refiner) returns (pieces: seq<CurveArgs>)
      requires Valid() && RefinerContract(refine)
      requires StartParam() < param < EndParam()
      ensures |pieces| == 2
      ensures ArgsSized(pieces[0]) && ArgsSized(pieces[1])
      ensures pieces[0].order == order && pieces[1].order == order
      ensures StartsAt(pieces[0], StartParam()) && EndsAt(pieces[0], param)
      ensures StartsAt(pieces[1], param) && EndsAt(pieces[1], EndParam())
      ensures SplitInto(pieces, Inserted(Whole(), Difference(RepeatEach([param], order), knots), refine), knots, [param])
    {
      var sortedParam;
      sortedParam, pieces := Split([param], fuzzy, refine);
      assert multiset(sortedParam) == multiset{param};
      assert |sortedParam| == 1 && sortedParam[0] in multiset(sortedParam);
      assert sortedParam == [param];
    }

    /** A copy of this curve with `newKnots` inserted. */
    method InsertedCopy(newKnots: seq<real>, refine: Refiner) returns (cv: SplineCurve)
      requires Sized() && RefinerContract(refine)
      ensures fresh(cv) && cv.Sized() && cv.Whole() == Inserted(Whole(), newKnots, refine)
    {
      var w := Whole();
      cv := new SplineCurve.Copy(this);
      assert cv.Whole() == w;
      cv.InsertKnot(newKnots, refine);
      InsertedWhole(w, newKnots, refine, cv.Whole());
    }

    /** Knot insertion: the knots merged in and both coefficient arrays refined. */
    method InsertKnot(newKnots: seq<real>, refine: Refiner)
      requires Sized() && RefinerContract(refine)
      modifies this
      ensures dim == old(dim) && order == old(order) && rational == old(rational)
      ensures knots == Merge(old(knots), newKnots)
      ensures coefs == refine(dim, old(knots), newKnots, old(coefs))
      ensures rcoefs == if rational then refine(dim + 1, old(knots), newKnots, old(rcoefs)) else old(rcoefs)
      ensures Sized()
    {
      var k0, c0, r0 := knots, coefs, rcoefs;
      InsertedSized(dim, order, rational, k0, c0, r0, newKnots, refine);
      coefs := refine(dim, k0, newKnots, c0);
      if rational {
        rcoefs := refine(dim + 1, k0, newKnots, r0);
      }
      knots := Merge(k0, newKnots);
    }

    /**
     * Turns a periodic curve into the same curve traversed twice, the second
     * copy starting where the first ends; fails on a curve the analysis finds
     * non-periodic.
     */
    method AppendSelfPeriodic(analyze: Analyzer) returns (ok: bool)
      requires Valid() && AnalyzerContract(analyze, order)
      modifies this
      ensures dim == old(dim) && order == old(order) && rational == old(rational)
      ensures ok <==> analyze(old(knots), old(Active())) >= 0
      ensures !ok ==> knots == old(knots) && coefs == old(coefs) && rcoefs == old(rcoefs)
      ensures ok ==> Doubled(dim, order, rational, old(knots), old(coefs), old(rcoefs),
                             analyze(old(knots), old(Active())), knots, coefs, rcoefs)
      ensures ok ==> (Valid() && StartParam() == old(StartParam())
        && EndParam() == old(EndParam()) + (old(EndParam()) - old(StartParam())))
    {
      var cont := analyze(knots, Active());
      if cont < 0 {
        return false;
      }
      AppendPeriod(cont);
      ok := true;
    }

    /** Appends one period after the first `order + cont + 1` knots and `cont + 1` coefficients. */
    method AppendPeriod(cont: int)
      requires Valid() && KnotPeriodic(knots, order, cont)
      modifies this
      ensures dim == old(dim) && order == old(order) && rational == old(rational)
      ensures Doubled(dim, order, rational, old(knots), old(coefs), old(rcoefs), cont, knots, coefs, rcoefs)
      ensures Valid() && StartParam() == old(StartParam())
      ensures EndParam() == old(EndParam()) + (old(EndParam()) - old(StartParam()))
    {
      knots, coefs, rcoefs := DoubledArrays(dim, order, rational, knots, coefs, rcoefs, cont);
    }

    /**
     * The doubling as written: only the coefficient array the curve is built
     * from is extended, so a rational curve keeps its old projected coefficients.
     */
    method AppendSelfPeriodicAsWritten(analyze: Analyzer) returns (ok: bool)
      requires Valid() && AnalyzerContract(analyze, order)
      modifies this
      ensures dim == old(dim) && order == old(order) && rational == old(rational)
      ensures ok <==> analyze(old(knots), old(Active())) >= 0
      ensures !ok ==> knots == old(knots) && coefs == old(coefs) && rcoefs == old(rcoefs)
      ensures ok ==> var cont := analyze(old(knots), old(Active()));
        AppendRange(old(knots), order, cont)
        && Times(EffDim(dim, rational), cont + 1) <= |old(Active())|
        && knots == AppendedKnots(old(knots), order, cont)
        && (rational ==> coefs == old(coefs) && rcoefs == AppendedCoefs(old(rcoefs), dim + 1, cont))
        && (!rational ==> coefs == AppendedCoefs(old(coefs), dim, cont) && rcoefs == old(rcoefs))
    {
      var cont := analyze(knots, Active());
      if cont < 0 {
        return false;
      }
      assert KnotPeriodic(knots, order, cont);
      AppendedSized(dim, order, rational, knots, coefs, rcoefs, cont);
      var newKnots := AppendedKnots(knots, order, cont);
      var effdim := EffDim(dim, rational);
      var newCoefs := ExtendedCoefs(Active(), effdim, cont);
      knots := newKnots;
      if rational {
        rcoefs := newCoefs;
      } else {
        coefs := newCoefs;
      }
      ok := true;
    }
  }

  /** The arrays of a periodic curve traversed twice. */
  method DoubledArrays(dim: nat, order: nat, rational: bool, knots: seq<real>,
                       coefs: seq<real>, rcoefs: seq<real>, cont: int)
      returns (newKnots: seq<real>, newCoefs: seq<real>, newRcoefs: seq<real>)
    requires ValidParts(dim, order, rational, knots, coefs, rcoefs) && KnotPeriodic(knots, order, cont)
    ensures Doubled(dim, order, rational, knots, coefs, rcoefs, cont, newKnots, newCoefs, newRcoefs)
    ensures ValidParts(dim, order, rational, newKnots, newCoefs, newRcoefs)
    ensures newKnots[order - 1] == knots[order - 1]
    ensures newKnots[|newKnots| - order] == knots[|knots| - order] + Period(knots, order)
  {
    AppendedValid(dim, order, rational, knots, coefs, rcoefs, cont);
    newKnots := ExtendedKnots(knots, order + cont + 1, Period(knots, order));
    if rational {
      newRcoefs := ExtendedCoefs(rcoefs, dim + 1, cont);
      newCoefs := AppendedCoefs(coefs, dim, cont);
    } else {
      newCoefs := ExtendedCoefs(coefs, dim, cont);
      newRcoefs := rcoefs;
    }
  }

  /** The constructor arguments of the `n` coefficients of `c` from index `start` on. */
  function Piece(c: CurveArgs, start: nat, n: nat): (a: CurveArgs)
    requires ArgsShaped(c) && start + n <= c.numCoefs
    ensures ArgsShaped(a) && a.numCoefs == n && a.order == c.order && a.dim == c.dim && a.rational == c.rational
    ensures a.knots == c.knots[start..start + n + c.order]
    ensures var e := EffDim(c.dim, c.rational);
      Times(e, start) <= Times(e, start + n) <= |c.coefs| && a.coefs == c.coefs[Times(e, start)..Times(e, start + n)]
    ensures var e := EffDim(c.dim, c.rational); Times(e, start) == e * start && Times(e, start + n) == e * (start + n)
    ensures NonDecreasing(c.knots) ==> NonDecreasing(a.knots)
  {
    var e := EffDim(c.dim, c.rational);
    TimesBelow(e, start + n, c.numCoefs);
    TimesAdd(e, start, n);
    TimesIsProduct(e, start);
    TimesIsProduct(e, start + n);
    CurveArgs(n, c.order, c.knots[start..start + n + c.order], c.coefs[Times(e, start)..Times(e, start + n)], c.dim, c.rational)
  }

  /**
   * The sub-curve between two parameters that both occur at least `order`
   * times among the sorted knots: the knots and coefficients of `c` from the
   * first `from` on, up to the first `to`, which ends the new interval.
   */
  function Extract(c: CurveArgs, from: real, to: real): (a: CurveArgs)
    requires ArgsShaped(c) && NonDecreasing(c.knots) && from < to
    requires multiset(c.knots)[from] >= c.order && multiset(c.knots)[to] >= c.order
    ensures Fits(a, c.order, c.dim, c.rational)
    ensures StartsAt(a, from) && EndsAt(a, to)
    ensures var b := Find(c.knots, 0, from);
      b + a.numCoefs <= c.numCoefs && c.knots[b] == from && c.knots[b + a.numCoefs] == to
      && (forall j :: 0 <= j < b ==> c.knots[j] < from)
      && (forall j :: 0 <= j < b + a.numCoefs ==> c.knots[j] < to)
      && a == Piece(c, b, a.numCoefs)
  {
    var k := c.order;
    var b := Find(c.knots, 0, from);
    ExtractBounds(c.knots, k, from, to);
    var i := Find(c.knots, b + k, to);
    var e := i + (k - 1);
    var n := e - b + 1 - k;
    PieceBetween(c, b, n);
    Piece(c, b, n)
  }

  /**
   * When `from < to` both occur `k` times in sorted knots, the first `from`
   * is followed by its copies, and the search for `to` after them finds the
   * first `to`, which is followed by its own `k` copies.
   */
  lemma ExtractBounds(s: seq<real>, k: nat, from: real, to: real)
    requires NonDecreasing(s) && from < to && 1 <= k
    requires multiset(s)[from] >= k && multiset(s)[to] >= k
    ensures Find(s, 0, from) + k <= |s|
    ensures var b := Find(s, 0, from);
      var i := Find(s, b + k, to);
      b + k <= i && i + k <= |s| && s[b] == from && s[b + k - 1] == from && s[i] == to
      && (forall j :: 0 <= j < b ==> s[j] < from)
      && (forall j :: 0 <= j < i ==> s[j] < to)
  {
    RunAtFirst(s, from, k);
    RunAtFirst(s, to, k);
    FindPastRun(s, from, to, k);
    BeforeFirst(s, from);
    BeforeFirst(s, to);
  }

  /** In sorted knots every knot before the first copy of `x` is smaller than `x`. */
  lemma BeforeFirst(s: seq<real>, x: real)
    requires NonDecreasing(s) && x in s
    ensures Find(s, 0, x) < |s| && forall j :: 0 <= j < Find(s, 0, x) ==> s[j] < x
  {
    assert x in s[0..];
  }

  /** Inserting the missing copies of `from` and `to` gives both multiplicity `k` in sorted knots. */
  lemma EndsReachOrder(basis: seq<real>, from: real, to: real, k: nat)
    requires NonDecreasing(basis) && from < to
    ensures var m := Merge(basis, Difference(Repeat(from, k) + Repeat(to, k), basis));
      NonDecreasing(m) && multiset(m)[from] >= k && multiset(m)[to] >= k
  {
    var want := Repeat(from, k) + Repeat(to, k);
    assert NonDecreasing(want);
    RepeatCount(from, k);
    RepeatCount(to, k);
    InsertionReachesMultiplicity(basis, want, from);
    InsertionReachesMultiplicity(basis, want, to);
  }

  /**
   * Inserting the missing copies of the split parameters keeps the first and
   * last `order` knots and gives every split parameter multiplicity `order`.
   */
  lemma SplitKnots(basis: seq<real>, order: nat, sp: seq<real>)
    requires order >= 1 && |basis| >= 2 * order && NonDecreasing(basis) && Increasing(sp)
    requires forall x :: x in sp ==> basis[order - 1] < x < basis[|basis| - order]
    ensures var m := Merge(basis, Difference(RepeatEach(sp, order), basis));
      NonDecreasing(m) && |m| >= 2 * order
      && m[order - 1] == basis[order - 1] && m[|m| - order] == basis[|basis| - order]
      && forall i :: 0 <= i < |sp| ==> multiset(m)[sp[i]] >= order
  {
    var want := RepeatEach(sp, order);
    RepeatEachSorted(sp, order);
    var ins := Difference(want, basis);
    var m := Merge(basis, ins);
    InsertionReachesMultiplicity(basis, want, basis[0]);
    forall i | 0 <= i < |sp|
      ensures multiset(m)[sp[i]] >= order
    {
      RepeatEachCount(sp, order, i);
      InsertionReachesMultiplicity(basis, want, sp[i]);
    }
    MergeKeepsPrefix(basis, ins, order);
    assert m[order - 1] == m[..order][order - 1];
    assert forall j :: 0 <= j < |ins| ==> ins[j] in ins;
    MergeKeepsAt(basis, ins, |basis| - order);
  }

  /** A well-formed curve of the given order, dimension and kind. */
  ghost predicate Fits(a: CurveArgs, order: nat, dim: nat, rational: bool)
  {
    ArgsSized(a) && a.order == order && a.dim == dim && a.rational == rational
  }

  /**
   * Pieces that cut a curve at the parameters `bounds`: piece `i` is a
   * well-formed curve running from `bounds[i]` to `bounds[i + 1]`.
   */
  ghost predicate Partition(pieces: seq<CurveArgs>, order: nat, dim: nat, rational: bool, bounds: seq<real>)
  {
    |pieces| + 1 == |bounds|
    && forall i {:trigger pieces[i]} :: 0 <= i < |pieces| ==>
      Fits(pieces[i], order, dim, rational) && StartsAt(pieces[i], bounds[i]) && EndsAt(pieces[i], bounds[i + 1])
  }

  /** The knot index where piece `i` of a split starts: 0, or the first copy of split parameter `i - 1`. */
  function CutIndex(c: CurveArgs, sp: seq<real>, i: nat): nat
    requires i <= |sp|
  {
    if i == 0 then 0 else Find(c.knots, 0, sp[i - 1])
  }

  /** The knot index where piece `i` of a split ends: the start of the next piece, or the curve's end. */
  function CutEnd(c: CurveArgs, sp: seq<real>, i: nat): nat
    requires i <= |sp|
  {
    if i < |sp| then CutIndex(c, sp, i + 1) else c.numCoefs
  }

  /**
   * Piece `i` of a split is the slice of `c` from knot index `CutIndex(i)`
   * up to `CutEnd(i)`, at least `order` coefficients long.
   */
  ghost predicate SliceAt(p: CurveArgs, c: CurveArgs, sp: seq<real>, i: nat)
    requires i <= |sp|
  {
    ArgsShaped(c) && CutIndex(c, sp, i) + c.order <= CutEnd(c, sp, i) <= c.numCoefs
    && p == Piece(c, CutIndex(c, sp, i), CutEnd(c, sp, i) - CutIndex(c, sp, i))
  }

  /** The pieces are the slices of `c` between consecutive cut indices. */
  ghost predicate SlicedAt(pieces: seq<CurveArgs>, c: CurveArgs, sp: seq<real>)
  {
    |pieces| == |sp| + 1 && forall i {:trigger pieces[i]} :: 0 <= i <= |sp| ==> SliceAt(pieces[i], c, sp, i)
  }

  /** The first `n` pieces are the first `n` slices. */
  ghost predicate SlicedTo(pieces: seq<CurveArgs>, c: CurveArgs, sp: seq<real>, n: nat)
  {
    n <= |sp| && |pieces| == n && forall i {:trigger pieces[i]} :: 0 <= i < n ==> SliceAt(pieces[i], c, sp, i)
  }

  /** The piece cut from the current cut index to the next one is the next slice. */
  lemma NextSlice(c: CurveArgs, sp: seq<real>, ki: nat, start: nat, p: CurveArgs, next: nat)
    requires ArgsShaped(c) && ki < |sp| && start == CutIndex(c, sp, ki)
    requires next == Find(c.knots, 0, sp[ki]) && start + c.order <= next <= c.numCoefs
    requires p == Piece(c, start, next - start)
    ensures SliceAt(p, c, sp, ki) && next == CutIndex(c, sp, ki + 1)
  {
  }

  /** Appending the next slice extends the sliced prefix. */
  lemma SlicedSnoc(pieces: seq<CurveArgs>, p: CurveArgs, c: CurveArgs, sp: seq<real>, n: nat)
    requires SlicedTo(pieces, c, sp, n) && n < |sp| && SliceAt(p, c, sp, n)
    ensures SlicedTo(pieces + [p], c, sp, n + 1)
  {
    var q := pieces + [p];
    forall i | 0 <= i < n + 1
      ensures SliceAt(q[i], c, sp, i)
    {
      if i < n {
        assert q[i] == pieces[i];
      }
    }
  }

  /** Appending the last slice completes the split. */
  lemma SlicedLast(pieces: seq<CurveArgs>, p: CurveArgs, c: CurveArgs, sp: seq<real>)
    requires SlicedTo(pieces, c, sp, |sp|) && SliceAt(p, c, sp, |sp|)
    ensures SlicedAt(pieces + [p], c, sp)
  {
    var q := pieces + [p];
    forall i | 0 <= i <= |sp|
      ensures SliceAt(q[i], c, sp, i)
    {
      if i < |sp| {
        assert q[i] == pieces[i];
      }
    }
  }

  /** Slices of knots that can be split run between the split parameters. */
  lemma SlicedPartition(pieces: seq<CurveArgs>, c: CurveArgs, sp: seq<real>)
    requires Splittable(c, sp) && SlicedAt(pieces, c, sp)
    ensures Partition(pieces, c.order, c.dim, c.rational, Bounds(c, sp))
  {
    var b := Bounds(c, sp);
    forall i | 0 <= i < |pieces|
      ensures Fits(pieces[i], c.order, c.dim, c.rational) && StartsAt(pieces[i], b[i]) && EndsAt(pieces[i], b[i + 1])
    {
      assert SliceAt(pieces[i], c, sp, i);
      SliceBetween(pieces[i], c, sp, i);
    }
  }

  /** Slice `i` runs from bound `i` to bound `i + 1`. */
  lemma SliceBetween(p: CurveArgs, c: CurveArgs, sp: seq<real>, i: nat)
    requires Splittable(c, sp) && i <= |sp| && SliceAt(p, c, sp, i)
    ensures Fits(p, c.order, c.dim, c.rational) && StartsAt(p, Bounds(c, sp)[i]) && EndsAt(p, Bounds(c, sp)[i + 1])
  {
    var lo, hi := CutIndex(c, sp, i), CutEnd(c, sp, i);
    CutStartKnot(c, sp, i);
    CutEndKnot(c, sp, i);
    PieceBetween(c, lo, hi - lo);
  }

  /** Knot `order - 1` of slice `i` is bound `i`. */
  lemma CutStartKnot(c: CurveArgs, sp: seq<real>, i: nat)
    requires Splittable(c, sp) && i <= |sp| && CutIndex(c, sp, i) + c.order <= |c.knots|
    ensures c.knots[CutIndex(c, sp, i) + c.order - 1] == Bounds(c, sp)[i]
  {
    if i > 0 {
      RunAtFirst(c.knots, sp[i - 1], c.order);
    }
  }

  /** The knot where slice `i` ends is bound `i + 1`. */
  lemma CutEndKnot(c: CurveArgs, sp: seq<real>, i: nat)
    requires Splittable(c, sp) && i <= |sp|
    ensures CutEnd(c, sp, i) < |c.knots| && c.knots[CutEnd(c, sp, i)] == Bounds(c, sp)[i + 1]
  {
    if i < |sp| {
      assert c.knots[..] == c.knots;
      assert sp[i] in c.knots;
    }
  }

  /**
   * The outcome of splitting at the sorted parameters `sp` a curve with
   * knots `basis`, refined to `c`: the pieces run from the start of `basis`
   * through the parameters to its end, and they are the slices of `c`.
   */
  ghost predicate SplitInto(pieces: seq<CurveArgs>, c: CurveArgs, basis: seq<real>, sp: seq<real>)
    requires 1 <= c.order <= |basis|
  {
    Partition(pieces, c.order, c.dim, c.rational, [basis[c.order - 1]] + sp + [basis[|basis| - c.order]])
    && SlicedAt(pieces, c, sp)
  }

  /** The start of a curve, the split parameters in order, and its end. */
  function Bounds(c: CurveArgs, sp: seq<real>): (b: seq<real>)
    requires 1 <= c.order <= |c.knots|
    ensures |b| == |sp| + 2 && b[0] == c.knots[c.order - 1] && b[|sp| + 1] == c.knots[|c.knots| - c.order]
    ensures forall i :: 0 <= i < |sp| ==> b[i + 1] == sp[i]
  {
    [c.knots[c.order - 1]] + sp + [c.knots[|c.knots| - c.order]]
  }

  /** A piece may start at knot index `start`: knot `start + k - 1` is `p` and no earlier knot exceeds it. */
  ghost predicate CutAt(s: seq<real>, k: nat, start: nat, p: real)
  {
    1 <= k && start + k <= |s| && s[start + k - 1] == p && forall j :: 0 <= j < start + k ==> s[j] <= p
  }

  /** Knots the pieces can be cut from: sorted, with every split parameter inside and of multiplicity `order`. */
  ghost predicate Splittable(c: CurveArgs, sp: seq<real>)
  {
    ArgsShaped(c) && NonDecreasing(c.knots) && |c.knots| >= 2 * c.order && Increasing(sp)
    && c.knots[c.order - 1] < c.knots[|c.knots| - c.order]
    && forall i :: 0 <= i < |sp| ==>
      c.knots[c.order - 1] < sp[i] < c.knots[|c.knots| - c.order] && multiset(c.knots)[sp[i]] >= c.order
  }

  /** The `n >= order` coefficients from index `start` on form a well-formed curve from knot `start + order - 1` to knot `start + n`. */
  lemma PieceBetween(c: CurveArgs, start: nat, n: nat)
    requires ArgsShaped(c) && NonDecreasing(c.knots) && c.order <= n && start + n <= c.numCoefs
    ensures var a := Piece(c, start, n);
      Fits(a, c.order, c.dim, c.rational)
      && StartsAt(a, c.knots[start + c.order - 1]) && EndsAt(a, c.knots[start + n])
  {
  }

  /** Cuts out the piece between two cut indices. */
  method CutPiece(c: CurveArgs, start: nat, next: nat) returns (a: CurveArgs)
    requires ArgsShaped(c) && NonDecreasing(c.knots) && start + c.order <= next <= c.numCoefs
    ensures Fits(a, c.order, c.dim, c.rational)
    ensures StartsAt(a, c.knots[start + c.order - 1]) && EndsAt(a, c.knots[next])
    ensures a == Piece(c, start, next - start)
  {
    a := Piece(c, start, next - start);
  }

  /** The search for split parameter `ki` from `start + order` on finds the next cut. */
  lemma NextCut(c: CurveArgs, sp: seq<real>, ki: nat, start: nat)
    requires Splittable(c, sp) && ki < |sp| && CutAt(c.knots, c.order, start, Bounds(c, sp)[ki])
    ensures var next := Find(c.knots, start + c.order, sp[ki]);
      start + c.order <= next <= c.numCoefs && c.knots[next] == sp[ki]
      && CutAt(c.knots, c.order, next, Bounds(c, sp)[ki + 1])
      && next == Find(c.knots, 0, sp[ki])
  {
    var s, k, y := c.knots, c.order, sp[ki];
    var p := Bounds(c, sp)[ki];
    assert p < y by {
      if ki > 0 {
        assert sp[ki - 1] < sp[ki];
      }
    }
    FindSkipsAbsent(s, start + k, y);
    RunAtFirst(s, y, k);
    var next := Find(s, start + k, y);
    forall j | 0 <= j < next + k
      ensures s[j] <= y
    {
      if j < next {
        assert s[j] <= s[next];
      }
    }
  }

  /** The piece before split parameter `ki`, and the knot index where the next piece starts. */
  method NextPiece(c: CurveArgs, sp: seq<real>, ki: nat, start: nat) returns (piece: CurveArgs, next: nat)
    requires Splittable(c, sp) && ki < |sp| && CutAt(c.knots, c.order, start, Bounds(c, sp)[ki])
    ensures Fits(piece, c.order, c.dim, c.rational)
    ensures StartsAt(piece, Bounds(c, sp)[ki]) && EndsAt(piece, Bounds(c, sp)[ki + 1])
    ensures CutAt(c.knots, c.order, next, Bounds(c, sp)[ki + 1])
    ensures next == Find(c.knots, 0, sp[ki]) && start + c.order <= next <= c.numCoefs
    ensures piece == Piece(c, start, next - start)
  {
    var k := c.order;
    NextCut(c, sp, ki, start);
    var curr := Find(c.knots, start + k, sp[ki]) + (k - 1);
    next := curr - k + 1;
    piece := CutPiece(c, start, next);
  }

  /** After the last split parameter at least `order` coefficients remain. */
  lemma LastCut(c: CurveArgs, sp: seq<real>, start: nat)
    requires Splittable(c, sp) && CutAt(c.knots, c.order, start, Bounds(c, sp)[|sp|])
    ensures start + c.order <= c.numCoefs
  {
    var s, k := c.knots, c.order;
    var q := |s| - k;
    assert s[q] > Bounds(c, sp)[|sp|] by {
      if |sp| > 0 {
        assert s[q] > sp[|sp| - 1];
      }
    }
  }

  /** Distinct split parameters inside `(lo, hi)`, sorted. */
  method SortedParams(param: seq<real>, lo: real, hi: real) returns (sp: seq<real>)
    requires forall i :: 0 <= i < |param| ==> lo < param[i] < hi
    requires forall i, j :: 0 <= i < j < |param| ==> param[i] != param[j]
    ensures |sp| == |param| && multiset(sp) == multiset(param) && Increasing(sp)
    ensures forall x :: x in sp ==> lo < x < hi
  {
    sp := Sort(param);
    SortDistinct(param);
    assert forall x :: x in sp ==> x in multiset(param);
  }

  /** The bounds of a curve depend only on its start and end parameters. */
  lemma SameBounds(c: CurveArgs, sp: seq<real>, lo: real, hi: real)
    requires 1 <= c.order <= |c.knots| && c.knots[c.order - 1] == lo && c.knots[|c.knots| - c.order] == hi
    ensures Bounds(c, sp) == [lo] + sp + [hi]
  {
  }

  /**
   * The pieces of a curve whose knots are `basis` with the missing copies of
   * the sorted split parameters merged in.
   */
  method RefinedPieces(c: CurveArgs, basis: seq<real>, sp: seq<real>) returns (pieces: seq<CurveArgs>)
    requires ArgsShaped(c) && |basis| >= 2 * c.order && NonDecreasing(basis) && Increasing(sp)
    requires basis[c.order - 1] < basis[|basis| - c.order]
    requires forall x :: x in sp ==> basis[c.order - 1] < x < basis[|basis| - c.order]
    requires c.knots == Merge(basis, Difference(RepeatEach(sp, c.order), basis))
    ensures SplitInto(pieces, c, basis, sp)
  {
    SplitKnots(basis, c.order, sp);
    assert forall i :: 0 <= i < |sp| ==> sp[i] in sp;
    assert Splittable(c, sp);
    SameBounds(c, sp, basis[c.order - 1], basis[|basis| - c.order]);
    pieces := SplitPieces(c, sp);
  }

  /**
   * The pieces between consecutive split parameters, each taken from the
   * first copy of the previous parameter to the first copy of the next.
   */
  method SplitPieces(c: CurveArgs, sp: seq<real>) returns (pieces: seq<CurveArgs>)
    requires Splittable(c, sp)
    ensures Partition(pieces, c.order, c.dim, c.rational, Bounds(c, sp))
    ensures SlicedAt(pieces, c, sp)
  {
    var start;
    pieces, start := InnerPieces(c, sp);
    LastCut(c, sp, start);
    var last := CutPiece(c, start, c.numCoefs);
    assert SliceAt(last, c, sp, |sp|);
    SlicedLast(pieces, last, c, sp);
    pieces := pieces + [last];
    SlicedPartition(pieces, c, sp);
  }

  /** The pieces before each split parameter, and the knot index where the last piece starts. */
  method InnerPieces(c: CurveArgs, sp: seq<real>) returns (pieces: seq<CurveArgs>, start: nat)
    requires Splittable(c, sp)
    ensures |pieces| == |sp| && CutAt(c.knots, c.order, start, Bounds(c, sp)[|sp|])
    ensures start == CutIndex(c, sp, |sp|)
    ensures SlicedTo(pieces, c, sp, |sp|)
  {
    var k := c.order;
    ghost var bounds := Bounds(c, sp);
    pieces := [];
    start := 0;
    for ki := 0 to |sp|
      invariant CutAt(c.knots, k, start, bounds[ki]) && start == CutIndex(c, sp, ki)
      invariant SlicedTo(pieces, c, sp, ki)
    {
      var piece;
      ghost var lo := start;
      piece, start := NextPiece(c, sp, ki, start);
      NextSlice(c, sp, ki, lo, piece, start);
      SlicedSnoc(pieces, piece, c, sp, ki);
      pieces := pieces + [piece];
    }
  }

  /** `k` copies of `from` followed by `k` copies of `to`. */
  method EndKnots(from: real, to: real, k: nat) returns (want: seq<real>)
    ensures want == Repeat(from, k) + Repeat(to, k)
  {
    want := [];
    for i := 0 to k
      invariant want == Repeat(from, i)
    {
      want := want + [from];
    }
    for i := 0 to k
      invariant want == Repeat(from, k) + Repeat(to, i)
    {
      want := want + [to];
    }
  }

  /** Each parameter `k` times over, in order. */
  method RepeatedParams(sp: seq<real>, k: nat) returns (want: seq<real>)
    ensures want == RepeatEach(sp, k)
  {
    want := [];
    for ki := 0 to |sp|
      invariant want == RepeatEach(sp[..ki], k)
    {
      for kj := 0 to k
        invariant want == RepeatEach(sp[..ki], k) + Repeat(sp[ki], kj)
      {
        want := want + [sp[ki]];
      }
      RepeatEachSnoc(sp, k, ki);
    }
    assert sp[..|sp|] == sp;
  }

  /** Copies the coefficients after the first `cont + 1` to the end. */
  method ExtendedCoefs(c: seq<real>, effdim: nat, cont: int) returns (r: seq<real>)
    requires 0 <= cont && Times(effdim, cont + 1) <= |c|
    ensures r == AppendedCoefs(c, effdim, cont)
  {
    r := c;
    for j := Times(effdim, cont + 1) to |c|
      invariant r == c + c[Times(effdim, cont + 1)..j]
    {
      assert c[Times(effdim, cont + 1)..j + 1] == c[Times(effdim, cont + 1)..j] + [c[j]];
      r := r + [c[j]];
    }
    assert c[Times(effdim, cont + 1)..|c|] == c[Times(effdim, cont + 1)..];
  }

  /** Appends the knots from index `from` on, each moved by `delta`. */
  method ExtendedKnots(kn: seq<real>, from: nat, delta: real) returns (r: seq<real>)
    requires from <= |kn|
    ensures r == kn + Shifted(kn[from..], delta)
  {
    r := kn;
    for j := from to |kn|
      invariant r == kn + Shifted(kn[from..j], delta)
    {
      ShiftedSnoc(kn[from..j], kn[j], delta);
      assert kn[from..j + 1] == kn[from..j] + [kn[j]];
      r := r + [kn[j] + delta];
    }
    assert kn[from..|kn|] == kn[from..];
  }

  lemma ShiftedSnoc(s: seq<real>, x: real, delta: real)
    ensures Shifted(s + [x], delta) == Shifted(s, delta) + [x + delta]
  {
  }
}
