/**
 * Univariate B-spline evaluation of one locally refined basis function:
 * the value by an iterative Cox-de Boor triangle (`B`), its derivatives by a
 * recursion that lowers the degree (`DB`) and the dispatcher between the two.
 *
 * A basis function of degree `deg` refers to `deg + 2` knots through a vector
 * of knot indices into a table of knot values. `LocalKnots` reads those.
 */
module BSplineEval {
  import opened KnotSeq

  /** Largest degree the scratch buffer of `B` is sized for. */
  const MaxDegree: nat := 20

  datatype Option<T> = None | Some(value: T)

  /** Every knot index refers to an entry of the knot-value table. */
  predicate ValidIndices(kix: seq<int>, kvals: seq<real>)
  {
    forall j :: 0 <= j < |kix| ==> 0 <= kix[j] < |kvals|
  }

  /** The knot values a basis function refers to, in local order. */
  function LocalKnots(kix: seq<int>, kvals: seq<real>): (kv: seq<real>)
    requires ValidIndices(kix, kvals)
    ensures |kv| == |kix|
    ensures forall j :: 0 <= j < |kix| ==> kv[j] == kvals[kix[j]]
  {
    seq(|kix|, j requires 0 <= j < |kix| => kvals[kix[j]])
  }

  /**
   * Whether the start-index search steps past knot `k`: with `atEnd` the
   * search uses `<` (intervals closed on the right), otherwise `<=`.
   */
  predicate StepsPast(k: real, t: real, atEnd: bool)
  {
    if atEnd then k < t else k <= t
  }

  /**
   * The support test of the model: `t` in `[kv[0], kv[last]]` with `atEnd`,
   * in the half-open `[kv[0], kv[last])` without it.
   */
  predicate InSupport(kv: seq<real>, t: real, atEnd: bool)
    requires |kv| >= 2
  {
    kv[0] <= t && (if atEnd then t <= kv[|kv| - 1] else t < kv[|kv| - 1])
  }

  /**
   * The start-index search as written: it steps while the next knot passes
   * the test and would read beyond the local knots when all of them pass.
   * `None` stands for that out-of-range read.
   */
  function SearchAsWritten(kv: seq<real>, j: nat, t: real, atEnd: bool): (r: Option<nat>)
    requires j < |kv|
    ensures r.Some? ==> j <= r.value && r.value + 1 < |kv| && !StepsPast(kv[r.value + 1], t, atEnd)
    decreases |kv| - j
  {
    if j + 1 >= |kv| then None
    else if StepsPast(kv[j + 1], t, atEnd) then SearchAsWritten(kv, j + 1, t, atEnd)
    else Some(j)
  }

  /**
   * The start-index search inside the support: the first `s >= j` whose next
   * knot stops the search. It stays within `[j, deg]`.
   */
  function SearchFrom(kv: seq<real>, j: nat, t: real, atEnd: bool): (s: nat)
    requires |kv| >= 2 && j + 1 < |kv|
    requires InSupport(kv, t, atEnd)
    ensures j <= s <= |kv| - 2
    ensures forall i :: j < i <= s ==> StepsPast(kv[i], t, atEnd)
    ensures !StepsPast(kv[s + 1], t, atEnd)
    decreases |kv| - j
  {
    if StepsPast(kv[j + 1], t, atEnd) then SearchFrom(kv, j + 1, t, atEnd) else j
  }

  /** The index of the one nonzero degree-0 function at `t`. */
  function StartIndex(kv: seq<real>, t: real, atEnd: bool): (s: nat)
    requires |kv| >= 2 && InSupport(kv, t, atEnd)
  {
    SearchFrom(kv, 0, t, atEnd)
  }

  /**
   * Left weight of the recurrence, `(t - k_i) / (k_ipd - k_i)`; exactly 0
   * over a zero-length span, so nothing is divided by zero.
   */
  function LeftWeight(t: real, k_i: real, k_ipd: real): (w: real)
    ensures k_ipd == k_i ==> w == 0.0
  {
    if k_ipd == k_i then 0.0 else (t - k_i) / (k_ipd - k_i)
  }

  /**
   * Right weight of the recurrence, `(k_ipdp1 - t) / (k_ipdp1 - k_ip1)`;
   * exactly 0 over a zero-length span.
   */
  function RightWeight(t: real, k_ip1: real, k_ipdp1: real): (w: real)
    ensures k_ipdp1 == k_ip1 ==> w == 0.0
  {
    if k_ipdp1 == k_ip1 then 0.0 else (k_ipdp1 - t) / (k_ipdp1 - k_ip1)
  }

  function Alpha(kv: seq<real>, i: nat, d: nat, t: real): real
    requires i + d < |kv|
  {
    LeftWeight(t, kv[i], kv[i + d])
  }

  function Beta(kv: seq<real>, i: nat, d: nat, t: real): real
    requires i + d + 1 < |kv|
  {
    RightWeight(t, kv[i + 1], kv[i + d + 1])
  }

  /** The combination `alpha * lo + beta * hi` every cell of the triangle is built from. */
  function Blend(alpha: real, lo: real, beta: real, hi: real): real
  {
    alpha * lo + beta * hi
  }

  /**
   * Cox-de Boor recurrence: the degree-`d` function starting at local knot
   * `i`, when the degree-0 function starting at `s` is the only nonzero one.
   */
  function Tri(kv: seq<real>, s: nat, t: real, i: nat, d: nat): real
    requires i + d + 1 < |kv|
    decreases d
  {
    if d == 0 then (if i == s then 1.0 else 0.0)
    else Blend(Alpha(kv, i, d, t), Tri(kv, s, t, i, d - 1), Beta(kv, i, d, t), Tri(kv, s, t, i + 1, d - 1))
  }

  /** The value of the basis function of degree `deg` over local knots `kv`. */
  function BValue(deg: nat, t: real, kv: seq<real>, atEnd: bool): real
    requires |kv| == deg + 2
  {
    if InSupport(kv, t, atEnd) then Tri(kv, StartIndex(kv, t, atEnd), t, 0, deg) else 0.0
  }

  /** One step of the recurrence, in the terms the triangle computes it. */
  lemma TriStep(kv: seq<real>, s: nat, t: real, i: nat, d: nat, alpha: real, beta: real, lo: real, hi: real)
    requires 1 <= d && i + d + 1 < |kv|
    requires alpha == Alpha(kv, i, d, t) && beta == Beta(kv, i, d, t)
    requires lo == Tri(kv, s, t, i, d - 1) && hi == Tri(kv, s, t, i + 1, d - 1)
    ensures Blend(alpha, lo, beta, hi) == Tri(kv, s, t, i, d)
  {
  }

  /** A degree-`d` function vanishes unless it starts in `[s - d, s]`. */
  lemma {:induction false} TriVanishes(kv: seq<real>, s: nat, t: real, i: nat, d: nat)
    requires i + d + 1 < |kv|
    requires i > s || i + d < s
    ensures Tri(kv, s, t, i, d) == 0.0
    decreases d
  {
    if d > 0 {
      TriVanishes(kv, s, t, i, d - 1);
      TriVanishes(kv, s, t, i + 1, d - 1);
    }
  }

  lemma TriVanishesAll(kv: seq<real>, s: nat, t: real, d: nat)
    ensures forall i: nat :: i + d + 1 < |kv| && (i > s || i + d < s) ==> Tri(kv, s, t, i, d) == 0.0
  {
    forall i: nat | i + d + 1 < |kv| && (i > s || i + d < s)
      ensures Tri(kv, s, t, i, d) == 0.0
    {
      TriVanishes(kv, s, t, i, d);
    }
  }

  /**
   * The start index found inside the support lies in `[0, deg]` and locates
   * `t`: without `atEnd` in the half-open `[kv[s], kv[s+1])`, with it in
   * `(kv[s], kv[s+1]]` (or `[kv[0], kv[1]]` when `s == 0`).
   */
  lemma {:induction false} StartIndexLocates(kv: seq<real>, t: real, atEnd: bool)
    requires |kv| >= 2 && InSupport(kv, t, atEnd)
    ensures StartIndex(kv, t, atEnd) <= |kv| - 2
    ensures !atEnd ==> kv[StartIndex(kv, t, atEnd)] <= t < kv[StartIndex(kv, t, atEnd) + 1]
    ensures atEnd ==> kv[StartIndex(kv, t, atEnd)] <= t <= kv[StartIndex(kv, t, atEnd) + 1]
    ensures atEnd && StartIndex(kv, t, atEnd) > 0 ==> kv[StartIndex(kv, t, atEnd)] < t
  {
    var s := SearchFrom(kv, 0, t, atEnd);
    if s > 0 {
      assert StepsPast(kv[s], t, atEnd);
    }
  }

  /**
   * With the closed rule, a `t` on the last knot of a support whose last span
   * is not empty falls in the last interval.
   */
  lemma {:induction false} AtEndUsesLastInterval(kv: seq<real>, t: real)
    requires |kv| >= 2 && NonDecreasing(kv)
    requires t == kv[|kv| - 1] && kv[|kv| - 2] < t
    ensures InSupport(kv, t, true) && StartIndex(kv, t, true) == |kv| - 2
  {
  }

  /** The as-written search agrees with the model's search inside the support. */
  lemma {:induction false} SearchAsWrittenInSupport(kv: seq<real>, j: nat, t: real, atEnd: bool)
    requires |kv| >= 2 && j + 1 < |kv| && InSupport(kv, t, atEnd)
    ensures SearchAsWritten(kv, j, t, atEnd) == Some(SearchFrom(kv, j, t, atEnd))
    decreases |kv| - j
  {
    if StepsPast(kv[j + 1], t, atEnd) {
      SearchAsWrittenInSupport(kv, j + 1, t, atEnd);
    }
  }

  /** The support test as written: only `t` strictly outside the knots is rejected. */
  predicate PassesGuardAsWritten(kv: seq<real>, t: real)
    requires |kv| >= 2
  {
    !(t < kv[0] || t > kv[|kv| - 1])
  }

  lemma {:induction false} SearchOverrunsFrom(kv: seq<real>, j: nat, t: real)
    requires j < |kv| && NonDecreasing(kv) && t == kv[|kv| - 1]
    ensures SearchAsWritten(kv, j, t, false) == None
    decreases |kv| - j
  {
    if j + 1 < |kv| {
      assert kv[j + 1] <= kv[|kv| - 1];
      SearchOverrunsFrom(kv, j + 1, t);
    }
  }

  /**
   * Without `atEnd`, a `t` equal to the last local knot passes the support
   * test as written, and the `<=` search then steps past every local knot:
   * it reads one knot index beyond the `deg + 2` the function has.
   */
  lemma SearchOverrunsAtLastKnot(kv: seq<real>, t: real)
    requires |kv| >= 2 && NonDecreasing(kv) && t == kv[|kv| - 1]
    ensures PassesGuardAsWritten(kv, t)
    ensures SearchAsWritten(kv, 0, t, false) == None
    ensures !InSupport(kv, t, false)
  {
    SearchOverrunsFrom(kv, 0, t);
  }

  /** The smallest instance: degree 0, knots 0 and 1, `t == 1`. */
  lemma SearchOverrunsExample()
    ensures PassesGuardAsWritten([0.0, 1.0], 1.0)
    ensures SearchAsWritten([0.0, 1.0], 0, 1.0, false) == None
  {
    SearchOverrunsAtLastKnot([0.0, 1.0], 1.0);
  }

  /**
   * The start-index search of `B` inside the support: `<` with `atEnd`,
   * `<=` without, never leaving `[0, deg]`.
   */
  method FindStart(deg: nat, t: real, kix: seq<int>, kvals: seq<real>, atEnd: bool) returns (nz: nat)
    requires |kix| == deg + 2 && ValidIndices(kix, kvals)
    requires InSupport(LocalKnots(kix, kvals), t, atEnd)
    ensures nz <= deg && nz == StartIndex(LocalKnots(kix, kvals), t, atEnd)
  {
    ghost var kv := LocalKnots(kix, kvals);
    ghost var s := StartIndex(kv, t, atEnd);
    nz := 0;
    if atEnd {
      while kvals[kix[nz + 1]] < t
        invariant 0 <= nz <= s && SearchFrom(kv, nz, t, atEnd) == s
        decreases deg - nz
      {
        nz := nz + 1;
      }
    } else {
      while kvals[kix[nz + 1]] <= t
        invariant 0 <= nz <= s && SearchFrom(kv, nz, t, atEnd) == s
        decreases deg - nz
      {
        nz := nz + 1;
      }
    }
  }

  /**
   * B: the value of a degree-`deg` basis function at `t`, computed in a
   * scratch buffer of `MaxDegree + 2` cells of which only the first
   * `deg + 1` are touched. Outside the support the result is 0.
   */
  method B(deg: nat, t: real, kix: seq<int>, kvals: seq<real>, atEnd: bool) returns (r: real)
    requires |kix| == deg + 2 && ValidIndices(kix, kvals)
    requires InSupport(LocalKnots(kix, kvals), t, atEnd) ==> deg <= MaxDegree
    ensures r == BValue(deg, t, LocalKnots(kix, kvals), atEnd)
  {
    ghost var kv := LocalKnots(kix, kvals);
    if t < kvals[kix[0]] || t > kvals[kix[deg + 1]] || (!atEnd && t == kvals[kix[deg + 1]]) {
      return 0.0;
    }
    assert InSupport(kv, t, atEnd);
    var tmp, nz := StartBuffer(deg, t, kix, kvals, atEnd);
    ghost var s := nz;
    for d := 1 to deg + 1
      invariant Holds(tmp[..], kv, s, t, 0, deg - d + 2, d - 1)
    {
      CoxDeBoorPass(tmp, deg, d, nz, t, kix, kvals, kv);
    }
    assert tmp[..][0] == Tri(kv, s, t, 0, deg);
    r := tmp[0];
  }

  /**
   * The degree-0 row of the triangle: cells `0 .. deg` cleared, then a 1 in
   * the cell of the interval that holds `t`.
   */
  method StartBuffer(deg: nat, t: real, kix: seq<int>, kvals: seq<real>, atEnd: bool)
    returns (tmp: array<real>, nz: nat)
    requires |kix| == deg + 2 && ValidIndices(kix, kvals) && deg <= MaxDegree
    requires InSupport(LocalKnots(kix, kvals), t, atEnd)
    ensures fresh(tmp) && tmp.Length == MaxDegree + 2
    ensures nz <= deg && nz == StartIndex(LocalKnots(kix, kvals), t, atEnd)
    ensures Holds(tmp[..], LocalKnots(kix, kvals), nz, t, 0, deg + 1, 0)
  {
    tmp := new real[MaxDegree + 2];
    forall j | 0 <= j < deg + 1 {
      tmp[j] := 0.0;
    }
    nz := FindStart(deg, t, kix, kvals, atEnd);
    tmp[nz] := 1.0;
    BaseRow(tmp[..], LocalKnots(kix, kvals), nz, t, deg);
  }

  /** Cells `lo .. hi - 1` of `a` hold the degree-`d` functions. */
  ghost predicate Holds(a: seq<real>, kv: seq<real>, s: nat, t: real, lo: nat, hi: nat, d: nat)
  {
    forall j: nat {:trigger a[j]} :: lo <= j < hi && j < |a| && j + d + 1 < |kv| ==> a[j] == Tri(kv, s, t, j, d)
  }

  /** Before the first pass the cells hold the degree-0 functions. */
  lemma BaseRow(a: seq<real>, kv: seq<real>, s: nat, t: real, deg: nat)
    requires s <= deg && deg + 1 <= |a| && |kv| == deg + 2
    requires a[s] == 1.0 && forall j :: 0 <= j <= deg && j != s ==> a[j] == 0.0
    ensures Holds(a, kv, s, t, 0, deg + 1, 0)
  {
  }

  lemma PassStep(a: seq<real>, kv: seq<real>, s: nat, t: real, lbound: nat, i: nat, top: nat, d: nat, v: real)
    requires 1 <= d && i < |a| && i + d + 1 < |kv|
    requires Holds(a, kv, s, t, lbound, i, d) && Holds(a, kv, s, t, i, top, d - 1)
    requires Holds(a, kv, s, t, 0, lbound, d - 1)
    requires lbound <= i && v == Tri(kv, s, t, i, d)
    ensures Holds(a[i := v], kv, s, t, lbound, i + 1, d) && Holds(a[i := v], kv, s, t, i + 1, top, d - 1)
    ensures Holds(a[i := v], kv, s, t, 0, lbound, d - 1)
  {
  }

  lemma PassDone(a: seq<real>, kv: seq<real>, s: nat, t: real, lbound: nat, ubound: nat, deg: nat, d: nat)
    requires 1 <= d <= deg && s <= deg && |kv| == deg + 2 && deg + 1 <= |a|
    requires lbound == (if 0 < s - d then s - d else 0) && ubound == (if s < deg - d then s else deg - d)
    requires Holds(a, kv, s, t, lbound, ubound + 1, d) && Holds(a, kv, s, t, ubound + 1, deg - d + 2, d - 1)
    requires Holds(a, kv, s, t, 0, lbound, d - 1)
    ensures Holds(a, kv, s, t, 0, deg - d + 1, d)
  {
    forall j: nat | j < deg - d + 1
      ensures a[j] == Tri(kv, s, t, j, d)
    {
      if j < lbound {
        TriVanishes(kv, s, t, j, d - 1);
        TriVanishes(kv, s, t, j, d);
      } else if j > ubound {
        TriVanishes(kv, s, t, j, d - 1);
        TriVanishes(kv, s, t, j, d);
      }
    }
  }

  /**
   * Pass `d` of the triangle: rewrites cells `max(0, s - d) .. min(s, deg - d)`
   * from degree `d - 1` to degree `d`, reading cell `i + 1` before it is
   * rewritten. No cell at or beyond `deg + 1` is read or written.
   */
  method CoxDeBoorPass(tmp: array<real>, deg: nat, d: nat, s: nat, t: real,
                       kix: seq<int>, kvals: seq<real>, ghost kv: seq<real>)
    requires |kix| == deg + 2 && ValidIndices(kix, kvals) && kv == LocalKnots(kix, kvals)
    requires 1 <= d <= deg && s <= deg && deg + 1 <= tmp.Length
    requires Holds(tmp[..], kv, s, t, 0, deg - d + 2, d - 1)
    modifies tmp
    ensures Holds(tmp[..], kv, s, t, 0, deg - d + 1, d)
    ensures tmp[deg + 1..] == old(tmp[deg + 1..])
  {
    var lbound := if 0 < s - d then s - d else 0;
    var ubound := if s < deg - d then s else deg - d;
    for i := lbound to ubound + 1
      invariant Holds(tmp[..], kv, s, t, lbound, i, d)
      invariant Holds(tmp[..], kv, s, t, i, deg - d + 2, d - 1)
      invariant Holds(tmp[..], kv, s, t, 0, lbound, d - 1)
      invariant tmp[deg + 1..] == old(tmp[deg + 1..])
    {
      var k_i := kvals[kix[i]];
      var k_ip1 := kvals[kix[i + 1]];
      var k_ipd := kvals[kix[i + d]];
      var k_ipdp1 := kvals[kix[i + d + 1]];
      var alpha := LeftWeight(t, k_i, k_ipd);
      var beta := RightWeight(t, k_ip1, k_ipdp1);
      ghost var before := tmp[..];
      assert before[i] == Tri(kv, s, t, i, d - 1) && before[i + 1] == Tri(kv, s, t, i + 1, d - 1);
      var v := Blend(alpha, tmp[i], beta, tmp[i + 1]);
      TriStep(kv, s, t, i, d, alpha, beta, tmp[i], tmp[i + 1]);
      PassStep(before, kv, s, t, lbound, i, deg - d + 2, d, v);
      tmp[i] := v;
      assert tmp[..] == before[i := v];
    }
    PassDone(tmp[..], kv, s, t, lbound, ubound, deg, d);
  }

  /**
   * Derivative of order `der >= 1` of the degree-`deg` basis function, by the
   * recursion that lowers the degree: the first `deg + 1` and the last
   * `deg + 1` local knots span the two degree-`deg - 1` functions, weighted
   * by `deg / span` and `-deg / span`. A zero span gives a zero factor and
   * its term is dropped; at derivative order 1 the lower-degree values are
   * taken instead of derivatives. A derivative of order above the degree is
   * 0: the recursion reaches degree 0 before the order runs out.
   */
  function DB(deg: nat, t: real, kv: seq<real>, atEnd: bool, der: nat): (r: real)
    requires |kv| == deg + 2 && der >= 1
    ensures der > deg ==> r == 0.0
    decreases deg
  {
    if deg == 0 then 0.0
    else
      var fac1 := if kv[deg] > kv[0] then (deg as real) / (kv[deg] - kv[0]) else 0.0;
      var fac2 := if kv[deg + 1] > kv[1] then (-(deg as real)) / (kv[deg + 1] - kv[1]) else 0.0;
      var lower := kv[..deg + 1];
      var upper := kv[1..];
      (if fac1 != 0.0 then
         fac1 * (if der > 1 then DB(deg - 1, t, lower, atEnd, der - 1) else BValue(deg - 1, t, lower, atEnd))
       else 0.0)
      + (if fac2 != 0.0 then
           fac2 * (if der > 1 then DB(deg - 1, t, upper, atEnd, der - 1) else BValue(deg - 1, t, upper, atEnd))
         else 0.0)
  }

  /** Outside the support of a basis function its value is 0. */
  lemma ValueVanishesOutsideSupport(deg: nat, t: real, kv: seq<real>, atEnd: bool)
    requires |kv| == deg + 2 && !InSupport(kv, t, atEnd)
    ensures BValue(deg, t, kv, atEnd) == 0.0
  {
  }

  /**
   * Outside the support of a basis function over non-decreasing knots all
   * its derivatives are 0: both lower-degree functions of the recursion
   * have supports inside it.
   */
  lemma {:induction false} DerivativeVanishesOutsideSupport(deg: nat, t: real, kv: seq<real>, atEnd: bool, der: nat)
    requires |kv| == deg + 2 && der >= 1 && NonDecreasing(kv)
    requires !InSupport(kv, t, atEnd)
    ensures DB(deg, t, kv, atEnd, der) == 0.0
    decreases deg
  {
    if deg > 0 {
      var lower := kv[..deg + 1];
      var upper := kv[1..];
      assert kv[0] <= kv[1] && kv[deg] <= kv[deg + 1];
      assert !InSupport(lower, t, atEnd) && !InSupport(upper, t, atEnd);
      if der > 1 {
        assert NonDecreasing(lower) && NonDecreasing(upper);
        DerivativeVanishesOutsideSupport(deg - 1, t, lower, atEnd, der - 1);
        DerivativeVanishesOutsideSupport(deg - 1, t, upper, atEnd, der - 1);
      }
    }
  }

  /**
   * The univariate factor of a basis function: the derivative of order
   * `deriv` when `deriv > 0`, the value otherwise.
   */
  function UnivariateSpline(deg: nat, u: real, kix: seq<int>, kvals: seq<real>, deriv: int, onEnd: bool): (r: real)
    requires |kix| == deg + 2 && ValidIndices(kix, kvals)
    ensures deriv > 0 ==> r == DB(deg, u, LocalKnots(kix, kvals), onEnd, deriv)
    ensures deriv <= 0 ==> r == BValue(deg, u, LocalKnots(kix, kvals), onEnd)
    ensures NonDecreasing(LocalKnots(kix, kvals)) && !InSupport(LocalKnots(kix, kvals), u, onEnd) ==> r == 0.0
  {
    var kv := LocalKnots(kix, kvals);
    if deriv > 0 then
      if NonDecreasing(kv) && !InSupport(kv, u, onEnd) then
        DerivativeVanishesOutsideSupport(deg, u, kv, onEnd, deriv);
        DB(deg, u, kv, onEnd, deriv)
      else
        DB(deg, u, kv, onEnd, deriv)
    else
      BValue(deg, u, kv, onEnd)
  }

  /** The quadratic over uniform knots 0, 1, 2, 3 takes 3/4 at its midpoint. */
  lemma QuadraticMidpointValue()
    ensures BValue(2, 1.5, [0.0, 1.0, 2.0, 3.0], false) == 0.75
  {
    var kv := [0.0, 1.0, 2.0, 3.0];
    assert StartIndex(kv, 1.5, false) == 1;
    assert Tri(kv, 1, 1.5, 0, 1) == 0.5;
    assert Tri(kv, 1, 1.5, 1, 1) == 0.5;
  }

  /**
   * Its first derivative is 1/2 at 1/2 and 0 at the midpoint, and its second
   * derivative is 1 at 1/2: the function is `t*t/2` on the first span.
   */
  lemma QuadraticDerivatives()
    ensures DB(2, 0.5, [0.0, 1.0, 2.0, 3.0], false, 1) == 0.5
    ensures DB(2, 1.5, [0.0, 1.0, 2.0, 3.0], false, 1) == 0.0
    ensures DB(2, 0.5, [0.0, 1.0, 2.0, 3.0], false, 2) == 1.0
  {
    var kv := [0.0, 1.0, 2.0, 3.0];
    assert kv[..3] == [0.0, 1.0, 2.0] && kv[1..] == [1.0, 2.0, 3.0];
    var lo := [0.0, 1.0, 2.0];
    var hi := [1.0, 2.0, 3.0];
    assert lo[..2] == [0.0, 1.0] && lo[1..] == [1.0, 2.0];
    assert hi[..2] == [1.0, 2.0] && hi[1..] == [2.0, 3.0];
    assert StartIndex(lo, 0.5, false) == 0 && StartIndex(lo, 1.5, false) == 1;
    assert StartIndex(hi, 1.5, false) == 0;
    assert BValue(1, 0.5, lo, false) == 0.5;
    assert BValue(1, 0.5, hi, false) == 0.0;
    assert BValue(1, 1.5, lo, false) == 0.5;
    assert BValue(1, 1.5, hi, false) == 0.5;
    assert DB(1, 0.5, lo, false, 1) == 1.0;
    assert DB(1, 0.5, hi, false, 1) == 0.0;
  }

  lemma WeightsNonnegative(t: real, a: real, b: real)
    requires a <= t <= b
    ensures LeftWeight(t, a, b) >= 0.0 && RightWeight(t, a, b) >= 0.0
  {
    if a != b {
      QuotientNonnegative(t - a, b - a);
      QuotientNonnegative(b - t, b - a);
    }
  }

  lemma QuotientNonnegative(x: real, y: real)
    requires x >= 0.0 && y > 0.0
    ensures x / y >= 0.0
  {
  }

  lemma ProductNonnegative(x: real, y: real)
    requires x >= 0.0 && y >= 0.0
    ensures x * y >= 0.0
  {
  }

  /** The left term `alpha * N(i, d-1)` of a cell is never negative. */
  lemma LeftTermNonnegative(kv: seq<real>, s: nat, t: real, i: nat, d: nat)
    requires NonDecreasing(kv) && s + 1 < |kv| && kv[s] <= t <= kv[s + 1]
    requires 1 <= d && i + d + 1 < |kv| && Tri(kv, s, t, i, d - 1) >= 0.0
    ensures Alpha(kv, i, d, t) * Tri(kv, s, t, i, d - 1) >= 0.0
  {
    if i <= s < i + d {
      assert kv[i] <= kv[s] && kv[s + 1] <= kv[i + d];
      WeightsNonnegative(t, kv[i], kv[i + d]);
      ProductNonnegative(Alpha(kv, i, d, t), Tri(kv, s, t, i, d - 1));
    } else {
      TriVanishes(kv, s, t, i, d - 1);
    }
  }

  /** The right term `beta * N(i+1, d-1)` of a cell is never negative. */
  lemma RightTermNonnegative(kv: seq<real>, s: nat, t: real, i: nat, d: nat)
    requires NonDecreasing(kv) && s + 1 < |kv| && kv[s] <= t <= kv[s + 1]
    requires 1 <= d && i + d + 1 < |kv| && Tri(kv, s, t, i + 1, d - 1) >= 0.0
    ensures Beta(kv, i, d, t) * Tri(kv, s, t, i + 1, d - 1) >= 0.0
  {
    if i + 1 <= s <= i + d {
      assert kv[i + 1] <= kv[s] && kv[s + 1] <= kv[i + d + 1];
      WeightsNonnegative(t, kv[i + 1], kv[i + d + 1]);
      ProductNonnegative(Beta(kv, i, d, t), Tri(kv, s, t, i + 1, d - 1));
    } else {
      TriVanishes(kv, s, t, i + 1, d - 1);
    }
  }

  /**
   * Over non-decreasing knots, with `t` in `[kv[s], kv[s+1]]`, no entry of the
   * triangle is negative: a weight is applied only to a function that is
   * nonzero at `t`, and there `t` lies inside the weight's span.
   */
  lemma {:induction false} TriNonnegative(kv: seq<real>, s: nat, t: real, i: nat, d: nat)
    requires NonDecreasing(kv) && s + 1 < |kv| && kv[s] <= t <= kv[s + 1]
    requires i + d + 1 < |kv|
    ensures Tri(kv, s, t, i, d) >= 0.0
    decreases d
  {
    if d > 0 {
      TriNonnegative(kv, s, t, i, d - 1);
      TriNonnegative(kv, s, t, i + 1, d - 1);
      CellNonnegative(kv, s, t, i, d);
    }
  }

  /** One cell is never negative when the two cells it is built from are not. */
  lemma CellNonnegative(kv: seq<real>, s: nat, t: real, i: nat, d: nat)
    requires NonDecreasing(kv) && s + 1 < |kv| && kv[s] <= t <= kv[s + 1]
    requires 1 <= d && i + d + 1 < |kv|
    requires Tri(kv, s, t, i, d - 1) >= 0.0 && Tri(kv, s, t, i + 1, d - 1) >= 0.0
    ensures Tri(kv, s, t, i, d) >= 0.0
  {
    LeftTermNonnegative(kv, s, t, i, d);
    RightTermNonnegative(kv, s, t, i, d);
    BlendNonnegative(Alpha(kv, i, d, t), Tri(kv, s, t, i, d - 1), Beta(kv, i, d, t), Tri(kv, s, t, i + 1, d - 1));
  }

  lemma BlendNonnegative(alpha: real, lo: real, beta: real, hi: real)
    requires alpha * lo >= 0.0 && beta * hi >= 0.0
    ensures Blend(alpha, lo, beta, hi) >= 0.0
  {
  }

  /** A basis function over non-decreasing knots is never negative. */
  lemma ValueNonnegative(deg: nat, t: real, kv: seq<real>, atEnd: bool)
    requires |kv| == deg + 2 && NonDecreasing(kv)
    ensures BValue(deg, t, kv, atEnd) >= 0.0
  {
    if InSupport(kv, t, atEnd) {
      StartIndexLocates(kv, t, atEnd);
      TriNonnegative(kv, StartIndex(kv, t, atEnd), t, 0, deg);
    }
  }
}
