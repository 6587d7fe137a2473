/**
 * One locally refined bivariate B-spline basis function: its two local knot
 * index vectors, its coefficient scaled by `gamma`, and the handles of the
 * mesh elements its support covers. Evaluation is the product of two
 * univariate factors; the order is lexicographic over the knot vectors, the
 * coefficient and `gamma`, while equality looks at the knot vectors only.
 */
module LRBSpline {
  import opened BSplineEval
  import opened KnotSeq

  /** A mesh element, identified as the source identifies it: by address. */
  type ElementHandle = nat

  // ---------------------------------------------------------------------
  // Lexicographic comparison of sequences
  // ---------------------------------------------------------------------

  /** `lt` is a strict total order. */
  ghost predicate StrictTotal<T(!new)>(lt: (T, T) -> bool)
  {
    (forall x :: !lt(x, x))
    && (forall x, y, z :: lt(x, y) && lt(y, z) ==> lt(x, z))
    && (forall x, y :: x == y || lt(x, y) || lt(y, x))
  }

  function IntLess(x: int, y: int): bool { x < y }

  function RealLess(x: real, y: real): bool { x < y }

  lemma NumberOrdersAreStrictTotal()
    ensures StrictTotal(IntLess) && StrictTotal(RealLess)
  {
  }

  /**
   * Three-way lexicographic comparison: -1, 0 or 1. A proper prefix comes
   * first; otherwise the first differing position decides.
   */
  function CompareSeq<T(!new)>(a: seq<T>, b: seq<T>, lt: (T, T) -> bool): (c: int)
    requires StrictTotal(lt)
    ensures -1 <= c <= 1
    ensures c == 0 <==> a == b
    decreases |a|
  {
    if |a| == 0 then (if |b| == 0 then 0 else -1)
    else if |b| == 0 then 1
    else if lt(a[0], b[0]) then -1
    else if lt(b[0], a[0]) then 1
    else
      var c := CompareSeq(a[1..], b[1..], lt);
      assert c == 0 ==> a == [a[0]] + a[1..] == [b[0]] + b[1..] == b;
      c
  }

  /** Swapping the operands negates the comparison. */
  lemma {:induction false} CompareSeqAntisymmetric<T(!new)>(a: seq<T>, b: seq<T>, lt: (T, T) -> bool)
    requires StrictTotal(lt)
    ensures CompareSeq(b, a, lt) == -CompareSeq(a, b, lt)
    decreases |a|
  {
    if |a| > 0 && |b| > 0 && !lt(a[0], b[0]) && !lt(b[0], a[0]) {
      CompareSeqAntisymmetric(a[1..], b[1..], lt);
    }
  }

  /** "Comes before" is transitive. */
  lemma {:induction false} CompareSeqTransitive<T(!new)>(a: seq<T>, b: seq<T>, c: seq<T>, lt: (T, T) -> bool)
    requires StrictTotal(lt)
    requires CompareSeq(a, b, lt) < 0 && CompareSeq(b, c, lt) < 0
    ensures CompareSeq(a, c, lt) < 0
    decreases |a|
  {
    if |a| > 0 && |b| > 0 && |c| > 0 {
      if !lt(a[0], b[0]) && !lt(b[0], c[0]) {
        assert a[0] == b[0] && b[0] == c[0];
        CompareSeqTransitive(a[1..], b[1..], c[1..], lt);
      }
    }
  }

  // ---------------------------------------------------------------------
  // Serialization as a token stream
  // ---------------------------------------------------------------------

  /** A token of the text stream: a number, or the line break `write` emits. */
  datatype Token = Int(i: int) | Real(x: real) | Newline

  /** A value read from the front of a stream and the tokens left after it. */
  datatype Parsed<T> = Parsed(value: T, rest: seq<Token>)

  /** The persisted fields of a basis function, in stream order. */
  datatype Fields = Fields(coefTimesGamma: seq<real>, gamma: real, kvecU: seq<int>, kvecV: seq<int>)

  function IntTokens(xs: seq<int>): (ts: seq<Token>)
    ensures |ts| == |xs|
  {
    if |xs| == 0 then [] else [Int(xs[0])] + IntTokens(xs[1..])
  }

  function RealTokens(xs: seq<real>): (ts: seq<Token>)
    ensures |ts| == |xs|
  {
    if |xs| == 0 then [] else [Real(xs[0])] + RealTokens(xs[1..])
  }

  /** A vector is written as its length followed by its entries. */
  function IntVector(xs: seq<int>): seq<Token>
  {
    [Int(|xs|)] + IntTokens(xs)
  }

  function RealVector(xs: seq<real>): seq<Token>
  {
    [Int(|xs|)] + RealTokens(xs)
  }

  /** The field order of `write`: coefficient, gamma, a line break, the u and v knot vectors. */
  function Encode(f: Fields): seq<Token>
  {
    RealVector(f.coefTimesGamma) + [Real(f.gamma)] + [Newline] + IntVector(f.kvecU) + IntVector(f.kvecV)
  }

  /** Formatted input skips white space before every number. */
  function SkipSpace(ts: seq<Token>): (r: seq<Token>)
    ensures |r| <= |ts|
    ensures |r| > 0 ==> !r[0].Newline?
  {
    if |ts| > 0 && ts[0].Newline? then SkipSpace(ts[1..]) else ts
  }

  function ReadInt(ts: seq<Token>): (r: Option<Parsed<int>>)
    ensures r.Some? ==> |r.value.rest| < |ts|
  {
    var s := SkipSpace(ts);
    if |s| > 0 && s[0].Int? then Some(Parsed(s[0].i, s[1..])) else None
  }

  function ReadReal(ts: seq<Token>): (r: Option<Parsed<real>>)
    ensures r.Some? ==> |r.value.rest| < |ts|
  {
    var s := SkipSpace(ts);
    if |s| > 0 && s[0].Real? then Some(Parsed(s[0].x, s[1..])) else None
  }

  function ReadInts(n: nat, ts: seq<Token>): (r: Option<Parsed<seq<int>>>)
    ensures r.Some? ==> |r.value.value| == n && |r.value.rest| <= |ts|
    decreases n
  {
    if n == 0 then Some(Parsed([], ts))
    else match ReadInt(ts)
      case None => None
      case Some(p) =>
        match ReadInts(n - 1, p.rest)
        case None => None
        case Some(q) => Some(Parsed([p.value] + q.value, q.rest))
  }

  function ReadReals(n: nat, ts: seq<Token>): (r: Option<Parsed<seq<real>>>)
    ensures r.Some? ==> |r.value.value| == n && |r.value.rest| <= |ts|
    decreases n
  {
    if n == 0 then Some(Parsed([], ts))
    else match ReadReal(ts)
      case None => None
      case Some(p) =>
        match ReadReals(n - 1, p.rest)
        case None => None
        case Some(q) => Some(Parsed([p.value] + q.value, q.rest))
  }

  /** A vector: a non-negative length, then that many entries. */
  function ReadIntVector(ts: seq<Token>): Option<Parsed<seq<int>>>
  {
    match ReadInt(ts)
    case None => None
    case Some(p) => if p.value < 0 then None else ReadInts(p.value, p.rest)
  }

  function ReadRealVector(ts: seq<Token>): Option<Parsed<seq<real>>>
  {
    match ReadInt(ts)
    case None => None
    case Some(p) => if p.value < 0 then None else ReadReals(p.value, p.rest)
  }

  /** The field order of `read`: coefficient, gamma, u knots, v knots. */
  function Decode(ts: seq<Token>): Option<Parsed<Fields>>
  {
    match ReadRealVector(ts)
    case None => None
    case Some(c) =>
      match ReadReal(c.rest)
      case None => None
      case Some(g) =>
        match ReadIntVector(g.rest)
        case None => None
        case Some(u) =>
          match ReadIntVector(u.rest)
          case None => None
          case Some(v) => Some(Parsed(Fields(c.value, g.value, u.value, v.value), v.rest))
  }

  lemma {:induction false} ReadIntsWritten(xs: seq<int>, rest: seq<Token>)
    ensures ReadInts(|xs|, IntTokens(xs) + rest) == Some(Parsed(xs, rest))
    decreases |xs|
  {
    if |xs| > 0 {
      var ts := IntTokens(xs) + rest;
      assert ts == [Int(xs[0])] + (IntTokens(xs[1..]) + rest);
      assert ReadInt(ts) == Some(Parsed(xs[0], ts[1..]));
      ReadIntsWritten(xs[1..], rest);
      assert [xs[0]] + xs[1..] == xs;
    } else {
      assert IntTokens(xs) + rest == rest;
    }
  }

  lemma {:induction false} ReadRealsWritten(xs: seq<real>, rest: seq<Token>)
    ensures ReadReals(|xs|, RealTokens(xs) + rest) == Some(Parsed(xs, rest))
    decreases |xs|
  {
    if |xs| > 0 {
      var ts := RealTokens(xs) + rest;
      assert ts == [Real(xs[0])] + (RealTokens(xs[1..]) + rest);
      assert ReadReal(ts) == Some(Parsed(xs[0], ts[1..]));
      ReadRealsWritten(xs[1..], rest);
      assert [xs[0]] + xs[1..] == xs;
    } else {
      assert RealTokens(xs) + rest == rest;
    }
  }

  lemma ReadIntVectorWritten(xs: seq<int>, rest: seq<Token>)
    ensures ReadIntVector(IntVector(xs) + rest) == Some(Parsed(xs, rest))
  {
    var ts := IntVector(xs) + rest;
    assert ts[1..] == IntTokens(xs) + rest;
    ReadIntsWritten(xs, rest);
  }

  lemma ReadRealVectorWritten(xs: seq<real>, rest: seq<Token>)
    ensures ReadRealVector(RealVector(xs) + rest) == Some(Parsed(xs, rest))
  {
    var ts := RealVector(xs) + rest;
    assert ts[1..] == RealTokens(xs) + rest;
    ReadRealsWritten(xs, rest);
  }

  /**
   * Reading what was written gives back the four fields and stops right
   * after them; the line break is skipped as white space.
   */
  lemma DecodeEncode(f: Fields, rest: seq<Token>)
    ensures Decode(Encode(f) + rest) == Some(Parsed(f, rest))
  {
    var v := IntVector(f.kvecV) + rest;
    var uv := IntVector(f.kvecU) + v;
    var tail := [Newline] + uv;
    var g := [Real(f.gamma)] + tail;
    var ts := Encode(f) + rest;
    assert ts == RealVector(f.coefTimesGamma) + g;
    ReadRealVectorWritten(f.coefTimesGamma, g);
    assert ReadReal(g) == Some(Parsed(f.gamma, tail));
    SkipLineBreak(uv);
    ReadIntVectorWritten(f.kvecU, v);
    ReadIntVectorWritten(f.kvecV, rest);
    DecodeSteps(ts, f, g, tail, v, rest);
  }

  /** A line break in front of a vector is skipped. */
  lemma SkipLineBreak(ts: seq<Token>)
    ensures ReadIntVector([Newline] + ts) == ReadIntVector(ts)
  {
    assert ([Newline] + ts)[1..] == ts;
    assert ReadInt([Newline] + ts) == ReadInt(ts);
  }

  lemma DecodeSteps(ts: seq<Token>, f: Fields, g: seq<Token>, tail: seq<Token>, v: seq<Token>, rest: seq<Token>)
    requires ReadRealVector(ts) == Some(Parsed(f.coefTimesGamma, g))
    requires ReadReal(g) == Some(Parsed(f.gamma, tail))
    requires ReadIntVector(tail) == Some(Parsed(f.kvecU, v))
    requires ReadIntVector(v) == Some(Parsed(f.kvecV, rest))
    ensures Decode(ts) == Some(Parsed(f, rest))
  {
  }

  // ---------------------------------------------------------------------
  // The support set: element handles without repetition
  // ---------------------------------------------------------------------

  predicate NoDuplicates(s: seq<ElementHandle>)
  {
    forall i, j :: 0 <= i < j < |s| ==> s[i] != s[j]
  }

  /** The first position of `el` in `s`. */
  function IndexOf(s: seq<ElementHandle>, el: ElementHandle): (i: nat)
    requires el in s
    ensures i < |s| && s[i] == el
    ensures forall j :: 0 <= j < i ==> s[j] != el
  {
    if s[0] == el then 0 else 1 + IndexOf(s[1..], el)
  }

  /** The support after `addSupport`: `el` appended unless already present. */
  function AddedSupport(s: seq<ElementHandle>, el: ElementHandle): (r: seq<ElementHandle>)
    ensures el in s ==> r == s
    ensures el !in s ==> r == s + [el]
  {
    if el in s then s else s + [el]
  }

  /**
   * The support after `removeSupport`: the last entry moved into the slot
   * of the first occurrence of `el`, then the last slot dropped.
   */
  function RemovedSupport(s: seq<ElementHandle>, el: ElementHandle): (r: seq<ElementHandle>)
    ensures el !in s ==> r == s
    ensures el in s ==> |r| == |s| - 1 && multiset(r) == multiset(s) - multiset{el}
  {
    if el !in s then s
    else
      var i := IndexOf(s, el);
      MovedLastInto(s, i);
      s[i := s[|s| - 1]][..|s| - 1]
  }

  lemma MovedLastInto(s: seq<ElementHandle>, i: nat)
    requires i < |s|
    ensures multiset(s[i := s[|s| - 1]][..|s| - 1]) == multiset(s) - multiset{s[i]}
  {
    var last := |s| - 1;
    if i == last {
      assert s[i := s[last]] == s;
      assert s == s[..last] + [s[last]];
    } else {
      var t := s[i := s[last]];
      assert s == s[..i] + [s[i]] + s[i + 1..last] + [s[last]];
      assert t[..last] == s[..i] + [s[last]] + s[i + 1..last];
    }
  }

  /** Removal keeps every other entry in place, except the last, which moves into the gap. */
  lemma RemovedSupportPositions(s: seq<ElementHandle>, el: ElementHandle)
    requires el in s
    ensures forall j :: 0 <= j < |s| - 1 ==>
      RemovedSupport(s, el)[j] == (if j == IndexOf(s, el) then s[|s| - 1] else s[j])
  {
  }

  /** Adding keeps the support free of repetitions, and adding twice is adding once. */
  lemma AddedSupportKeepsSet(s: seq<ElementHandle>, el: ElementHandle)
    requires NoDuplicates(s)
    ensures NoDuplicates(AddedSupport(s, el)) && el in AddedSupport(s, el)
    ensures forall x :: x in AddedSupport(s, el) <==> x in s || x == el
    ensures AddedSupport(AddedSupport(s, el), el) == AddedSupport(s, el)
  {
  }

  /**
   * Removal from a support without repetitions drops exactly `el`: the
   * result is free of repetitions and holds every other element.
   */
  lemma RemovedSupportKeepsSet(s: seq<ElementHandle>, el: ElementHandle)
    requires NoDuplicates(s)
    ensures NoDuplicates(RemovedSupport(s, el))
    ensures forall x :: x in RemovedSupport(s, el) <==> x in s && x != el
  {
    if el in s {
      var r := RemovedSupport(s, el);
      var i := IndexOf(s, el);
      forall x
        ensures x in r <==> x in s && x != el
      {
        assert x in r <==> x in multiset(r);
        assert multiset(s)[el] == 1 by {
          NoDuplicatesCount(s, i);
        }
      }
      assert forall p, q :: 0 <= p < q < |r| ==> r[p] != r[q] by {
        forall p, q | 0 <= p < q < |r|
          ensures r[p] != r[q]
        {
          var pp := if p == i then |s| - 1 else p;
          var qq := if q == i then |s| - 1 else q;
          assert r[p] == s[pp] && r[q] == s[qq];
        }
      }
    }
  }

  lemma NoDuplicatesCount(s: seq<ElementHandle>, i: nat)
    requires NoDuplicates(s) && i < |s|
    ensures multiset(s)[s[i]] == 1
  {
    assert s == s[..i] + [s[i]] + s[i + 1..];
    assert s[i] !in s[..i] && s[i] !in s[i + 1..];
    assert multiset(s[..i])[s[i]] == 0 && multiset(s[i + 1..])[s[i]] == 0;
  }

  /** Removing an element just added gives back the support before the addition. */
  lemma RemoveUndoesAdd(s: seq<ElementHandle>, el: ElementHandle)
    requires el !in s
    ensures RemovedSupport(AddedSupport(s, el), el) == s
  {
    var t := s + [el];
    assert IndexOf(t, el) == |s| by {
      assert t[|s|] == el;
      assert forall j :: 0 <= j < |s| ==> t[j] != el;
    }
    assert t[|s| := t[|s|]] == t;
    assert t[..|s|] == s;
  }

  // ---------------------------------------------------------------------
  // The basis function
  // ---------------------------------------------------------------------

  class LRBSpline2D {
    var coefTimesGamma: seq<real>
    var gamma: real
    var kvecU: seq<int>
    var kvecV: seq<int>
    var support: seq<ElementHandle>

    constructor (coefTimesGamma: seq<real>, gamma: real, kvecU: seq<int>, kvecV: seq<int>)
      ensures this.coefTimesGamma == coefTimesGamma && this.gamma == gamma
      ensures this.kvecU == kvecU && this.kvecV == kvecV && support == []
    {
      this.coefTimesGamma := coefTimesGamma;
      this.gamma := gamma;
      this.kvecU := kvecU;
      this.kvecV := kvecV;
      support := [];
    }

    /** The local knot index vectors have `degree + 2` entries that index the knot tables. */
    predicate Indexes(kvalsU: seq<real>, kvalsV: seq<real>)
      reads this
    {
      |kvecU| >= 2 && |kvecV| >= 2 && ValidIndices(kvecU, kvalsU) && ValidIndices(kvecV, kvalsV)
    }

    /**
     * Value or partial derivative at `(u, v)`: the product of the u factor
     * and the v factor. It is 0 outside the support rectangle when the
     * local knots do not decrease.
     */
    function EvalBasisFunction(u: real, v: real, kvalsU: seq<real>, kvalsV: seq<real>,
                               uDeriv: int, vDeriv: int, uAtEnd: bool, vAtEnd: bool): (r: real)
      reads this
      requires Indexes(kvalsU, kvalsV)
      ensures r == UnivariateSpline(|kvecU| - 2, u, kvecU, kvalsU, uDeriv, uAtEnd)
                 * UnivariateSpline(|kvecV| - 2, v, kvecV, kvalsV, vDeriv, vAtEnd)
      ensures NonDecreasing(LocalKnots(kvecU, kvalsU)) && NonDecreasing(LocalKnots(kvecV, kvalsV))
              && (!InSupport(LocalKnots(kvecU, kvalsU), u, uAtEnd) || !InSupport(LocalKnots(kvecV, kvalsV), v, vAtEnd))
              ==> r == 0.0
    {
      UnivariateSpline(|kvecU| - 2, u, kvecU, kvalsU, uDeriv, uAtEnd)
      * UnivariateSpline(|kvecV| - 2, v, kvecV, kvalsV, vDeriv, vAtEnd)
    }

    /**
     * `operator<`: the u knot vectors decide, then the v knot vectors, then
     * the scaled coefficient, and last `gamma`. A function is never ordered
     * before one whose u knot vector comes first, nor, on equal u knot
     * vectors, before one whose v knot vector comes first.
     */
    predicate Less(rhs: LRBSpline2D)
      reads this, rhs
      ensures (NumberOrdersAreStrictTotal();
               Less(rhs) ==> CompareSeq(kvecU, rhs.kvecU, IntLess) <= 0
                             && (kvecU == rhs.kvecU ==> CompareSeq(kvecV, rhs.kvecV, IntLess) <= 0))
    {
      NumberOrdersAreStrictTotal();
      var c1 := CompareSeq(kvecU, rhs.kvecU, IntLess);
      if c1 != 0 then c1 < 0
      else
        var c2 := CompareSeq(kvecV, rhs.kvecV, IntLess);
        if c2 != 0 then c2 < 0
        else
          var c3 := CompareSeq(coefTimesGamma, rhs.coefTimesGamma, RealLess);
          if c3 != 0 then c3 < 0 else gamma < rhs.gamma
    }

    /** `operator==`: the two knot vectors agree; coefficient and `gamma` are not looked at. */
    predicate Equals(rhs: LRBSpline2D)
      reads this, rhs
      ensures Equals(rhs) <==> kvecU == rhs.kvecU && kvecV == rhs.kvecV
    {
      NumberOrdersAreStrictTotal();
      CompareSeq(kvecU, rhs.kvecU, IntLess) == 0 && CompareSeq(kvecV, rhs.kvecV, IntLess) == 0
    }

    /** The fields `write` persists. */
    function Persisted(): Fields
      reads this
    {
      Fields(coefTimesGamma, gamma, kvecU, kvecV)
    }

    /** `write`: the persisted fields as tokens; reading them back gives the fields. */
    function Write(): (ts: seq<Token>)
      reads this
      ensures Decode(ts) == Some(Parsed(Persisted(), []))
    {
      var ts := Encode(Persisted());
      DecodeEncode(Persisted(), []);
      assert ts + [] == ts;
      ts
    }

    /**
     * `read`: the fields in `write` order, each assigned as soon as it has
     * been read. On success the four fields are those `Decode` finds; the
     * support is never touched.
     */
    method Read(ts: seq<Token>) returns (ok: bool, rest: seq<Token>)
      modifies this
      ensures ok <==> Decode(ts).Some?
      ensures ok ==> Persisted() == Decode(ts).value.value && rest == Decode(ts).value.rest
      ensures support == old(support)
    {
      rest := ts;
      var c := ReadRealVector(rest);
      if c.None? { return false, rest; }
      coefTimesGamma, rest := c.value.value, c.value.rest;
      var g := ReadReal(rest);
      if g.None? { return false, rest; }
      gamma, rest := g.value.value, g.value.rest;
      var u := ReadIntVector(rest);
      if u.None? { return false, rest; }
      kvecU, rest := u.value.value, u.value.rest;
      var v := ReadIntVector(rest);
      if v.None? { return false, rest; }
      kvecV, rest := v.value.value, v.value.rest;
      return true, rest;
    }

    /** `addSupport`: appends `el` unless it is present; reports whether it appended. */
    method AddSupport(el: ElementHandle) returns (added: bool)
      modifies this`support
      ensures added <==> el !in old(support)
      ensures support == AddedSupport(old(support), el)
    {
      for i := 0 to |support|
        invariant el !in support[..i]
      {
        if el == support[i] {
          return false;
        }
      }
      assert support[..|support|] == support;
      support := support + [el];
      return true;
    }

    /** `removeSupport`: moves the last entry into the slot of `el` and drops the last slot. */
    method RemoveSupport(el: ElementHandle)
      modifies this`support
      ensures support == RemovedSupport(old(support), el)
    {
      for i := 0 to |support|
        invariant el !in support[..i]
      {
        if el == support[i] {
          assert IndexOf(support, el) == i;
          support := support[i := support[|support| - 1]];
          support := support[..|support| - 1];
          return;
        }
      }
      assert support[..|support|] == support;
    }
  }

  // ---------------------------------------------------------------------
  // Properties of the order and of equality
  // ---------------------------------------------------------------------

  /** No basis function comes before itself. */
  lemma LessIrreflexive(f: LRBSpline2D)
    ensures !f.Less(f)
  {
    NumberOrdersAreStrictTotal();
  }

  /** The order is asymmetric. */
  lemma LessAsymmetric(f: LRBSpline2D, g: LRBSpline2D)
    requires f.Less(g)
    ensures !g.Less(f)
  {
    NumberOrdersAreStrictTotal();
    CompareSeqAntisymmetric(f.kvecU, g.kvecU, IntLess);
    CompareSeqAntisymmetric(f.kvecV, g.kvecV, IntLess);
    CompareSeqAntisymmetric(f.coefTimesGamma, g.coefTimesGamma, RealLess);
  }

  /** The order is transitive. */
  lemma LessTransitive(f: LRBSpline2D, g: LRBSpline2D, h: LRBSpline2D)
    requires f.Less(g) && g.Less(h)
    ensures f.Less(h)
  {
    NumberOrdersAreStrictTotal();
    var u1, u2 := CompareSeq(f.kvecU, g.kvecU, IntLess), CompareSeq(g.kvecU, h.kvecU, IntLess);
    var v1, v2 := CompareSeq(f.kvecV, g.kvecV, IntLess), CompareSeq(g.kvecV, h.kvecV, IntLess);
    var c1, c2 := CompareSeq(f.coefTimesGamma, g.coefTimesGamma, RealLess), CompareSeq(g.coefTimesGamma, h.coefTimesGamma, RealLess);
    if u1 < 0 && u2 < 0 {
      CompareSeqTransitive(f.kvecU, g.kvecU, h.kvecU, IntLess);
    } else if u1 == 0 && u2 == 0 {
      if v1 < 0 && v2 < 0 {
        CompareSeqTransitive(f.kvecV, g.kvecV, h.kvecV, IntLess);
      } else if v1 == 0 && v2 == 0 {
        if c1 < 0 && c2 < 0 {
          CompareSeqTransitive(f.coefTimesGamma, g.coefTimesGamma, h.coefTimesGamma, RealLess);
        }
      }
    }
  }

  /**
   * The order is total on the persisted fields: two basis functions that
   * neither precedes agree on all four of them.
   */
  lemma LessTotal(f: LRBSpline2D, g: LRBSpline2D)
    requires !f.Less(g) && !g.Less(f)
    ensures f.Persisted() == g.Persisted()
  {
    NumberOrdersAreStrictTotal();
    CompareSeqAntisymmetric(f.kvecU, g.kvecU, IntLess);
    CompareSeqAntisymmetric(f.kvecV, g.kvecV, IntLess);
    CompareSeqAntisymmetric(f.coefTimesGamma, g.coefTimesGamma, RealLess);
  }

  /**
   * Equality is coarser than the order: basis functions on the same knot
   * vectors are equal even when their coefficients differ, although one of
   * them then comes before the other.
   */
  lemma EqualsIgnoresCoefficient(f: LRBSpline2D, g: LRBSpline2D)
    requires f.kvecU == g.kvecU && f.kvecV == g.kvecV
    requires f.coefTimesGamma != g.coefTimesGamma
    ensures f.Equals(g)
    ensures f.Less(g) || g.Less(f)
  {
    NumberOrdersAreStrictTotal();
    CompareSeqAntisymmetric(f.coefTimesGamma, g.coefTimesGamma, RealLess);
  }

  /** Functions the order cannot tell apart are equal. */
  lemma EquivalentAreEqual(f: LRBSpline2D, g: LRBSpline2D)
    requires !f.Less(g) && !g.Less(f)
    ensures f.Equals(g)
  {
    LessTotal(f, g);
  }

  /** Outside derivatives, a basis function over non-decreasing knots is never negative. */
  lemma EvalNonnegative(f: LRBSpline2D, u: real, v: real, kvalsU: seq<real>, kvalsV: seq<real>,
                        uAtEnd: bool, vAtEnd: bool)
    requires f.Indexes(kvalsU, kvalsV)
    requires NonDecreasing(LocalKnots(f.kvecU, kvalsU)) && NonDecreasing(LocalKnots(f.kvecV, kvalsV))
    ensures f.EvalBasisFunction(u, v, kvalsU, kvalsV, 0, 0, uAtEnd, vAtEnd) >= 0.0
  {
    ValueNonnegative(|f.kvecU| - 2, u, LocalKnots(f.kvecU, kvalsU), uAtEnd);
    ValueNonnegative(|f.kvecV| - 2, v, LocalKnots(f.kvecV, kvalsV), vAtEnd);
    ProductNonnegative(UnivariateSpline(|f.kvecU| - 2, u, f.kvecU, kvalsU, 0, uAtEnd),
                       UnivariateSpline(|f.kvecV| - 2, v, f.kvecV, kvalsV, 0, vAtEnd));
  }

  /**
   * The biquadratic on uniform knots 0, 1, 2, 3 in both directions takes
   * 9/16 at the centre of its support.
   */
  lemma BiquadraticCentreValue(f: LRBSpline2D)
    requires f.kvecU == [0, 1, 2, 3] && f.kvecV == [0, 1, 2, 3]
    ensures f.EvalBasisFunction(1.5, 1.5, [0.0, 1.0, 2.0, 3.0], [0.0, 1.0, 2.0, 3.0], 0, 0, false, false) == 0.5625
  {
    var kvals := [0.0, 1.0, 2.0, 3.0];
    assert LocalKnots([0, 1, 2, 3], kvals) == kvals;
    QuadraticMidpointValue();
  }
}
