# B-spline basis evaluation and sub-curve extraction

This project models two parts of the GoTools spline library in Dafny:

- **One locally refined bivariate B-spline basis function** (`LRBSpline2D`).
  - Its value comes from an iterative Cox–de Boor triangle in a fixed scratch
    buffer (`B`). Its derivatives come from a degree-lowering recursion (`dB`).
    `compute_univariate_spline` chooses between the two.
  - Evaluating the basis function multiplies a u factor by a v factor.
  - `operator<` is a lexicographic order over the u knot vector, the v knot
    vector, the scaled coefficient and `gamma`. `operator==` compares the two
    knot vectors only.
  - `write` and `read` persist the fields in a fixed order.
  - `addSupport` and `removeSupport` maintain the list of mesh elements that
    the support covers.
- **Extraction from a B-spline curve** (`SplineCurve`).
  - `subCurve` takes the part between two parameters. When the end parameter
    lies past the curve's end, the curve is treated as periodic and doubled
    first; the seam may be crossed at most once.
  - `split` cuts the curve at several parameters, and a second overload cuts
    it at one parameter.
  - `appendSelfPeriodic` doubles a periodic curve.

Modules:

- `KnotSeq` (`knot_seq.dfy`) holds the standard-library algorithms the curve
  code uses on knot vectors: `std::set_difference`, `std::find`, sorting, and
  merging inserted knots into sorted knots. It also holds their lemmas.
- `BSplineEval` (`bspline_eval.dfy`) holds the univariate evaluation.
  - The method `B` keeps the source's scratch array and loops.
  - `B` is proved equal to `BValue`, the Cox–de Boor recurrence `Tri`
    started from the located interval.
  - The lemmas then prove what the recurrence guarantees: the value is
    nonnegative, it is 0 outside the support, and concrete values for a
    uniform quadratic.
- `LRBSpline` (`lr_bspline.dfy`) holds the basis function as a class whose
  methods update its fields.
  - The order is proved to be a strict total order.
  - Reading back what `write` produced gives the same fields.
  - The support list keeps its no-repeats invariant.
- `SubCurve` (`sub_curve.dfy`) holds the curve as a class with the dimension,
  order, rational flag, knot vector, coefficients and homogeneous (rational)
  coefficients.
  - A new curve is modelled as the arguments passed to the spline-curve
    constructor (`CurveArgs`).
  - The lemmas show that every extracted piece is a well-formed curve of the
    same order and dimension.
  - Each piece's parameter interval starts and ends at the requested
    parameters, and the pieces of `split` meet one another.

Two operations the curve code calls belong to other parts of the library. The
model takes them as function parameters, and a contract predicate states what
it relies on:

- **Periodicity analysis** (`Analyzer`). A non-negative result `cont` means
  the knot vector is knot-periodic (`KnotPeriodic`): it has at least
  `cont + 1` coefficients, and its last `order + cont + 1` knots, which start
  at index `numCoefs - cont - 1`, are its first `order + cont + 1` knots moved
  by one period.
- **Coefficient refinement of knot insertion** (`Refiner`). It returns one
  coefficient more for every inserted knot.

The knot vector after insertion is the sorted merge of the old knots and the
inserted ones.

Over knots 0, 1, 2, 3 the uniform quadratic basis function takes 3/4 at its
midpoint `t = 1.5`, which is what the evaluation code computes
(`QuadraticMidpointValue`).

## Model

| member | source | states |
|---|---|---|
| BSplineEval.B | lrsplines2D/src/LRBSpline2D.C:33-72 | the scratch-buffer evaluation returns exactly the Cox–de Boor value `BValue` of the local knots, 0 outside the support (corrected at the last knot, see Findings) |
| BSplineEval.LocalKnots | lrsplines2D/src/LRBSpline2D.C:61-64 | the local knots are the knot values the knot indices refer to, in order |
| BSplineEval.FindStart | lrsplines2D/src/LRBSpline2D.C:47-52 | the start-index loop ends at an index at most `deg`, the index of the interval holding `t` |
| BSplineEval.StartBuffer | lrsplines2D/src/LRBSpline2D.C:39-53 | the buffer of `MaxDegree + 2` cells holds the degree-0 row: 1 at the start index, 0 in the other cells up to `deg` |
| BSplineEval.CoxDeBoorPass | lrsplines2D/src/LRBSpline2D.C:57-69 | one pass of the inner loop turns the degree `d - 1` row into the degree `d` row of the recurrence and leaves the cells beyond `deg` alone |
| BSplineEval.TriVanishesAll | lrsplines2D/src/LRBSpline2D.C:58-60 | cells outside `[start - d, start]` are 0 at degree `d`, which is why the loop may skip them |
| BSplineEval.StartIndexLocates | lrsplines2D/src/LRBSpline2D.C:48-50 | the search finds the interval holding `t`: half-open on the right normally, closed with `at_end` |
| BSplineEval.AtEndUsesLastInterval | lrsplines2D/src/LRBSpline2D.C:49 | with `at_end`, `t` at the last knot lies in the last interval |
| BSplineEval.SearchAsWritten | lrsplines2D/src/LRBSpline2D.C:49-50 | the search as written, with `None` for a read past the local knots; a found index has a next knot that stops it |
| BSplineEval.SearchAsWrittenInSupport | lrsplines2D/src/LRBSpline2D.C:47-52 | inside the support the search as written stays within the local knots and finds the model's start index |
| BSplineEval.SearchOverrunsAtLastKnot | lrsplines2D/src/LRBSpline2D.C:42-50 | without `at_end`, `t` at the last local knot passes the support guard, but the `<=` search runs past the local knots |
| BSplineEval.SearchOverrunsExample | lrsplines2D/src/LRBSpline2D.C:42-50 | degree 0, knots 0 and 1, `t = 1` passes the guard and overruns |
| BSplineEval.LeftWeight | lrsplines2D/src/LRBSpline2D.C:65 | the left weight is 0 over a zero-length span |
| BSplineEval.RightWeight | lrsplines2D/src/LRBSpline2D.C:66 | the right weight is 0 over a zero-length span |
| BSplineEval.ValueVanishesOutsideSupport | lrsplines2D/src/LRBSpline2D.C:41-42 | the value is 0 outside the support |
| BSplineEval.ValueNonnegative | lrsplines2D/src/LRBSpline2D.C:33-72 | over non-decreasing knots the value is never negative |
| BSplineEval.TriNonnegative | lrsplines2D/src/LRBSpline2D.C:57-69 | every cell of the triangle is nonnegative when `t` lies in the start interval |
| BSplineEval.QuadraticMidpointValue | lrsplines2D/src/LRBSpline2D.C:33-72 | the uniform quadratic takes 3/4 at its midpoint |
| BSplineEval.DerivativeVanishesOutsideSupport | lrsplines2D/src/LRBSpline2D.C:101-126 | every derivative is 0 outside the support of non-decreasing knots |
| BSplineEval.DB | lrsplines2D/src/LRBSpline2D.C:101-126 | the derivative by the degree-lowering recursion, dropping a term whose span is 0; a derivative of order above the degree is 0 |
| BSplineEval.QuadraticDerivatives | lrsplines2D/src/LRBSpline2D.C:101-126 | first and second derivatives of the uniform quadratic at 0.5 and 1.5 (0.5, 0 and 1) |
| BSplineEval.UnivariateSpline | lrsplines2D/src/LRBSpline2D.C:129-140 | a positive derivative order gives the derivative, otherwise the value; over non-decreasing local knots, 0 outside the support |
| LRBSpline.CompareSeq | lrsplines2D/src/LRBSpline2D.C:148-156 | the three-way comparison is -1, 0 or 1, and 0 exactly when the sequences are equal |
| LRBSpline.CompareSeqAntisymmetric | lrsplines2D/src/LRBSpline2D.C:148-156 | swapping the operands negates the comparison |
| LRBSpline.CompareSeqTransitive | lrsplines2D/src/LRBSpline2D.C:148-156 | the comparison is transitive |
| LRBSpline.LRBSpline2D.EvalBasisFunction | lrsplines2D/src/LRBSpline2D.C:200-213 | the product of the u and v factors; over non-decreasing local knots in both directions, 0 outside the support rectangle |
| LRBSpline.EvalNonnegative | lrsplines2D/src/LRBSpline2D.C:200-213 | the value (no derivative) is never negative over non-decreasing knots |
| LRBSpline.BiquadraticCentreValue | lrsplines2D/src/LRBSpline2D.C:200-213 | the biquadratic over uniform knots takes 9/16 at its centre |
| LRBSpline.LRBSpline2D.Less | lrsplines2D/src/LRBSpline2D.C:145-159 | `operator<` compares the u knot vectors first and the v knot vectors next: a function is never before one with a smaller u vector, nor, on equal u vectors, before one with a smaller v vector |
| LRBSpline.LessIrreflexive | lrsplines2D/src/LRBSpline2D.C:145-159 | `operator<` is irreflexive |
| LRBSpline.LessAsymmetric | lrsplines2D/src/LRBSpline2D.C:145-159 | `operator<` is asymmetric |
| LRBSpline.LessTransitive | lrsplines2D/src/LRBSpline2D.C:145-159 | `operator<` is transitive |
| LRBSpline.LessTotal | lrsplines2D/src/LRBSpline2D.C:145-159 | two functions neither of which is less agree in all four compared fields |
| LRBSpline.LRBSpline2D.Equals | lrsplines2D/src/LRBSpline2D.C:162-176 | equal exactly when both knot vectors agree |
| LRBSpline.EqualsIgnoresCoefficient | lrsplines2D/src/LRBSpline2D.C:145-176 | functions that differ only in the coefficient are equal yet ordered, so `==` is coarser than the order |
| LRBSpline.EquivalentAreEqual | lrsplines2D/src/LRBSpline2D.C:145-176 | functions the order does not separate are equal |
| LRBSpline.LRBSpline2D.Write | lrsplines2D/src/LRBSpline2D.C:179-187 | reading back what `write` produced gives the persisted fields and nothing left over |
| LRBSpline.DecodeEncode | lrsplines2D/src/LRBSpline2D.C:179-197 | reading the fields in `write` order undoes writing them, whatever follows |
| LRBSpline.LRBSpline2D.Read | lrsplines2D/src/LRBSpline2D.C:190-197 | succeeds exactly when the stream holds the four fields in order, which it then stores; the support is untouched |
| LRBSpline.AddedSupport | lrsplines2D/src/LRBSpline2D.C:224-234 | an element already present leaves the list as is; otherwise it is appended |
| LRBSpline.LRBSpline2D.AddSupport | lrsplines2D/src/LRBSpline2D.C:224-234 | reports whether the element was absent, and the new list is `AddedSupport` of the old |
| LRBSpline.AddedSupportKeepsSet | lrsplines2D/src/LRBSpline2D.C:224-234 | adding keeps the list free of repeats, adds exactly the element, and is idempotent |
| LRBSpline.RemovedSupport | lrsplines2D/src/LRBSpline2D.C:237-248 | an absent element leaves the list as is; otherwise the list is one shorter and lacks one copy of the element |
| LRBSpline.RemovedSupportPositions | lrsplines2D/src/LRBSpline2D.C:240-245 | the last entry moves into the removed element's slot and the other positions keep their entries |
| LRBSpline.LRBSpline2D.RemoveSupport | lrsplines2D/src/LRBSpline2D.C:237-248 | the new list is `RemovedSupport` of the old |
| LRBSpline.RemovedSupportKeepsSet | lrsplines2D/src/LRBSpline2D.C:237-248 | on a list without repeats, removal drops exactly the element and keeps the list free of repeats |
| LRBSpline.RemoveUndoesAdd | lrsplines2D/src/LRBSpline2D.C:224-248 | removing a just-added element restores the list |
| KnotSeq.Difference | gotools-core/src/geometry/GSCsubCurve.C:78-80 | `std::set_difference` keeps only entries of its first range |
| KnotSeq.DifferenceCounts | gotools-core/src/geometry/GSCsubCurve.C:78-80 | on sorted ranges the difference is the multiset difference |
| KnotSeq.DifferenceSorted | gotools-core/src/geometry/GSCsubCurve.C:78-80 | the difference of a sorted range is sorted |
| KnotSeq.Merge | gotools-core/src/geometry/GSCsubCurve.C:84 | the knots after insertion hold the old and the inserted knots, no more and no fewer |
| KnotSeq.MergeSorted | gotools-core/src/geometry/GSCsubCurve.C:84 | inserting sorted knots into sorted knots keeps them sorted |
| KnotSeq.InsertionReachesMultiplicity | gotools-core/src/geometry/GSCsubCurve.C:82-84 | inserting the difference gives every wanted knot at least its wanted multiplicity |
| KnotSeq.MergeKeepsPrefix | gotools-core/src/geometry/GSCsubCurve.C:163-164 | knots below every inserted knot keep their positions at the front |
| KnotSeq.MergeKeepsAt | gotools-core/src/geometry/GSCsubCurve.C:163-164 | a knot above every inserted knot moves back by exactly the number inserted |
| KnotSeq.Find | gotools-core/src/geometry/GSCsubCurve.C:89-91 | `std::find`: the first index from the start position holding the value, or the end |
| KnotSeq.RunAtFirst | gotools-core/src/geometry/GSCsubCurve.C:88-95 | in sorted knots holding a value `m` times, the `m` copies follow its first occurrence |
| KnotSeq.FindPastRun | gotools-core/src/geometry/GSCsubCurve.C:93-95 | searching past the run of `from` finds the first `to` of the whole vector |
| KnotSeq.Sort | gotools-core/src/geometry/GSCsubCurve.C:141-142 | the sorted parameters are sorted and a permutation of the input |
| KnotSeq.SortDistinct | gotools-core/src/geometry/GSCsubCurve.C:141-142 | distinct parameters sort into a strictly increasing sequence |
| KnotSeq.Repeat | gotools-core/src/geometry/GSCsubCurve.C:75-76 | `k` copies of a parameter |
| KnotSeq.RepeatEach | gotools-core/src/geometry/GSCsubCurve.C:154-156 | every split parameter `kk` times over has `|param| * kk` entries |
| KnotSeq.RepeatEachCount | gotools-core/src/geometry/GSCsubCurve.C:154-156 | every split parameter occurs at least `kk` times in the wanted knots |
| KnotSeq.RepeatEachSorted | gotools-core/src/geometry/GSCsubCurve.C:154-156 | repeating sorted parameters gives sorted knots drawn from the parameters |
| SubCurve.SplineCurve.SubCurve | gotools-core/src/geometry/GSCsubCurve.C:38-111 | each error case exactly as the checks order them; success inside the curve; a result that is a well-formed curve of the same order, dimension and kind running from `from` to `to`; on the non-periodic path that result is exactly `Extract` of a copy of the curve refined by the missing end knots |
| SubCurve.SplineCurve.DoubledCopy | gotools-core/src/geometry/GSCsubCurve.C:57-59 | the copy is doubled exactly when the analysis succeeds; it is then valid, starts where the curve starts and is twice as long |
| SubCurve.SplineCurve.Refined | gotools-core/src/geometry/GSCsubCurve.C:64-108 | after the end parameters get multiplicity `k`, the constructed sub-curve is well formed, runs from `from` to `to`, and is `Extract` of the copy refined by the end knots the curve lacks (`Inserted`) |
| SubCurve.EndKnots | gotools-core/src/geometry/GSCsubCurve.C:74-76 | the wanted knots are `k` copies of `from` then `k` copies of `to` |
| SubCurve.EndsReachOrder | gotools-core/src/geometry/GSCsubCurve.C:78-84 | after insertion both end parameters have multiplicity at least `k` in sorted knots |
| SubCurve.Extract | gotools-core/src/geometry/GSCsubCurve.C:86-108 | a well-formed curve from `from` to `to`, built from the knots and coefficients of the refined curve from the first `from` (index `b`) on; its `(e - b) + 1 - k` coefficients end at the first `to`, every earlier knot being smaller than `to` |
| SubCurve.ExtractBounds | gotools-core/src/geometry/GSCsubCurve.C:88-95 | the first `from` is followed by its `k` copies; the search from `b + k` finds the first `to`, followed by its own `k` copies |
| SubCurve.Piece | gotools-core/src/geometry/GSCsubCurve.C:99-108 | the constructor reads `n + k` knots from index `start` and `n` coefficients from offset `EffDim * start` (`(dim + 1) * start` of the homogeneous array when rational, `dim * start` otherwise) |
| SubCurve.PieceBetween | gotools-core/src/geometry/GSCsubCurve.C:99-108 | at least `k` coefficients from index `start` make a well-formed curve from knot `start + k - 1` to knot `start + n` |
| SubCurve.SplineCurve.Active | gotools-core/src/geometry/GSCsubCurve.C:99-104 | the coefficients a new curve is built from have `EffDim * n` entries |
| SubCurve.SplineCurve.Split | gotools-core/src/geometry/GSCsubCurve.C:128-211 | returns the parameters sorted and permuted, and `|param| + 1` well-formed pieces; piece `i` runs from the i-th to the (i+1)-th of start, sorted parameters, end, and is the slice of the refined copy (`Inserted` with every parameter `order` times) between cut indices `i` and `i + 1` (`SplitInto`) |
| SubCurve.SplineCurve.SplitAt | gotools-core/src/geometry/GSCsubCurve.C:114-126 | two well-formed pieces of the same order, from the start to `param` and from `param` to the end; they are the two slices of the copy refined by `order` copies of `param`, cut at its first copy |
| SubCurve.SortedParams | gotools-core/src/geometry/GSCsubCurve.C:141-142 | the split parameters come out strictly increasing, a permutation of the input, still inside the curve |
| SubCurve.RepeatedParams | gotools-core/src/geometry/GSCsubCurve.C:153-156 | the nested loops build every parameter `kk` times over, in order |
| SubCurve.SplitKnots | gotools-core/src/geometry/GSCsubCurve.C:158-164 | after insertion the knots are sorted, the start and end parameters are unchanged, and every split parameter has multiplicity at least `kk` |
| SubCurve.RefinedPieces | gotools-core/src/geometry/GSCsubCurve.C:166-208 | the pieces of the refined curve run between start, split parameters and end of the unrefined knots, and piece `i` is the slice between cut indices `i` and `i + 1` of the refined curve |
| SubCurve.SplitPieces | gotools-core/src/geometry/GSCsubCurve.C:166-210 | the pieces between consecutive bounds, each a well-formed curve, and each the slice of the curve from the first copy of the previous split parameter (index 0 for the first) to the first copy of the next (numCoefs for the last) |
| SubCurve.InnerPieces | gotools-core/src/geometry/GSCsubCurve.C:171-192 | the loop's pieces, one per split parameter, piece `i` the slice between cut indices `i` and `i + 1`, and a last start index equal to the first copy of the last split parameter and leaving room for the final piece |
| SubCurve.NextPiece | gotools-core/src/geometry/GSCsubCurve.C:173-191 | one loop iteration: the next start index is the first copy of the next split parameter, at least `kk` past the previous one, and the piece is the slice of the curve between the two |
| SubCurve.NextCut | gotools-core/src/geometry/GSCsubCurve.C:173-174 | the search from `start + kk` finds the first copy of the next split parameter in the whole knot vector, followed by its `kk` copies |
| SubCurve.CutPiece | gotools-core/src/geometry/GSCsubCurve.C:178-188 | the constructor arguments between two cut indices are the slice `Piece(start, next - start)` and make a well-formed curve between their knots |
| SubCurve.LastCut | gotools-core/src/geometry/GSCsubCurve.C:194-206 | after the last split parameter at least `kk` coefficients remain for the last piece |
| SubCurve.Inserted | gotools-core/src/geometry/GSCsubCurve.C:83-84 | the curve after `insertKnot` of the given knots: knots merged with them, the count grown by their number, coefficients refined, still well shaped |
| SubCurve.InsertedSized | gotools-core/src/geometry/GSCsubCurve.C:163-164 | refining both coefficient arrays by `m` added knots keeps `effdim * (n + m)` entries for `n + m + order` knots |
| SubCurve.InsertedWhole | gotools-core/src/geometry/GSCsubCurve.C:163-164 | a curve whose knots and coefficients are the merged and refined ones of another is that curve's `Inserted` |
| SubCurve.SplineCurve.InsertedCopy | gotools-core/src/geometry/GSCsubCurve.C:71-84 | a fresh copy with the given knots inserted, equal as a value to `Inserted` of the curve |
| SubCurve.NextSlice | gotools-core/src/geometry/GSCsubCurve.C:171-191 | a piece cut from cut index `i` to the first copy of split parameter `i` is slice `i`, and that copy is cut index `i + 1` |
| SubCurve.SlicedSnoc | gotools-core/src/geometry/GSCsubCurve.C:171-192 | appending slice `n` to the first `n` slices gives the first `n + 1` |
| SubCurve.SlicedLast | gotools-core/src/geometry/GSCsubCurve.C:194-206 | appending the last slice to the inner ones gives all `|sp| + 1` slices |
| SubCurve.SlicedPartition | gotools-core/src/geometry/GSCsubCurve.C:171-206 | the slices of a splittable curve are well formed and run between consecutive bounds |
| SubCurve.SliceBetween | gotools-core/src/geometry/GSCsubCurve.C:171-206 | slice `i` is well formed and runs from bound `i` to bound `i + 1` |
| SubCurve.CutStartKnot | gotools-core/src/geometry/GSCsubCurve.C:178-188 | the knot `order - 1` past cut index `i` is bound `i` |
| SubCurve.CutEndKnot | gotools-core/src/geometry/GSCsubCurve.C:178-206 | the knot at the end of slice `i` is bound `i + 1` |
| SubCurve.SplineCurve.InsertKnot | gotools-core/src/geometry/GSCsubCurve.C:163-164 | the knots become the merge of old and inserted knots, both coefficient arrays are refined, and the array sizes stay consistent |
| SubCurve.SplineCurve.AppendSelfPeriodic | gotools-core/src/geometry/GSCsubCurve.C:213-252 | fails, changing nothing, when the analysis is negative; otherwise the knots get one shifted period appended and both coefficient arrays their repeat; the curve stays valid, starts where it did and ends one period later |
| SubCurve.SplineCurve.AppendPeriod | gotools-core/src/geometry/GSCsubCurve.C:232-251 | on knot-periodic knots, the new arrays as above, with the same validity and interval facts |
| SubCurve.DoubledArrays | gotools-core/src/geometry/GSCsubCurve.C:232-251 | the doubled knots, coefficients and homogeneous coefficients; they are again a valid curve with the same start and the end moved by one period |
| SubCurve.ExtendedKnots | gotools-core/src/geometry/GSCsubCurve.C:233-237 | the transform loop appends the tail of the knots shifted by `delta` |
| SubCurve.ExtendedCoefs | gotools-core/src/geometry/GSCsubCurve.C:241-245 | the copy loop appends the coefficients after the first `cont + 1` |
| SubCurve.AppendedParams | gotools-core/src/geometry/GSCsubCurve.C:233-239 | for every `cont` with `cont + 1 <= numCoefs`, the doubled knot vector has `newn + order` entries, begins with the old knots and keeps the start |
| SubCurve.AppendedPeriodic | gotools-core/src/geometry/GSCsubCurve.C:233-237 | on knot-periodic knots, the doubled knot vector from index `numCoefs - cont - 1` on is the old one moved by one period |
| SubCurve.AppendedEnd | gotools-core/src/geometry/GSCsubCurve.C:232-239 | on knot-periodic knots the doubled curve ends one period after the old end |
| SubCurve.AppendedSorted | gotools-core/src/geometry/GSCsubCurve.C:233-237 | doubling sorted knot-periodic knots keeps them sorted |
| SubCurve.PeriodicShiftPositive | gotools-core/src/geometry/GSCsubCurve.C:228-238 | on a curve with a non-empty interval, a knot-periodic `cont` leaves at least one coefficient to append |
| SubCurve.AppendedSized | gotools-core/src/geometry/GSCsubCurve.C:238-246 | for every `cont` with `cont + 1 <= numCoefs`, doubling both arrays gives `effdim * newn` coefficients each |
| SubCurve.AppendedValid | gotools-core/src/geometry/GSCsubCurve.C:233-251 | a valid knot-periodic curve doubles into a valid curve with the same start and the end one period later |
| SubCurve.ShortPeriodicExample | gotools-core/src/geometry/GSCsubCurve.C:228-246 | order 3 on knots 0..6 with `cont = 1` (four coefficients, fewer than `order + cont + 1` past the first period) is knot-periodic and doubles to knots 0..8 ending at 6 |
| SubCurve.SplineCurve.AppendSelfPeriodicAsWritten | gotools-core/src/geometry/GSCsubCurve.C:241-251 | as written: a rational curve gets only its homogeneous coefficients doubled |
| SubCurve.AsWrittenLeavesCoefsShort | gotools-core/src/geometry/GSCsubCurve.C:241-251 | as written, a rational curve of dimension at least 1 that gains coefficients ends up with too few projected coefficients for its new count |
| SubCurve.AsWrittenExample | gotools-core/src/geometry/GSCsubCurve.C:241-251 | a closed rational curve of order 2 on knots 0 to 5, dimension 1, last control point equal to its first, `cont = 0`: 7 coefficients, 14 homogeneous entries, but only 4 projected ones |
| SubCurve.DoublingsShrink | gotools-core/src/geometry/GSCsubCurve.C:52-61 | each doubling brings `to` closer to the end in whole periods, so the periodic recursion ends |

## Left out

- Snapping parameters to nearby knots (`knotIntervalFuzzy`) is a curve-basis
  operation that is not part of this model. Snapping is taken as the
  identity, so `fuzzy` acts only in the range checks of `subCurve`.
- `makeKnotStartRegular` and `makeKnotEndRegular` are not part of this model
  and are taken as the identity. `Split`'s pieces start at knot index 0.
- The periodicity analysis and the coefficient refinement of `insertKnot` are
  not part of this model. They are function parameters, and the contract
  predicates state what the model relies on. The analysis is taken to return
  a non-negative `cont` only for knot vectors that repeat exactly
  (`KnotPeriodic`); the source's analysis works to a tolerance. No property of the coefficient
  values is stated, so nothing says that a piece traces the same geometry
  as the curve.
- SubCurve.SplineCurve.Split: requires distinct split parameters strictly
  inside the parameter interval. The source does not check this, and other
  input gives degenerate or out-of-range pieces.
- SubCurve.SplineCurve.SplitAt: requires `param` strictly inside the
  parameter interval, for the same reason.
- SubCurve.InnerPieces: states only that its pieces are the slices; that
  they are well formed and run between the bounds follows in `SplitPieces`.
- SubCurve.SplineCurve.Split: returns the sorted parameters instead of
  sorting the caller's vector in place.
- SubCurve.SplineCurve.SubCurve: a successful periodic case is only stated to
  give a well-formed curve from `from` to `to`. When it succeeds depends on
  the analysis of the doubled curve.
- `compare_seq` and `object_to_stream` are not part of this model.
  - The comparison is taken as lexicographic with a shorter prefix first.
  - Streams are modelled by tokens, and a vector is written as its length
    followed by its entries.
  - Number formatting and white space are not modelled, except that reading
    skips the line break `write` emits.
- LRBSpline.LRBSpline2D.Read: on a failed read it states nothing about the
  fields already overwritten.
- `overlaps` is an unimplemented stub in the source and is not modelled.
- Floating-point rounding is not modelled: knots and values are reals.
- The default parameter tolerance `DEFAULT_PARAMETER_EPSILON`, with which
  `subCurve` recurses on the doubled curve, is not defined in any file of
  this model; `DefaultParameterEpsilon` assumes the value `1e-10`. It
  decides the periodic range check of the recursive call and the
  termination measure of `SubCurve`.
- `thread_local` storage of the scratch buffer is not modelled: each call
  allocates its own.
- Integer widths are not modelled: indices and counts are unbounded.

## Findings

| source | as written | input that shows it | evidently intended | confidence | as-written member | corrected member |
|---|---|---|---|---|---|---|
| lrsplines2D/src/LRBSpline2D.C:42-50 | without `at_end`, the support guard lets `t` equal to the last local knot through, and the `<=` search then reads one knot index past the basis function's `deg + 2` entries | degree 0, local knots 0 and 1, `t = 1`, `at_end = false` | the support is half-open without `at_end`, so the value there is 0 | not executed | BSplineEval.SearchOverrunsExample | BSplineEval.B |
| gotools-core/src/geometry/GSCsubCurve.C:241-251 | on a rational curve only the homogeneous coefficients are doubled; the projected coefficients keep `dim * n` entries while the count becomes `2n - cont - 1` | closed rational curve of order 2, knots 0..5, dimension 1, last control point equal to the first, `cont = 0`: 7 coefficients, 14 homogeneous entries, 4 projected ones | both coefficient arrays are doubled | not executed | SubCurve.AsWrittenExample | SubCurve.SplineCurve.AppendSelfPeriodic |
