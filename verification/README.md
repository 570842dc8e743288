# Verified models of the optimizer's property algebra

The optimizer reasons about plans through a few small algebras in `libgpopt/src/base`. This project models
five of them and proves what they compute, for all inputs and over whole runs.

- **Column constraints.** A constraint on one column is a sorted array of ranges with open, closed or infinite
  ends, and a flag for NULL. `Ranges` orders range ends as cuts of the line, `Intervals` gives union,
  intersection, difference and complement as two-pointer merges with their exact set meaning and the
  canonical-form theorem, and `IntervalLoops` has the loops over the shared range array. `SortedSets`,
  `Scalars`, `Derivation` and `Printing` (with `...Loops`) go from SQL expressions to intervals and back, and
  state what that means in SQL's three-valued logic.
- **Constraints over several columns.** `Constraints`, `Projections`, `Containment`, `ConstraintLoops` cover
  construction (flattening, combining the children on one column), projection, remapping to an equivalent
  column, and the memoised containment test. `EquivClasses`, `ScalarConstraints` and `ScalarConstraintLoops`
  derive constraints and classes of equal columns from a predicate; `ImpliedPredicates` goes back to what
  the predicate implies on an equivalent column. `ScalarConstraintLoops.InferredIsTrue` runs through it all
  and says exactly when what is inferred is TRUE where the predicate is.
- **Which common table expressions (CTEs) are used** (`CteInfos`): the liveness worklist and the consumer counters.
- **Derived and required CTEs** (`CteMaps`): what satisfied children of an operator satisfy together.
- **Partition selection**: counting propagators (`PartIndexMaps`) and splitting a predicate over the levels of
  a partitioned table (`PartPredicates`).

## How to read it

`Eval` is SQL's three-valued meaning of an expression on a row. `Reads` is the two-valued reading that the
interval code has of it. `Has` and `Sat` say that a datum is in an interval and that a row satisfies a
constraint. `Valid` intervals are sorted and disjoint; `Normal` ones also have no neighbours that touch. A
`Built` constraint has the form that the constructors establish. Where code drops or distorts a part,
a pair of conditions says whether that only adds rows (`Widens...`) or only takes rows away (`Narrows...`); NOT
swaps the two. `HoldsOn` says that a constraint holds with all that does not mention the given columns left out.
The difference loop needs its second array sorted, or it would lose its residual
(`Intervals.UnsortedSecondLosesResidual`); every builder sorts it. `arrays` is the trace flag for array constraints.
Where the code is a loop over an array, a stack, a bit set or a hash map, so is the method that models it, and its contract
ties it to the function whose meaning the lemmas prove. A loop over a hash map or a set visits it in any order.

## Where the code does less than its comments or callers suggest

These are theorems of the model, stated with the exact condition or a concrete input.

- The quantifier of an array comparison is ignored when its interval is derived directly: right exactly for
  `= ANY`, `<> ALL`, and lists of one value (`Derivation.ArrayQuantifierIgnored`). With array constraints off,
  the same comparison is spelled out and then exact (`ScalarConstraints.FromArrayExact`).
- An interval that holds NULL and prints as `IN` or `NOT IN` lists NULL among the constants, so the printed
  expression is never TRUE on NULL; printing is SQL-exact in every other case (`Printing.PrintIsSqlExactIff`).
  On values `IN` is still right, while `NOT IN` with NULL listed is never TRUE. An implied predicate is TRUE
  where it should be exactly if it is not such a `NOT IN` (`ImpliedPredicates.ImpliedIsTrueIff`), which then is
  TRUE on no row at all (`ImpliedPredicates.ImpliedNotInWithNullIsNeverTrue`).
- Children of an AND that are not understood are dropped, which widens; below a NOT it narrows, and rows are
  lost: those on which a dropped child is FALSE and the others read true
  (`Derivation.NotOverDroppedChildLoses`). An even number of NOTs does no harm
  (`Derivation.PolarityReads`, `ScalarConstraints.ScalarPolarity`).
- A comparison of two columns gives "neither is NULL", so a NOT above it gives "one of them is NULL", which
  fails on all the rows on which the NOT is TRUE (`ScalarConstraints.NotOverComparisonIsUnsound`).
- Projection leaves out what does not mention the columns, as if it held (`Projections.OnColsExact`). Below a
  negation that narrows, so a predicate implied by a negation can be wrong: from NOT (a conjunction), on the rows
  on which all children that are kept hold (`ImpliedPredicates.NegatedConjunctionReads`); from NOT (a disjunction)
  with a child left out, on all rows (`ImpliedPredicates.NegatedDisjunctionReads`).
- Containment is decided column by column (`Containment.ContainsIff`), so every yes to arguments that projection
  only widens is right exactly for the constraints that say nothing beyond what they say column by column
  (`Containment.YesIsRightIff`).
  Conjunctions of one-column constraints are such (`Containment.SeparableHull`), many disjunctions are not
  (`Containment.MixedDisjunctionIsUnsound`, `Containment.CrossedDisjunctionIsUnsound`).
- The comment at libgpopt/src/base/CConstraint.cpp:520-521 says that a class coming from all children of an OR
  is kept; the loop intersects with no classes at first, so an OR never yields any
  (`ScalarConstraints.OrLosesClasses`). An AND yields all (`ScalarConstraints.AndDerivesClasses`).
- Satisfied children may fail to satisfy the requirements together, exactly when one of them brings the producer of
  a required consumer (`CteMaps.Composition`).
- Combining partition maps depends on the order: propagators in children before the consumer's count once, so
  all count exactly if there is at most one of them, or the consumer is resolved anyway
  (`PartIndexMaps.AllCountIff`).

## Model

| member | source | states |
|---|---|---|
| Ranges.HasBetween | libgpopt/src/base/CRange.cpp:32-54 | a range holds exactly the values between its two cuts |
| Ranges.CutsDetermineRange | libgpopt/src/base/CRange.cpp:32-54 | a well-formed range is determined by its two cuts |
| Ranges.Range.DisjointLeft | libgpopt/src/base/CRange.cpp:154-179 | true iff this range ends, as a cut, no later than the other starts |
| Ranges.Range.Contains | libgpopt/src/base/CRange.cpp:190-198 | true iff both cuts of the other range lie within this one's |
| Ranges.Range.StartsWithOrBefore | libgpopt/src/base/CRange.cpp:286-308 | true iff this start cut is no later than the other's |
| Ranges.Range.StartsBefore | libgpopt/src/base/CRange.cpp:319-345 | true iff this start cut is strictly earlier, or both starts are infinite |
| Ranges.Range.EndsAfter | libgpopt/src/base/CRange.cpp:356-382 | true iff this end cut is strictly later, or both ends are infinite; either answer orders the ends weakly |
| Ranges.Range.EndsWithOrAfter | libgpopt/src/base/CRange.cpp:393-415 | true iff this end cut is no earlier than the other's |
| Ranges.OverlapBoundsAreFinite | libgpopt/src/base/CRange.cpp:209-240 | when neither range contains the other, the overlap tests decide whether they share a value, and the datums their branches then read are present |
| Ranges.Range.Intersect | libgpopt/src/base/CRange.cpp:566-607 | gives nothing iff the ranges share no cut interval; otherwise the range from the later start to the earlier end |
| Ranges.Range.DifferenceLeft | libgpopt/src/base/CRange.cpp:621-657 | gives a range iff this one starts strictly earlier; it runs from this start to the earlier of this end and the other's start |
| Ranges.Range.DifferenceRight | libgpopt/src/base/CRange.cpp:671-707 | gives a range iff this one ends strictly later; it runs from the later of this start and the other's end to this end |
| Ranges.Range.Extend | libgpopt/src/base/CRange.cpp:719-747 | gives a range iff the other starts exactly where this one ends; it covers both |
| Intervals.AppendKeepsApart | libgpopt/src/base/CConstraintInterval.cpp:1336-1368 | appending or extending behind an array in normal form keeps it in normal form and adds exactly the values of the new range |
| Intervals.AddRemainingCorrect | libgpopt/src/base/CConstraintInterval.cpp:1309-1324 | copying the rest of an array adds exactly its values and keeps the normal form, even if that rest has touching ranges |
| Intervals.UnionTurnCorrect | libgpopt/src/base/CConstraintInterval.cpp:990-1013 | every turn of the union loop keeps: the output is in normal form and left of both heads, and output plus what is left is the union |
| Intervals.UnionFromCorrect | libgpopt/src/base/CConstraintInterval.cpp:990-1026 | from any state that meets the invariant the union loop ends with exactly the values of output and remaining ranges, in normal form |
| Intervals.UnionCorrect | libgpopt/src/base/CConstraintInterval.cpp:980-1027 | union is set union, NULL included, always in normal form, with at most n1 + n2 ranges, whatever touching ranges the inputs have |
| Intervals.IntersectTurnCorrect | libgpopt/src/base/CConstraintInterval.cpp:938-959 | every turn of the intersection loop keeps: output plus the intersection of what is left is the intersection |
| Intervals.IntersectFromCorrect | libgpopt/src/base/CConstraintInterval.cpp:938-968 | the intersection loop ends with exactly the common values, sorted, from any state that meets the invariant |
| Intervals.IntersectKeepsApart | libgpopt/src/base/CConstraintInterval.cpp:938-968 | on inputs in normal form the intersection loop never appends a range that touches the one before, although it never extends |
| Intervals.IntersectCorrect | libgpopt/src/base/CConstraintInterval.cpp:922-969 | intersection is set intersection, NULL included; normal inputs give a normal result |
| Intervals.DiffWithRightResidualCuts | libgpopt/src/base/CConstraintInterval.cpp:1267-1297 | where the other range ends first: the piece runs up to its start, the residual from its end, and which of them exist |
| Intervals.DifferenceTurnCorrect | libgpopt/src/base/CConstraintInterval.cpp:1056-1081 | every turn of the difference loop keeps its invariant, the pending residual included: no value of the difference is lost or gained |
| Intervals.DifferenceFromCorrect | libgpopt/src/base/CConstraintInterval.cpp:1056-1096 | the difference loop ends with exactly the values of the difference, in normal form, within the count of ranges left |
| Intervals.DifferenceCorrect | libgpopt/src/base/CConstraintInterval.cpp:1038-1097 | difference is set difference, NULL included, in normal form, with at most n1 + n2 ranges |
| Intervals.UnsortedSecondLosesResidual | libgpopt/src/base/CConstraintInterval.cpp:1276-1279 | why the invariant needs the second array sorted: a range inside the first, followed by one to its left, would remove nothing |
| Intervals.Canonical | libgpopt/src/base/CConstraintInterval.cpp:1336-1368 | two intervals in normal form with the same meaning are the same list of ranges and the same flag |
| Intervals.ContradictionAndUnboundedExact | libgpopt/src/base/CConstraintInterval.cpp:79-97 | on normal forms the two cheap tests say exactly that nothing, or everything, is in the interval |
| Intervals.ComplementCorrect | libgpopt/src/base/CConstraintInterval.cpp:1239-1251 | complement holds exactly the datums the interval does not, in normal form, with at most one range more |
| Intervals.ComplementInvolution | libgpopt/src/base/CConstraintInterval.cpp:1239-1251 | complementing a normal form twice gives the identical list back |
| Intervals.DeMorgan | libgpopt/src/base/CConstraintInterval.cpp:922-1027 | both De Morgan laws hold as equality of lists, for all valid inputs |
| Intervals.DifferenceIsIntersectComplement | libgpopt/src/base/CConstraintInterval.cpp:1038-1097 | difference equals, as a list, intersection with the complement |
| Intervals.Distributive | libgpopt/src/base/CConstraintInterval.cpp:922-1027 | union and intersection distribute over each other as lists |
| Intervals.ContainsIntervalExact | libgpopt/src/base/CConstraintInterval.cpp:1108-1136 | for a container in normal form, or an argument that is not unbounded, the test says yes iff every datum of the other interval, NULL included, is in it |
| Intervals.ContainsIntervalSound | libgpopt/src/base/CConstraintInterval.cpp:1108-1136 | a yes is right for any valid container |
| Intervals.ContainsIntervalOnType | libgpopt/src/base/CConstraintInterval.cpp:1108-1136 | for a type that has only some of the values, such as the integers, the answer is right iff the difference is empty or has a datum of the type |
| IntervalLoops.RangeArray.AppendOrExtend | libgpopt/src/base/CConstraintInterval.cpp:1336-1368 | the array in place becomes the old one with the range appended or its last range extended; a NULL range changes nothing |
| IntervalLoops.RangeArray.AddRemainingRanges | libgpopt/src/base/CConstraintInterval.cpp:1309-1324 | the array in place gains the rest of the source array, touching ranges glued |
| IntervalLoops.PciUnion | libgpopt/src/base/CConstraintInterval.cpp:980-1027 | the loop computes the union: its meaning, normal form and size |
| IntervalLoops.PciIntersect | libgpopt/src/base/CConstraintInterval.cpp:922-969 | the loop computes the intersection: its meaning and normal form |
| IntervalLoops.PrangeDiffWithRightResidual | libgpopt/src/base/CConstraintInterval.cpp:1267-1297 | where the other range ends first, the piece runs from this start to the other's start, the residual from the other's end to this end, each exists iff that is not empty, and if they meet the two hold exactly the values of the difference |
| IntervalLoops.PciDifference | libgpopt/src/base/CConstraintInterval.cpp:1038-1097 | the loop with its residual computes the difference: its meaning, normal form and size |
| IntervalLoops.PciComplement | libgpopt/src/base/CConstraintInterval.cpp:1239-1251 | the result holds exactly what the input does not, in normal form |
| IntervalLoops.FContainsInterval | libgpopt/src/base/CConstraintInterval.cpp:1108-1136 | yes implies inclusion; inclusion implies yes for a container in normal form |
| SortedSets.SortedSetCorrect | libgpopt/src/base/CDatumSortedSet.cpp:12-58 | the set is strictly increasing and has exactly the constants that are not NULL |
| SortedSets.IncreasingUnique | libgpopt/src/base/CDatumSortedSet.cpp:12-58 | only one strictly increasing list has given values |
| SortedSets.DistinctCorrect | libgpopt/src/base/CDatumSortedSet.cpp:44-57 | dropping neighbours that are equal leaves a sorted list strictly increasing with the same values |
| SortedSets.BuildSortedSet | libgpopt/src/base/CDatumSortedSet.cpp:12-58 | the constructor yields that set and the flag for NULL, given one constant that is not NULL |
| Scalars.MakeConjDisjMeaning | libgpopt/src/operators/CPredicateUtils.cpp:648-716 | the simplified conjunction or disjunction has the same truth value in SQL, and the same reading, as the plain one |
| Scalars.MakeConjDisjShape | libgpopt/src/operators/CPredicateUtils.cpp:648-716 | what the constructor returns is well-formed and recognised and uses no new column |
| Scalars.MakeConjDisjDecided | libgpopt/src/operators/CPredicateUtils.cpp:648-716 | a child that decides the result makes it a constant |
| Scalars.MakeConjDisjSkips | libgpopt/src/operators/CPredicateUtils.cpp:648-716 | a child that says nothing leaves no trace, wherever it stands |
| Scalars.MakeConjDisjKeeps | libgpopt/src/operators/CPredicateUtils.cpp:648-716 | all others are kept, in order; a single one stands for itself |
| Scalars.BuildConjDisj | libgpopt/src/operators/CPredicateUtils.cpp:648-716 | the loop with its early return builds the specified expression |
| Derivation.CompareRangesCorrect | libgpopt/src/base/CConstraintInterval.cpp:1415-1449 | the one or two ranges of a comparison hold exactly the values that compare so, in normal form |
| Derivation.FromArrayCmpExact | libgpopt/src/base/CConstraintInterval.cpp:192-285 | the interval of an array holds exactly (or exactly not) the listed values, and NULL iff listed, in normal form |
| Derivation.GapRangesCorrect | libgpopt/src/base/CConstraintInterval.cpp:241-274 | the gaps around a strictly increasing list hold exactly the values outside it, in normal form |
| Derivation.ParseExact | libgpopt/src/base/CConstraintInterval.cpp:128-179 | an interval is derived iff the expression is recognised; it is in normal form and holds exactly the datums on which the expression reads true |
| Derivation.NodesGive | libgpopt/src/base/CConstraintInterval.cpp:489-571 | an AND gives an interval iff some child does, meaning all that do; an OR iff all do, meaning some |
| Derivation.NotGives | libgpopt/src/base/CConstraintInterval.cpp:442-480 | a NOT gives one iff its child does, meaning the opposite, NULL included |
| Derivation.LeavesGive | libgpopt/src/base/CConstraintInterval.cpp:128-179 | which leaves give an interval, and which datums it has |
| Derivation.ExactReads | libgpopt/src/base/CConstraintInterval.cpp:335-390 | on exact, fully recognised expressions TRUE reads true, FALSE reads false, and only a NULL makes the value unknown |
| Derivation.ParseIsSqlExact | libgpopt/src/base/CConstraintInterval.cpp:128-179 | for such expressions a value is in the derived interval iff the expression is TRUE on it, and NULL is in it whenever it is TRUE on NULL |
| Derivation.ParseOverApproximates | libgpopt/src/base/CConstraintInterval.cpp:442-571 | with children of an AND dropped or quantifiers ignored where that only widens, counting NOTs, every datum on which the expression is TRUE is in the interval |
| Derivation.ParseUnderApproximates | libgpopt/src/base/CConstraintInterval.cpp:442-571 | where that only narrows, every datum on which the expression is FALSE is outside the interval |
| Derivation.PolarityReads | libgpopt/src/base/CConstraintInterval.cpp:442-571 | the induction behind both: NOT swaps widening and narrowing |
| Derivation.NotOverDroppedChildLoses | libgpopt/src/base/CConstraintInterval.cpp:442-571 | a NOT above an AND with dropped children loses a row on which it is TRUE if a dropped child is FALSE and the others read true there, and only if so where the others narrow |
| Derivation.ArrayQuantifierIgnored | libgpopt/src/base/CConstraintInterval.cpp:192-285 | for arrays without NULL the interval means the comparison iff it is = ANY, <> ALL, or all listed values are the same |
| DerivationLoops.PcnstrIntervalFromScalarArrayCmp | libgpopt/src/base/CConstraintInterval.cpp:192-285 | sorting, de-duplicating and building points or gaps gives the specified interval |
| DerivationLoops.PciIntervalFromScalarExpr | libgpopt/src/base/CConstraintInterval.cpp:128-179 | the dispatch gives the specified interval, present iff the expression is recognised, in normal form |
| DerivationLoops.PciIntervalFromScalarBoolAnd | libgpopt/src/base/CConstraintInterval.cpp:537-571 | the fold over the children of an AND, skipping those without an interval |
| DerivationLoops.PciIntervalFromScalarBoolOr | libgpopt/src/base/CConstraintInterval.cpp:489-526 | the fold over the children of an OR, giving up at the first child without an interval |
| Printing.PrintRangeMeaning | libgpopt/src/base/CRange.cpp:441-555 | a range prints as an expression that is TRUE, and reads true, exactly on its values |
| Printing.RangePrintsAs | libgpopt/src/base/CRange.cpp:441-555 | a point prints as an equality, any other range as one comparison per finite end |
| Printing.PrintDisjunctionMeaning | libgpopt/src/base/CConstraintInterval.cpp:647-683 | the disjunction of the ranges is TRUE in SQL exactly on the datums of the interval; on NULL outside the interval it is not TRUE |
| Printing.NotInRangesAreGaps | libgpopt/src/base/CConstraintInterval.cpp:721-751 | ranges recognised as NOT IN are exactly the gaps around a strictly increasing list of finite ends |
| Printing.PointsPrintAsIn | libgpopt/src/base/CConstraintInterval.cpp:604-842 | with array constraints, two or more points always print as IN of these values in their order, NULL last if it is there |
| Printing.GapsPrintAsNotIn | libgpopt/src/base/CConstraintInterval.cpp:604-842 | and the gaps around one or more values as NOT IN |
| Printing.PrintInMeaning | libgpopt/src/base/CConstraintInterval.cpp:766-842 | the IN array reads as the interval it was printed from |
| Printing.PrintNotInMeaning | libgpopt/src/base/CConstraintInterval.cpp:766-842 | the NOT IN array reads as the interval it was printed from |
| Printing.PrintExact | libgpopt/src/base/CConstraintInterval.cpp:604-627 | whatever shape is chosen, the printed expression reads exactly as the interval, is recognised again and uses only its column |
| Printing.RoundTrip | libgpopt/src/base/CConstraintInterval.cpp:604-683 | deriving from the printed expression gives the identical ranges and flag back, with array comparisons off and on |
| Printing.RoundTripMeaning | libgpopt/src/base/CConstraintInterval.cpp:604-683 | for any valid interval it gives back the normal form of the same meaning |
| Printing.PrintHasTruth | libgpopt/src/base/CConstraintInterval.cpp:604-842 | the SQL value, TRUE, FALSE or NULL, of the printed expression on every row: IN with NULL listed is never FALSE, NOT IN with NULL listed never TRUE |
| Printing.PrintIsSqlExactIff | libgpopt/src/base/CConstraintInterval.cpp:604-842 | the printed expression is TRUE in SQL exactly on the interval iff it is not an array comparison of an interval with NULL |
| PrintingLoops.FConvertsToIn | libgpopt/src/base/CConstraintInterval.cpp:695-709 | says yes iff there are several ranges and all are points |
| PrintingLoops.FConvertsToNotIn | libgpopt/src/base/CConstraintInterval.cpp:721-751 | says yes iff the ranges are unbounded outwards and adjacent ones leave out just one point |
| PrintingLoops.PexprConstructArrayScalar | libgpopt/src/base/CConstraintInterval.cpp:766-842 | the array built lists the right ends, without the last range for NOT IN, and NULL last if the interval has it |
| PrintingLoops.PexprConstructScalar | libgpopt/src/base/CConstraintInterval.cpp:604-627 | the expression built reads exactly as the interval |
| Constraints.UnboundedAndContradictionSound | libgpopt/src/base/CConstraintDisjunction.cpp:79-90 | a constraint reported unbounded holds on every row, one reported contradictory on none |
| Constraints.KnownIsExact | libgpopt/src/base/CConstraintDisjunction.cpp:79-90 | and neither report is missing where all intervals are in normal form and what would have to be weighed against each other - children of a conjunction for the one, of a disjunction for the other, negation swapping the two - has no column in common |
| ConstraintLoops.FContradiction | libgpopt/src/base/CConstraintConjunction.cpp:78-89 | the loops over the children give that report, right and there complete |
| ConstraintLoops.FUnbounded | libgpopt/include/gpopt/base/CConstraintNegation.h:71-75 | so does the other test |
| Constraints.ScalarExact | libgpopt/src/base/CConstraintNegation.cpp:153-184 | the scalar expression of any constructed constraint, double negation and complement included, is recognised and reads as the constraint |
| Constraints.FlattenMeaning | libgpopt/src/base/CConstraint.cpp:614-649 | flattening keeps the satisfying rows |
| Constraints.FlattenBuilt | libgpopt/src/base/CConstraint.cpp:614-649 | a flattened array of constructed constraints has none of its own kind, and the same columns |
| Constraints.CombineExact | libgpopt/src/base/CConstraint.cpp:722-738 | printing the constraints on one column, combining and deriving again gives one interval in normal form with their joint meaning |
| Constraints.DedupFromKeepsMeaning | libgpopt/src/base/CConstraint.cpp:662-744 | de-duplication keeps the satisfying rows, from any state of its loop |
| Constraints.DedupFromShape | libgpopt/src/base/CConstraint.cpp:662-744 | afterwards at most one constraint is on each single column |
| Constraints.DedupFromColumns | libgpopt/src/base/CConstraint.cpp:662-744 | de-duplication keeps the columns |
| Constraints.MakeCorrect | libgpopt/src/base/CConstraintConjunction.cpp:29-53 | every constructed conjunction or disjunction means its children, has no child of its own kind and at most one one-column child per column |
| Constraints.MakeKeeps | libgpopt/src/base/CConstraint.cpp:662-744 | the children of a node are those given, flattened, that are on several columns or alone on theirs, unchanged, and combinations of all that share one column |
| Constraints.ConjDisjCorrect | libgpopt/src/base/CConstraint.cpp:264-307 | nothing for no constraint; otherwise a constructed constraint with the joint meaning and columns |
| Projections.OnColExact | libgpopt/src/base/CConstraintDisjunction.cpp:147-186 | what any constraint says about a column is the constraint with all that does not mention it left out as if it held, below negations too, where the code's assertions hold |
| Projections.ConjunctionSays | libgpopt/src/base/CConstraintConjunction.cpp:150-179 | a conjunction says something of a column exactly if some child does that is not unbounded there |
| Projections.DisjunctionSays | libgpopt/src/base/CConstraintDisjunction.cpp:147-186 | a disjunction always says something of a column it mentions, and just that it is unbounded if a child does not mention it |
| Projections.OnColOverApproximates | libgpopt/src/base/CConstraintConjunction.cpp:150-179 | where projection widens - always, without negations - a row that satisfies the constraint satisfies what it says about a column |
| Projections.HoldsOnPolarity | libgpopt/src/base/CConstraintNegation.cpp:86-98 | leaving out widens or narrows, and negation swaps the two |
| Projections.OnOwnColExact | libgpopt/src/base/CConstraintDisjunction.cpp:147-186 | what a one-column constraint says about its column is the constraint |
| Projections.PartsFromChildren | libgpopt/src/base/CConstraintConjunction.cpp:150-179 | the parts collected for a column come from children that reference it, and each such child has one |
| Projections.OnColsExact | libgpopt/src/base/CConstraintDisjunction.cpp:197-229 | the same law for a set of columns, for every constraint |
| Projections.OnColsOverApproximates | libgpopt/src/base/CConstraintNegation.cpp:109-121 | so where that widens, a row of the constraint is a row of its projection |
| Projections.WithinIsExact | libgpopt/src/base/CConstraintNegation.cpp:86-121 | nothing is left out of a constraint on just these columns, negations included |
| Projections.RemapExact | libgpopt/src/base/CConstraint.cpp:792-820 | remapping every column to one keeps the meaning on rows that have the same datum in all of them |
| Containment.IntervalForExact | libgpopt/src/base/CConstraintInterval.cpp:296-324 | the interval of a one-column constraint means that constraint; a missing one is unbounded |
| Containment.ContainsSound | libgpopt/src/base/CConstraint.cpp:831-890 | what a yes means, for any two constraints the second of which projection widens: its rows satisfy what the first says about each of its columns |
| Containment.ContainsIff | libgpopt/src/base/CConstraint.cpp:831-890 | both answers, for any two constraints with parts on the columns and normal intervals in the first: yes iff the first is known to be unbounded, or the second is not and the first allows on each of its columns all that the second does there |
| Containment.ContainsIffNormal | libgpopt/src/base/CConstraint.cpp:831-890 | so without negations for all normal intervals in the first |
| Containment.YesIsRightIff | libgpopt/src/base/CConstraint.cpp:831-890 | every yes to such arguments is right iff the constraint says nothing beyond what it says column by column |
| Containment.ContainsRow | libgpopt/src/base/CConstraint.cpp:831-890 | the constraint that has just the rows like a given one is contained iff that row satisfies what is said column by column |
| Containment.SeparableHull | libgpopt/src/base/CConstraint.cpp:831-890 | conjunctions of one-column constraints say nothing beyond |
| Containment.ContainsSubsumes | libgpopt/src/base/CConstraint.cpp:831-890 | so for those a yes is right for any argument, both without negations |
| Containment.MixedDisjunctionContainsAll | libgpopt/src/base/CConstraint.cpp:831-890 | a disjunction none of whose columns is in all its children says nothing column by column, and yes to every argument that is not known to be unbounded |
| Containment.MixedDisjunctionIsUnsound | libgpopt/src/base/CConstraint.cpp:831-890 | so some yes is wrong as soon as one row does not satisfy it |
| Containment.CrossedDisjunctionIsUnsound | libgpopt/src/base/CConstraint.cpp:831-890 | with both columns in both children too: (p AND q) OR (p' AND q') on two columns says yes wrongly if p and q' can hold where neither conjunction does |
| Containment.ContainsExact | libgpopt/src/base/CConstraint.cpp:831-890 | with one normal interval per column and an argument that is not contradictory, the answer is exactly containment of the rows |
| Containment.CompareColumns | libgpopt/src/base/CConstraint.cpp:862-879 | the loop over the columns says yes iff each column's test does |
| Containment.ConstraintNode.FContains | libgpopt/src/base/CConstraint.cpp:831-890 | every answer, from the memo table or not, is the one that would be computed; remembered answers are kept; yes iff, column by column, this constraint allows all that the other does, and then the other's rows are this one's if, without negations, it says nothing beyond that |
| Containment.EqualsSound | libgpopt/src/base/CConstraint.cpp:901-918 | a yes means the same satisfying rows, for constraints without negations that say nothing beyond what they say column by column |
| Containment.EqualsIff | libgpopt/src/base/CConstraint.cpp:901-918 | both answers, for constraints so compared: yes iff both are known to be unbounded, or neither is and each allows on its columns what the other does |
| Containment.EqualsExact | libgpopt/src/base/CConstraint.cpp:901-918 | with one normal interval per column, and unless both are contradictions, yes iff the same rows satisfy both |
| Containment.ConstraintNode.FEquals | libgpopt/src/base/CConstraint.cpp:901-918 | the answer by object identity or containment both ways, with both memo tables kept right, and what it says about the rows |
| ConstraintLoops.PdrgpcnstrOnColumn | libgpopt/src/base/CConstraint.cpp:539-565 | the constraints on the column, or on it alone, all of them and in order |
| Constraints.OnColumnSplit | libgpopt/src/base/CConstraint.cpp:539-565 | as often and in the order in which they stand |
| ConstraintLoops.HashMapper.constructor | libgpopt/src/base/CColConstraintsHashMapper.cpp:20-63 | builds the table that finds for every column its list |
| ConstraintLoops.HashMapper.PdrgPcnstrLookup | libgpopt/src/base/CColConstraintsHashMapper.cpp:9-18 | for every column with a one-column constraint, the same list in the same order as the scan |
| ConstraintLoops.TableStep | libgpopt/src/base/CColConstraintsHashMapper.cpp:34-51 | one more constraint extends the list of its only column and no other |
| ConstraintLoops.Lookup | libgpopt/src/base/CColConstraintsArrayMapper.cpp:10-17 | both mappers give the list of the scan |
| ConstraintLoops.PdrgpcnstrFlatten | libgpopt/src/base/CConstraint.cpp:614-649 | the loop flattens, keeping the satisfying rows |
| ConstraintLoops.PdrgpcnstrDeduplicate | libgpopt/src/base/CConstraint.cpp:662-744 | the loop with either mapper computes the specified array |
| ConstraintLoops.NewNode | libgpopt/src/base/CConstraintDisjunction.cpp:29-53 | the constructor: shape, columns and meaning of the new node |
| EquivClasses.EquatesUnion | libgpopt/src/base/CUtils.cpp:2712-2739 | two classes with a common column say exactly what their union says |
| EquivClasses.AddClassCorrect | libgpopt/src/base/CUtils.cpp:2712-2739 | adding a class joins all it meets: the classes stay disjoint, keep their columns, and say exactly what was said before |
| EquivClasses.MergeCorrect | libgpopt/src/base/CUtils.cpp:2743-2765 | merged classes are disjoint and say exactly what both arrays said |
| EquivClasses.TogetherIffForced | libgpopt/src/base/CUtils.cpp:2712-2765 | two columns are together iff the classes force them to be equal |
| EquivClasses.IntersectCorrect | libgpopt/src/base/CUtils.cpp:2770-2850 | two columns are together in the intersection iff they are in both arrays |
| EquivClasses.PdrgpcrsAddEquivClass | libgpopt/src/base/CUtils.cpp:2712-2739 | the loop that grows the new class in place yields the specified classes |
| EquivClasses.PdrgpcrsMergeEquivClasses | libgpopt/src/base/CUtils.cpp:2743-2765 | the fold over the second array yields the merged classes |
| EquivClasses.PdrgpcrsIntersectEquivClasses | libgpopt/src/base/CUtils.cpp:2770-2850 | the two hash maps lead to the intersection: columns are together iff they are in both |
| ScalarConstraints.FromArrayExact | libgpopt/src/base/CConstraint.cpp:83-142 | an array comparison that is spelled out holds exactly where it is TRUE in SQL, for either quantifier and every comparison |
| ScalarConstraints.FromScalarShape | libgpopt/src/base/CConstraint.cpp:154-217 | the constraint uses the expression's columns, and the classes are disjoint and nonempty, as the map from columns to classes asserts |
| ScalarConstraints.AndDerivesClasses | libgpopt/src/base/CConstraint.cpp:414-488 | the classes of an AND over several columns are equal throughout exactly where those of all its children that say something are, and have just their columns |
| ScalarConstraints.OtherClasses | libgpopt/src/base/CConstraint.cpp:154-217 | one column gives its class, an equality of two columns theirs, any other comparison, OR and NOT over several columns none |
| ScalarConstraints.OthersDeriveNothing | libgpopt/src/base/CConstraint.cpp:351-403 | nothing is derived without columns, or from comparisons of anything but two columns |
| ScalarConstraints.OneChildStands | libgpopt/src/base/CConstraint.cpp:414-488 | an AND with just one child that says something derives what that child does, without a node |
| ScalarConstraints.FromComparison | libgpopt/src/base/CConstraint.cpp:369-403 | a comparison of two columns derives exactly that both are not NULL |
| ScalarConstraints.FromScalarNormalLeaves | libgpopt/src/base/CConstraint.cpp:154-217 | all intervals derived are in normal form |
| ScalarConstraints.FaithfulExact | libgpopt/src/base/CConstraint.cpp:414-488 | for expressions understood in every part the constraint holds exactly where the expression reads true, NOT included |
| ScalarConstraints.FromScalarSound | libgpopt/src/base/CConstraint.cpp:154-217 | on every row on which the expression is TRUE the constraint holds and the columns of each class are equal and not NULL, where dropped parts only widen |
| ScalarConstraints.ScalarPolarity | libgpopt/src/base/CConstraint.cpp:414-488 | the induction behind it: below a NOT the constraint must fail wherever the operand is FALSE, and every child of an AND must say something there |
| ScalarConstraints.FromScalarNegationFree | libgpopt/src/base/CConstraint.cpp:414-488 | without a NOT above several columns the constraint has no negation |
| ScalarConstraints.NotOverComparisonIsUnsound | libgpopt/src/base/CConstraint.cpp:414-488 | on every row on which NOT (a op b) is TRUE, for any comparison of two columns, its constraint does not hold |
| ScalarConstraints.OrLosesClasses | libgpopt/src/base/CConstraint.cpp:499-527 | an OR over several columns never yields a class, even one that all its children have |
| ScalarConstraintLoops.PcnstrFromScalarExpr | libgpopt/src/base/CConstraint.cpp:154-217 | the recursive code derives the specified constraint and classes |
| ScalarConstraintLoops.PcnstrFromScalarBoolOp | libgpopt/src/base/CConstraint.cpp:414-488 | the loop over the children, skipping or giving up, ends with the specified node and with the classes that its kind derives |
| ScalarConstraintLoops.PcnstrFromScalarArrayCmp | libgpopt/src/base/CConstraint.cpp:83-142 | the loop over the constants builds the specified node, unless the array is too long |
| ScalarConstraintLoops.InferredIsTrue | libgpopt/src/base/CPropConstraint.cpp:116-156 | from predicate to predicate, without NOTs above several columns: on every row on which it is TRUE, what is inferred from it on a column of a class is TRUE iff its interval does not print as NOT IN with NULL listed; always, with array constraints off |
| ScalarConstraintLoops.InferredReadsIff | libgpopt/src/base/CPropConstraint.cpp:116-156 | with NOTs anywhere: what is inferred reads true iff the derived constraint holds with all that does not mention the class's other columns left out, and with array constraints off it is TRUE in SQL iff so |
| ImpliedPredicates.ImpliedReadsIff | libgpopt/src/base/CPropConstraint.cpp:116-156 | the exact law, negations included: on a row with one datum throughout the class the implied predicate reads true iff the constraint holds with all that does not mention the class's other columns left out |
| ImpliedPredicates.ImpliedIsHoldsOn | libgpopt/src/base/CPropConstraint.cpp:116-156 | and in SQL it is TRUE or FALSE just so, where the datum is not NULL and no array comparison lists NULL |
| ImpliedPredicates.ImpliedReads | libgpopt/src/base/CPropConstraint.cpp:116-156 | so it reads true on every such row of a constraint whose projection widens |
| ImpliedPredicates.NegatedConjunctionReads | libgpopt/src/base/CConstraintNegation.cpp:109-121 | from the negation of a conjunction, what is implied reads true iff some child that mentions the class's other columns does not hold: wrong on a row of the negation iff they all hold |
| ImpliedPredicates.NegatedDisjunctionReads | libgpopt/src/base/CConstraintNegation.cpp:109-121 | from the negation of a disjunction it reads false on every row if some child does not mention them |
| ImpliedPredicates.NegationImpliesTooMuch | libgpopt/src/base/CConstraintNegation.cpp:109-121 | so from NOT (p AND q), q on none of the class's other columns, NOT p is implied, which every row with p and without q refutes |
| ImpliedPredicates.ImpliedIsTrueIff | libgpopt/src/base/CPropConstraint.cpp:116-156 | in SQL, where that datum is not NULL, it is TRUE iff its interval does not print as NOT IN with NULL listed |
| ImpliedPredicates.ScalarHasTruth | libgpopt/src/base/CConstraintConjunction.cpp:247-265 | the SQL value, TRUE, FALSE or NULL, of the expression of any constraint on every row, with or without NULLs in it |
| ImpliedPredicates.ScalarIsTrue | libgpopt/src/base/CConstraintConjunction.cpp:247-265 | if none of its intervals prints as an array comparison with NULL listed, that is TRUE or FALSE as the constraint holds or not, on rows without NULL in its columns |
| ImpliedPredicates.ImpliedNotInWithNullIsNeverTrue | libgpopt/src/base/CPropConstraint.cpp:116-156 | if it does print so, the implied predicate is TRUE on no row at all |
| ImpliedPredicates.ImpliedNotInWithNull | libgpopt/src/base/CPropConstraint.cpp:116-156 | a <> 1 OR a IS NULL on an equivalent column does |
| ImpliedPredicates.PropConstraint.InitHashMap | libgpopt/src/base/CPropConstraint.cpp:66-89 | the map in place finds for every column of a class that class, and no other column |
| ImpliedPredicates.PropConstraint.PexprScalarMappedFromEquivCols | libgpopt/src/base/CPropConstraint.cpp:116-156 | the predicate returned is the specified one; without negations it is TRUE on the rows considered iff its interval does not print as NOT IN with NULL listed |
| CteInfos.UsedIffReferenced | libgpopt/src/base/CCTEInfo.cpp:438-459 | after marking, a CTE is used iff it is referenced by the main query or a used CTE, so its count is zero when unused, and positive when used short of a full round of the 32-bit counter |
| CteInfos.RecordedAddsOne | libgpopt/src/base/CCTEInfo.cpp:492-529 | recording a consumer adds one reference and one edge and changes no other |
| CteInfos.RecordedCounts | libgpopt/src/base/CCTEInfo.cpp:438-459 | it raises the references that count by exactly one iff it is in the main query or a used CTE |
| CteInfos.RefsInAllSplit | libgpopt/src/base/CCTEInfo.cpp:438-459 | the count does not depend on the order in which the CTEs are visited |
| CteInfos.ClosedHasChain | libgpopt/src/base/CCTEInfo.cpp:712-749 | a set that has the main query's consumers and is closed under consumption has everything reachable |
| CteInfos.FoundOne | libgpopt/src/base/CCTEInfo.cpp:676-701 | pushing one consumer and clearing its bit moves it from the bit set to the stack, each id at most once |
| CteInfos.WorklistStep | libgpopt/src/base/CCTEInfo.cpp:728-735 | one turn keeps: cleared CTEs are reachable, and their consumers are cleared unless they still wait on the stack |
| CteInfos.WorklistEnd | libgpopt/src/base/CCTEInfo.cpp:728-735 | with an empty stack the cleared CTEs are exactly the reachable ones |
| CteInfos.CteInfo.IncrementConsumers | libgpopt/src/base/CCTEInfo.cpp:492-529 | the counters hold the low 32 bits of the number of recorded consumers; a new one starts at 1 |
| CteInfos.CteInfo.UlConsumers | libgpopt/src/base/CCTEInfo.cpp:438-459 | the references from the main query and the used CTEs, modulo the counter's width |
| CteInfos.CteInfo.FindConsumersInParent | libgpopt/src/base/CCTEInfo.cpp:676-701 | exactly the consumers inside the parent whose bit was set are pushed and cleared |
| CteInfos.CteInfo.FindUnusedCTEs | libgpopt/src/base/CCTEInfo.cpp:714-735 | the worklist terminates; the bits left are exactly those of CTEs the main query does not reach |
| CteInfos.CteInfo.MarkUnusedCTEs | libgpopt/src/base/CCTEInfo.cpp:712-749 | a CTE keeps its used flag iff it is reachable from the main query through consumers inside known CTEs; from all used, iff the references that are counted afterwards are not zero |
| CteMaps.CombineKeeps | libgpopt/src/base/CCTEMap.cpp:297-313 | an id stays iff exactly one map has it or both have it with the same type |
| CteMaps.CombineKeepsEntry | libgpopt/src/base/CCTEMap.cpp:297-313 | with the first map's plan, or the second's where the first has none |
| CteMaps.OptionalDemands | libgpopt/src/base/CCTEReq.cpp:486-506 | optional requirements demand just that consumers are listed |
| CteMaps.UnresolvedDemands | libgpopt/src/base/CCTEReq.cpp:372-399 | what is left demands just that, and each required CTE that the first map lacks |
| CteMaps.Composition | libgpopt/src/base/CCTEReq.cpp:372-399 | if the first map satisfies the optional requirements and the second what it left, both together satisfy the requirements iff neither brings the producer of a required consumer |
| CteMaps.UnresolvedIsNeeded | libgpopt/src/base/CCTEReq.cpp:372-399 | the converse: a map with listed consumers that completes the requirements satisfies what was left |
| CteMaps.CompositionIff | libgpopt/src/base/CCTEReq.cpp:372-399 | so without such producers both together satisfy the requirements iff the second satisfies what was left |
| CteMaps.ClashBreaksComposition | libgpopt/src/base/CCTEReq.cpp:372-399 | a producer of a required consumer really breaks it |
| CteMaps.OptionalComposes | libgpopt/src/base/CCTEReq.cpp:486-506 | any number of children that satisfy the optional requirements do so together |
| CteMaps.NaryComposition | libgpopt/src/operators/CPhysical.cpp:752-790 | the composition theorem for an operator that runs any number of children from left to right |
| CteMaps.CombineCommutes | libgpopt/src/base/CCTEMap.cpp:297-313 | combining commutes up to plans, and entirely iff shared entries of one type have one plan |
| CteMaps.RightToLeftComposition | libgpopt/src/operators/CPhysical.cpp:1101-1126 | the composition theorem for a join that runs its second child first, though its first child is still combined first |
| CteMaps.SequenceComposition | libgpopt/src/operators/CPhysicalSequence.cpp:156-181 | for a sequence the last child consumes every producer of the others, so none stays open, and the requirements hold iff it brings no producer of a required consumer |
| CteMaps.SequenceIsNeeded | libgpopt/src/operators/CPhysicalSequence.cpp:156-181 | the converse: a last child that completes the requirements and leaves no producer open satisfies what was demanded |
| CteMaps.CteMap.AddUnresolved | libgpopt/src/base/CCTEMap.cpp:147-180 | adds in place exactly the entries that stay open, leaving what the result has |
| CteMaps.CteMap.PcmCombine | libgpopt/src/base/CCTEMap.cpp:297-313 | a new map with the combination of both, which are unchanged |
| CteMaps.CteMap.PdpplanProducer | libgpopt/src/base/CCTEMap.cpp:99-134 | finds a producer and its plan iff there is one |
| CteMaps.CteMap.FSubset | libgpopt/src/base/CCTEMap.cpp:209-234 | yes iff every entry is in the other map with the same type, the early test on sizes included |
| CteMaps.CteMap.FSatisfies | libgpopt/src/base/CCTEMap.cpp:324-360 | yes iff every required CTE is there with its type and every consumer there is listed |
| CteMaps.CteMap.PdrgpulAdditionalProducers | libgpopt/src/base/CCTEMap.cpp:371-395 | exactly the producers that are not listed as such, each once |
| CteMaps.CteReq.Insert | libgpopt/src/base/CCTEReq.cpp:187-206 | adds the entry, and keeps the list of required ids equal to the entries marked required |
| CteMaps.CteReq.PcterUnresolved | libgpopt/src/base/CCTEReq.cpp:372-399 | a new requirement with the same entries: one stays required iff it was and the derived map lacks it |
| CteMaps.CteReq.PcterUnresolvedSequence | libgpopt/src/base/CCTEReq.cpp:411-475 | a new requirement: what is left, and a required consumer for each producer found, with the producer's plan |
| CteMaps.CteReq.PcterAllOptional | libgpopt/src/base/CCTEReq.cpp:486-506 | a new requirement with the same entries, none required |
| PartIndexMaps.FoldCounts | libgpopt/src/base/CPartIndexMap.cpp:577-643 | behind the consumer only the number of propagators counts, not their order; one that expects none waits for a full round of the counter |
| PartIndexMaps.DerivedEntry | libgpopt/src/operators/CPhysical.cpp:991-1015 | what an operator derives from its children, consumer and propagators at any of them: propagators behind the consumer all count, those before it count once |
| PartIndexMaps.AllCountIff | libgpopt/src/operators/CPhysical.cpp:991-1015 | all propagators count iff at most one comes before the consumer, or those that count resolve it anyway |
| PartIndexMaps.DerivedFromPositive | libgpopt/src/operators/CPhysical.cpp:991-1015 | a consumer that expects k >= 1 expects k - n after n < k propagators that count and is resolved after n >= k |
| PartIndexMaps.FoldSatisfies | libgpopt/src/base/CPartIndexMap.cpp:862-881 | exactly which children together satisfy a required consumer |
| PartIndexMaps.CombineCommutesIff | libgpopt/src/base/CPartIndexMap.cpp:627-643 | combining two maps commutes iff each shared id is held alike or as consumer and propagator |
| PartIndexMaps.PartIndexMap.Insert | libgpopt/src/base/CPartIndexMap.cpp:254-301 | over every run the first counter is the number of consumers; an entry that exists keeps its type and expectation, and gains the part constraints it lacks |
| PartIndexMaps.PartIndexMap.SetExpectedPropagators | libgpopt/src/base/CPartIndexMap.cpp:459-468 | the second counter stays exact iff a consumer is not turned from expecting none to some or back |
| PartIndexMaps.PartIndexMap.ResolvePropagator | libgpopt/src/base/CPartIndexMap.cpp:577-616 | a consumer and a propagator give the consumer with one fewer expected modulo the width, a resolver at the last; other pairs change nothing |
| PartIndexMaps.PartIndexMap.AddUnresolved | libgpopt/src/base/CPartIndexMap.cpp:513-565 | adds in place every entry of the first map as the second leaves it, part constraints combined, with both counters exact |
| PartIndexMaps.PartIndexMap.PpimCombine | libgpopt/src/base/CPartIndexMap.cpp:627-643 | a new map with the combination of both, part constraints included, and both counters exact |
| PartIndexMaps.PartIndexMap.CopyPartConstraints | libgpopt/src/metadata/CPartConstraint.cpp:786-818 | the loop copies just what the destination lacks |
| PartIndexMaps.MergeCommutesIff | libgpopt/src/metadata/CPartConstraint.cpp:829-862 | the order in which part constraints are combined matters iff they differ for one key, which the source asserts away |
| PartIndexMaps.PartsConserved | libgpopt/src/operators/CPhysical.cpp:991-1015 | over all children of an operator no part constraint is lost or invented, and the first child that has one wins |
| PartIndexMaps.PartIndexMap.FContainsUnresolved | libgpopt/src/base/CPartIndexMap.cpp:654-657 | tells whether a consumer is left, short of a full round of the counter |
| PartPredicates.ConjunctsMeaning | libgpopt/src/operators/CPredicateUtils.cpp:263-285 | a predicate is TRUE iff all its conjuncts are, and FALSE iff some conjunct is |
| PartPredicates.ConjunctsAreFlat | libgpopt/src/operators/CPredicateUtils.cpp:263-285 | no conjunct is an AND itself |
| PartPredicates.CollectConjuncts | libgpopt/src/operators/CPredicateUtils.cpp:263-285 | appends the conjuncts in order |
| PartPredicates.ExtractComponentsMeaning | libgpopt/src/operators/CPredicateUtils.cpp:608-644 | turning a comparison around so that the key is on the left keeps its truth value |
| PartPredicates.AtLevelCounts | libgpopt/src/base/CPartitionPropagationSpec.cpp:468-511 | every occurrence of a conjunct goes to exactly one level or to the residual |
| PartPredicates.AtLevelSplit | libgpopt/src/base/CPartitionPropagationSpec.cpp:468-511 | in the order in which they stand |
| PartPredicates.LevelOfIs | libgpopt/src/base/CPartitionPropagationSpec.cpp:468-511 | with different keys, a level takes the conjuncts that use just its key of all keys, and the residual those that use none or several |
| PartPredicates.SplitShape | libgpopt/src/base/CPartitionPropagationSpec.cpp:350-377 | a level gets an equality filter iff its only conjunct is an equality, and another filter iff it has conjuncts and no equality filter |
| PartPredicates.ResidualShape | libgpopt/src/base/CPartitionPropagationSpec.cpp:422-456 | there is a residual unless every conjunct left for it is TRUE, and it is never just TRUE |
| PartPredicates.SplitKeepsMeaning | libgpopt/src/base/CPartitionPropagationSpec.cpp:315-383 | the filters (key = value at equality levels) and the residual together are TRUE, FALSE or NULL exactly when the predicate is, for any number of levels and conjuncts |
| PartPredicates.PcrsKeys | libgpopt/src/base/CPartitionPropagationSpec.cpp:394-410 | the set of all keys |
| PartPredicates.PdrgpexprPredicatesOnKey | libgpopt/src/base/CPartitionPropagationSpec.cpp:468-511 | the conjuncts whose only key is this level's and that no earlier level took; their bits are set and no others |
| PartPredicates.PexprResidualFilter | libgpopt/src/base/CPartitionPropagationSpec.cpp:422-456 | the conjunction of the conjuncts that no level took, or nothing if it is TRUE |
| PartPredicates.SplitPartPredicates | libgpopt/src/base/CPartitionPropagationSpec.cpp:315-383 | the loop over the levels yields the split whose meaning is proved |

## Left out

- Memory pools, reference counts, mutexes, debug printing and hash functions have no effect on what is modelled.
- Values are reals: a dense order without ends stands for the comparator, which is assumed to be a total order. Types without one give no constraint.
- Comparisons with a NULL constant outside an array: the source treats the NULL datum like any other value of its comparator.
- ScalarConstraintLoops.PcnstrFromScalarArrayCmp: an array with NULL that is short enough to be spelled out is excluded, for the same reason.
- ScalarConstraintLoops.PcnstrFromScalarExpr: excludes expressions with such an array.
- Containment.ContainsSound: says nothing of a constraint or an argument with a negation that has no part on a column; the source asserts that the part is there. Nor of an argument that projection narrows, as below a negation.
- Containment.ConstraintNode.FContains: the memo table is keyed by object identity; reuse of a freed object's address is not captured.
- ImpliedPredicates.ImpliedIsTrueIff: is stated for constraints without negations; with them ImpliedPredicates.ImpliedReadsIff is the law, and ImpliedPredicates.ImpliedIsHoldsOn its SQL form unless NULL is listed.
- ScalarConstraintLoops.InferredIsTrue: is stated for predicates without a NOT above several columns; for all others ScalarConstraintLoops.InferredReadsIff is the law.
- ScalarConstraints.FromScalarSound: its condition on dropped parts is sufficient, not necessary: a lost part may be implied by the others.
- Derivation.ParseExact: a comparison whose operator is IS DISTINCT FROM is an expression of its own kind in the source, and gives no interval.
- EquivClasses.PdrgpcrsAddEquivClass: classes are values; the source enlarges the set object of the second array in place, which is not read again.
- CteInfos.CteInfo.IncrementConsumers: the lock on the counter, and with it concurrent increments, is not modelled.
- CteMaps.CteReq.PcterUnresolvedSequence: relies on what the source asserts about the derived map; runs in which those assertions fail are not modelled.
- CteMaps.RightToLeftComposition: is stated for two children, which is what the operators that run from right to left have.
- PartIndexMaps.PartIndexMap.Insert: keys, table ids, the relation's own constraint and the flag for partial scans of an entry are left out; part constraints are told apart but not looked into, and a missing map of them is an empty one.
- PartIndexMaps.PartIndexMap.AddUnresolved: maps of part constraints are values; the source lets an entry share the map of the entry it comes from.
- PartIndexMaps.DerivedEntry: a second child with a consumer of the same scan, which the source only allows if both expect the same number.
- PartPredicates.SplitPartPredicates: composite partition keys, which the source asserts away; and an equality whose key is not plainly on one side, for which extracting its components fails an assertion.
- CTE producers' plans, statistics and column maps; enforcers of partition propagation; all of the search, costing, distribution and order properties.
