/** The loops that recognise IN and NOT IN patterns and that build the printed expressions. */
module PrintingLoops {
  import opened Ranges
  import opened Intervals
  import opened Scalars
  import opened Printing

  method FConvertsToIn(rs: seq<Range>) returns (isIn: bool)
    ensures isIn <==> ConvertsToIn(rs)
  {
    if 1 >= |rs| {
      return false;
    }
    isIn := true;
    var k := 0;
    while k < |rs| && isIn
      invariant k <= |rs|
      invariant isIn <==> forall l :: 0 <= l < k ==> rs[l].IsPoint()
    {
      isIn := rs[k].IsPoint();
      k := k + 1;
    }
  }

  method FConvertsToNotIn(rs: seq<Range>) returns (isNotIn: bool)
    ensures isNotIn <==> ConvertsToNotIn(rs)
  {
    if 1 >= |rs| {
      return false;
    }
    if rs[0].left.Some? || rs[|rs| - 1].right.Some? {
      return false;
    }
    isNotIn := true;
    var leftRange := rs[0];
    var k := 1;
    while k < |rs| && isNotIn
      invariant 1 <= k <= |rs|
      invariant leftRange == rs[k - 1]
      invariant isNotIn <==> forall l :: 0 < l < k ==> GapBetween(rs[l - 1], rs[l])
    {
      var rightRange := rs[k];
      isNotIn := isNotIn && leftRange.rightInc.Excluded?;
      isNotIn := isNotIn && rightRange.leftInc.Excluded?;
      isNotIn := isNotIn && leftRange.UpperBoundEqualsLowerBound(rightRange);
      leftRange := rightRange;
      k := k + 1;
    }
  }

  method ListRightEnds(rs: seq<Range>, n: nat) returns (values: seq<Datum>)
    requires n <= |rs|
    ensures values == RightEnds(rs, n)
  {
    values := [];
    for k := 0 to n
      invariant values == RightEnds(rs, n)[..k]
    {
      values := values + [if rs[k].right.Some? then Val(rs[k].right.value) else Null];
    }
  }

  /** The constants are the right ends; NOT IN skips the last range, and NULL is listed last. */
  method PexprConstructArrayScalar(p: Interval, isIn: bool) returns (e: Expr)
    requires p.Valid() && if isIn then ConvertsToIn(p.ranges) else ConvertsToNotIn(p.ranges)
    ensures e == PrintArray(p, isIn)
  {
    var values := ListRightEnds(p.ranges, if isIn then |p.ranges| else |p.ranges| - 1);
    if p.includesNull {
      values := values + [Null];
    }
    e := ArrayCmp(p.col, if isIn then AnyOf else AllOf, if isIn then Eq else NEq, values);
  }

  method PexprsOfRanges(p: Interval) returns (es: seq<Expr>)
    ensures es == PrintRanges(p.ranges, p.col)
  {
    es := [];
    for k := 0 to |p.ranges|
      invariant es == PrintRanges(p.ranges, p.col)[..k]
    {
      es := es + [PrintRange(p.ranges[k], p.col)];
    }
  }

  method PexprConstructDisjunctionScalar(p: Interval) returns (e: Expr)
    ensures e == PrintDisjunction(p)
  {
    var es := PexprsOfRanges(p);
    if |es| == 1 && es[0] == Const(True) {
      if p.includesNull {
        return Const(True);
      }
      return Not(IsNull(p.col));
    }
    if p.includesNull {
      es := es + [IsNull(p.col)];
    }
    e := BuildConjDisj(es, false);
  }

  method PexprConstructScalar(p: Interval, arrays: bool) returns (e: Expr)
    requires p.Valid()
    ensures e == Print(p, arrays)
    ensures forall row: Row :: PrintsAs(e, p, row, arrays)
  {
    forall row: Row ensures PrintsAs(Print(p, arrays), p, row, arrays) { PrintExact(p, row, arrays); }
    if p.IsContradiction() {
      return Const(False);
    }
    if arrays {
      var isIn := FConvertsToIn(p.ranges);
      if isIn {
        e := PexprConstructArrayScalar(p, true);
        return;
      }
      var isNotIn := FConvertsToNotIn(p.ranges);
      if isNotIn {
        e := PexprConstructArrayScalar(p, false);
        return;
      }
    }
    e := PexprConstructDisjunctionScalar(p);
  }
}
