/**
 From intervals back to scalar expressions (CRange::PexprScalar and the
 PexprConstruct... family of CConstraintInterval.cpp), and the round trip.
 */
module Printing {
  import opened Options
  import opened Ranges
  import opened Intervals
  import opened SortedSets
  import opened Scalars
  import opened Derivation

  // ----- One range

  /** A comparison with one end, or nothing for an infinite end. */
  function PrintEnd(end: Option<real>, inc: Inclusion, included: CmpType, excluded: CmpType, col: Col): seq<Expr> {
    if end.None? then [] else [Cmp(col, if inc.Included? then included else excluded, end.value)]
  }

  function PrintRange(r: Range, col: Col): Expr {
    if r.left.Some? && r.left == r.right && r.leftInc.Included? && r.rightInc.Included? then
      Cmp(col, Eq, r.left.value)
    else
      MakeConjDisj(PrintEnd(r.left, r.leftInc, GreaterEq, Greater, col) +
                   PrintEnd(r.right, r.rightInc, LessEq, Less, col), true)
  }

  /**
   What a printed range is in SQL: TRUE when the range is unbounded, otherwise comparisons, which
   NULL leaves open.
   */
  function RangeTruth(r: Range, d: Datum): Truth {
    if r.IsUnbounded() then True else if d.Null? then Unknown else FromBool(r.Has(d.v))
  }

  /** What printing one range guarantees, for the optimizer's reading and for SQL. */
  ghost predicate PrintedRange(e: Expr, r: Range, col: Col, row: Row, env: Env, arrays: bool) {
    && e.WellFormed() && Converts(e, arrays) && e.Columns() <= {col}
    && (e == Const(True) <==> r.IsUnbounded())
    && (Reads(e, row, arrays) <==> r.IsUnbounded() || (row(col).Val? && r.Has(row(col).v)))
    && Eval(e, row, env) == RangeTruth(r, row(col))
  }

  lemma PrintRangeMeaning(r: Range, col: Col, row: Row, env: Env, arrays: bool)
    requires r.Valid()
    ensures PrintedRange(PrintRange(r, col), r, col, row, env, arrays)
  {
    var left := PrintEnd(r.left, r.leftInc, GreaterEq, Greater, col);
    var right := PrintEnd(r.right, r.rightInc, LessEq, Less, col);
    if r.left.None? || r.right.None? {
      MakeSmall(left + right);
      PrintOneEnd(r, left + right, col, row, env, arrays);
    } else if !(r.left == r.right && r.leftInc.Included? && r.rightInc.Included?) {
      PrintTwoEnds(r, left[0], right[0], col, row, env, arrays);
      assert left + right == [left[0], right[0]];
    }
  }

  lemma PrintOneEnd(r: Range, es: seq<Expr>, col: Col, row: Row, env: Env, arrays: bool)
    requires r.Valid() && (r.left.None? || r.right.None?)
    requires es == if r.left.Some? then [Cmp(col, if r.leftInc.Included? then GreaterEq else Greater, r.left.value)]
                   else if r.right.Some? then [Cmp(col, if r.rightInc.Included? then LessEq else Less, r.right.value)]
                   else []
    ensures PrintedRange(if |es| == 0 then Const(True) else es[0], r, col, row, env, arrays)
  {
  }

  lemma PrintTwoEnds(r: Range, a: Expr, b: Expr, col: Col, row: Row, env: Env, arrays: bool)
    requires r.left.Some? && r.right.Some?
    requires a == Cmp(col, if r.leftInc.Included? then GreaterEq else Greater, r.left.value)
    requires b == Cmp(col, if r.rightInc.Included? then LessEq else Less, r.right.value)
    ensures PrintedRange(MakeConjDisj([a, b], true), r, col, row, env, arrays)
  {
    MakePair(a, b);
    AndOfPair(a, b, row, arrays);
    TwoEndsRead(r, a, b, col, row, env, arrays);
  }

  lemma TwoEndsRead(r: Range, a: Expr, b: Expr, col: Col, row: Row, env: Env, arrays: bool)
    requires r.left.Some? && r.right.Some?
    requires a == Cmp(col, if r.leftInc.Included? then GreaterEq else Greater, r.left.value)
    requires b == Cmp(col, if r.rightInc.Included? then LessEq else Less, r.right.value)
    ensures Reads(a, row, arrays) && Reads(b, row, arrays) <==> row(col).Val? && r.Has(row(col).v)
    ensures Eval(And([a, b]), row, env) == RangeTruth(r, row(col))
  {
    var es := [a, b];
    assert es[0] == a && es[1] == b;
    assert forall e :: e in es <==> e == a || e == b;
    assert Eval(And(es), row, env).False? <==> Eval(a, row, env).False? || Eval(b, row, env).False?;
    assert Eval(And(es), row, env).True? <==> Eval(a, row, env).True? && Eval(b, row, env).True?;
  }

  lemma AndOfPair(a: Expr, b: Expr, row: Row, arrays: bool)
    requires a.Cmp? && b.Cmp? && !a.op.IsDistinct? && !b.op.IsDistinct?
    ensures var e := And([a, b]);
            && e.WellFormed() && Converts(e, arrays) && e.Columns() <= a.Columns() + b.Columns()
            && (Reads(e, row, arrays) <==> Reads(a, row, arrays) && Reads(b, row, arrays))
  {
    var es := [a, b];
    assert es[0] == a && es[1] == b;
    assert forall e :: e in es <==> e == a || e == b;
    assert Converts(a, arrays) && Converts(b, arrays);
  }

  /** No comparison, or a single one, is not wrapped in an AND. */
  lemma MakeSmall(es: seq<Expr>)
    requires |es| <= 1 && forall e | e in es :: e.Cmp?
    ensures MakeConjDisj(es, true) == if |es| == 0 then Const(True) else es[0]
  {
    if |es| == 1 { assert Unskipped(es, true) == es by { assert es[0] in es; } }
  }

  lemma MakePair(a: Expr, b: Expr)
    requires a.Cmp? && b.Cmp?
    ensures MakeConjDisj([a, b], true) == And([a, b])
    ensures forall e :: e in [a, b] <==> e == a || e == b
  {
    assert Unskipped([a, b], true) == [a, b] by {
      assert [a, b][..1] == [a] && [a][..0] == [];
      assert Unskipped([a], true) == [a];
    }
  }

  // ----- Disjunctions of ranges

  function PrintRanges(rs: seq<Range>, col: Col): seq<Expr> {
    seq(|rs|, k requires 0 <= k < |rs| => PrintRange(rs[k], col))
  }

  function PrintDisjunction(p: Interval): Expr {
    var es := PrintRanges(p.ranges, p.col);
    if |es| == 1 && es[0] == Const(True) then
      if p.includesNull then Const(True) else Not(IsNull(p.col))
    else
      MakeConjDisj(if p.includesNull then es + [IsNull(p.col)] else es, false)
  }

  /** What a printed expression must satisfy: it is recognised, and it reads as the interval. */
  ghost predicate PrintsAs(e: Expr, p: Interval, row: Row, arrays: bool) {
    && e.WellFormed() && Converts(e, arrays) && e.Columns() <= {p.col}
    && (Reads(e, row, arrays) <==> p.Has(row(p.col)))
  }

  /**
   What the disjunction of the ranges is in SQL: NULL leaves every comparison open, so on NULL
   it is TRUE if the interval holds NULL and open otherwise, unless there is no comparison.
   */
  ghost function DisjunctionTruth(p: Interval, d: Datum): Truth {
    if d.Val? || p.Has(d) || |p.ranges| == 0 || (|p.ranges| == 1 && p.ranges[0].IsUnbounded()) then FromBool(p.Has(d))
    else Unknown
  }

  lemma PrintDisjunctionMeaning(p: Interval, row: Row, env: Env, arrays: bool)
    requires p.Valid()
    ensures var e := PrintDisjunction(p);
            PrintsAs(e, p, row, arrays) && Eval(e, row, env) == DisjunctionTruth(p, row(p.col))
  {
    var es := PrintRanges(p.ranges, p.col);
    forall k | 0 <= k < |es|
      ensures PrintedRange(es[k], p.ranges[k], p.col, row, env, arrays)
    {
      PrintRangeMeaning(p.ranges[k], p.col, row, env, arrays);
    }
    if |es| == 1 && es[0] == Const(True) {
      assert p.ranges[0].IsUnbounded();
      assert forall x :: p.ranges[0].Has(x);
    } else {
      NoRangeUnbounded(p.ranges);
      PrintManyMeaning(p, es, row, env, arrays);
    }
  }

  lemma NoRangeUnbounded(rs: seq<Range>)
    requires Sorted(rs)
    requires |rs| == 1 ==> !rs[0].IsUnbounded()
    ensures forall k :: 0 <= k < |rs| ==> !rs[k].IsUnbounded()
  {
    if |rs| >= 2 {
      assert forall k :: 0 < k < |rs| ==> Le(rs[0].End(), rs[k].Start());
      assert Le(rs[0].End(), rs[1].Start());
    }
  }

  lemma PrintManyMeaning(p: Interval, es: seq<Expr>, row: Row, env: Env, arrays: bool)
    requires p.Valid() && |es| == |p.ranges|
    requires forall k :: 0 <= k < |es| ==> PrintedRange(es[k], p.ranges[k], p.col, row, env, arrays)
    requires forall k :: 0 <= k < |es| ==> !p.ranges[k].IsUnbounded()
    ensures var e := MakeConjDisj(if p.includesNull then es + [IsNull(p.col)] else es, false);
            PrintsAs(e, p, row, arrays) && Eval(e, row, env) == DisjunctionTruth(p, row(p.col))
  {
    var all := if p.includesNull then es + [IsNull(p.col)] else es;
    ManyPrinted(p, es, all, row, env, arrays);
    MakeConjDisjShape(all, false, arrays);
    MakeConjDisjMeaning(all, false, row, env, arrays);
    assert Or(all).Columns() <= {p.col};
    ManyTruth(p, es, all, row, env, arrays);
  }

  /** Among the disjuncts one reads true exactly when the interval has the row's datum. */
  lemma ManyPrinted(p: Interval, es: seq<Expr>, all: seq<Expr>, row: Row, env: Env, arrays: bool)
    requires p.Valid() && |es| == |p.ranges|
    requires all == if p.includesNull then es + [IsNull(p.col)] else es
    requires forall k :: 0 <= k < |es| ==> PrintedRange(es[k], p.ranges[k], p.col, row, env, arrays)
    requires forall k :: 0 <= k < |es| ==> !p.ranges[k].IsUnbounded()
    ensures forall e | e in all :: e.WellFormed() && Converts(e, arrays) && e.Columns() <= {p.col}
    ensures (exists e | e in all :: Reads(e, row, arrays)) <==> p.Has(row(p.col))
  {
    var d := row(p.col);
    forall e | e in all
      ensures e.WellFormed() && Converts(e, arrays) && e.Columns() <= {p.col}
      ensures Reads(e, row, arrays) ==> p.Has(d)
    {
      var k :| 0 <= k < |all| && all[k] == e;
      if k < |es| { assert PrintedRange(es[k], p.ranges[k], p.col, row, env, arrays); }
    }
    if p.Has(d) {
      var k := |es|;
      if d.Val? { k :| 0 <= k < |p.ranges| && p.ranges[k].Has(d.v); }
      assert all[k] in all && Reads(all[k], row, arrays);
    }
  }

  /** The SQL value of the disjuncts taken together. */
  lemma ManyTruth(p: Interval, es: seq<Expr>, all: seq<Expr>, row: Row, env: Env, arrays: bool)
    requires p.Valid() && |es| == |p.ranges|
    requires all == if p.includesNull then es + [IsNull(p.col)] else es
    requires forall k :: 0 <= k < |es| ==> PrintedRange(es[k], p.ranges[k], p.col, row, env, arrays)
    requires forall k :: 0 <= k < |es| ==> !p.ranges[k].IsUnbounded()
    ensures Eval(Or(all), row, env) == DisjunctionTruth(p, row(p.col))
  {
    var d := row(p.col);
    EachTruth(p, es, all, row, env, arrays);
    if p.Has(d) {
      var k := |es|;
      if d.Val? { k :| 0 <= k < |p.ranges| && p.ranges[k].Has(d.v); }
      assert all[k] in all && Eval(all[k], row, env).True?;
    } else if d.Null? && |all| > 0 {
      assert all[0] in all && Eval(all[0], row, env).Unknown?;
    }
  }

  /** One disjunct: on a value it is TRUE or FALSE, and TRUE only inside the interval; on NULL only IS NULL is TRUE. */
  lemma EachTruth(p: Interval, es: seq<Expr>, all: seq<Expr>, row: Row, env: Env, arrays: bool)
    requires p.Valid() && |es| == |p.ranges|
    requires all == if p.includesNull then es + [IsNull(p.col)] else es
    requires forall k :: 0 <= k < |es| ==> PrintedRange(es[k], p.ranges[k], p.col, row, env, arrays)
    requires forall k :: 0 <= k < |es| ==> !p.ranges[k].IsUnbounded()
    ensures forall k :: 0 <= k < |es| ==> Eval(all[k], row, env) == RangeTruth(p.ranges[k], row(p.col))
    ensures forall e | e in all :: Eval(e, row, env).True? ==> p.Has(row(p.col))
    ensures forall e | e in all :: Eval(e, row, env).Unknown? ==> row(p.col).Null?
    ensures forall e | e in all :: Eval(e, row, env).False? ==> row(p.col).Val?
  {
    forall e | e in all
      ensures Eval(e, row, env).True? ==> p.Has(row(p.col))
      ensures Eval(e, row, env).Unknown? ==> row(p.col).Null?
      ensures Eval(e, row, env).False? ==> row(p.col).Val?
    {
      var k :| 0 <= k < |all| && all[k] == e;
      if k < |es| { assert PrintedRange(es[k], p.ranges[k], p.col, row, env, arrays); }
    }
  }

  // ----- Array comparisons

  /** [n,n], [m,m], ... */
  predicate ConvertsToIn(rs: seq<Range>) {
    |rs| > 1 && forall k :: 0 <= k < |rs| ==> rs[k].IsPoint()
  }

  /** (-inf,m), (m,n), ..., (n,inf) */
  predicate ConvertsToNotIn(rs: seq<Range>) {
    && |rs| > 1
    && rs[0].left.None? && rs[|rs| - 1].right.None?
    && forall k :: 0 < k < |rs| ==> GapBetween(rs[k - 1], rs[k])
  }

  predicate GapBetween(r: Range, s: Range) {
    r.rightInc.Excluded? && s.leftInc.Excluded? && r.UpperBoundEqualsLowerBound(s)
  }

  /** Ends of the first `n` ranges; the code takes them to be present. */
  function RightEnds(rs: seq<Range>, n: nat): seq<Datum>
    requires n <= |rs|
  {
    seq(n, k requires 0 <= k < n => if rs[k].right.Some? then Val(rs[k].right.value) else Null)
  }

  function PrintArray(p: Interval, isIn: bool): Expr
    requires |p.ranges| > 1
  {
    var n := if isIn then |p.ranges| else |p.ranges| - 1;
    var values := RightEnds(p.ranges, n);
    ArrayCmp(p.col, if isIn then AnyOf else AllOf, if isIn then Eq else NEq,
             if p.includesNull then values + [Null] else values)
  }

  function Print(p: Interval, arrays: bool): Expr {
    if p.IsContradiction() then Const(False)
    else if arrays && ConvertsToIn(p.ranges) then PrintArray(p, true)
    else if arrays && ConvertsToNotIn(p.ranges) then PrintArray(p, false)
    else PrintDisjunction(p)
  }

  /** The interval prints as an array comparison. */
  predicate ArrayShape(p: Interval, arrays: bool) {
    arrays && (ConvertsToIn(p.ranges) || ConvertsToNotIn(p.ranges))
  }

  /** Constants of an array, with NULL last if it is there. */
  function Listed(vs: seq<real>, withNull: bool): seq<Datum> {
    seq(|vs|, k requires 0 <= k < |vs| => Val(vs[k])) + if withNull then [Null] else []
  }

  /** With array constraints, two or more points print as IN, in their order. */
  lemma PointsPrintAsIn(col: Col, vs: seq<real>, withNull: bool)
    requires |vs| > 1
    ensures Print(Interval(col, PointRanges(vs), withNull), true) == ArrayCmp(col, AnyOf, Eq, Listed(vs, withNull))
  {
    var rs := PointRanges(vs);
    assert ConvertsToIn(rs);
    assert RightEnds(rs, |rs|) == seq(|vs|, k requires 0 <= k < |vs| => Val(vs[k]));
  }

  /** The gaps around one or more values print as NOT IN. */
  lemma GapsPrintAsNotIn(col: Col, vs: seq<real>, withNull: bool)
    requires |vs| > 0
    ensures Print(Interval(col, GapRanges(vs), withNull), true) == ArrayCmp(col, AllOf, NEq, Listed(vs, withNull))
  {
    var rs := GapRanges(vs);
    assert !rs[0].IsPoint();
    forall k | 0 < k < |rs| ensures GapBetween(rs[k - 1], rs[k]) {
      assert rs[k - 1] == Gap(vs, k - 1) && rs[k] == Gap(vs, k);
    }
    assert ConvertsToNotIn(rs);
    assert RightEnds(rs, |rs| - 1) == seq(|vs|, k requires 0 <= k < |vs| => Val(vs[k]));
  }

  /** Each range prints as the fewest comparisons: an equality for a point, one comparison per finite end otherwise. */
  lemma RangePrintsAs(r: Range, col: Col)
    requires r.Valid()
    ensures r.IsPoint() ==> PrintRange(r, col) == Cmp(col, Eq, r.left.value)
    ensures !r.IsPoint() ==>
      var ends := LeftEnd(r, col) + RightEnd(r, col);
      PrintRange(r, col) == if |ends| == 0 then Const(True) else if |ends| == 1 then ends[0] else And(ends)
  {
    if !r.IsPoint() {
      var ends := LeftEnd(r, col) + RightEnd(r, col);
      assert forall e | e in ends :: e.Cmp?;
      MakeConjDisjKeeps(ends, true);
      assert PrintEnd(r.left, r.leftInc, GreaterEq, Greater, col) == LeftEnd(r, col);
      assert PrintEnd(r.right, r.rightInc, LessEq, Less, col) == RightEnd(r, col);
    }
  }

  /** The comparison for the left end, if that is finite. */
  function LeftEnd(r: Range, col: Col): seq<Expr> {
    if r.left.None? then [] else [Cmp(col, if r.leftInc.Included? then GreaterEq else Greater, r.left.value)]
  }

  function RightEnd(r: Range, col: Col): seq<Expr> {
    if r.right.None? then [] else [Cmp(col, if r.rightInc.Included? then LessEq else Less, r.right.value)]
  }

  /** The ends of a NOT IN pattern are present and strictly increasing, and the ranges are the gaps around them. */
  lemma NotInRangesAreGaps(rs: seq<Range>) returns (vs: seq<real>)
    requires Sorted(rs) && ConvertsToNotIn(rs)
    ensures |vs| == |rs| - 1 && Increasing(vs) && rs == GapRanges(vs)
    ensures forall k :: 0 <= k < |vs| ==> rs[k].right == Some(vs[k])
  {
    forall k | 0 < k < |rs| ensures MeetAtDatum(rs[k - 1], rs[k]) {
      assert GapBetween(rs[k - 1], rs[k]);
      assert Le(rs[k - 1].End(), rs[k].Start());
    }
    vs := seq(|rs| - 1, k requires 0 <= k < |rs| - 1 => if rs[k].right.Some? then rs[k].right.value else 0.0);
    forall k | 0 <= k < |vs| ensures rs[k].right == Some(vs[k]) && rs[k].rightInc.Excluded? {
      var next := k + 1;
      assert MeetAtDatum(rs[next - 1], rs[next]);
    }
    GapEndsIncrease(rs, vs);
    forall k | 0 <= k < |rs| ensures rs[k] == Gap(vs, k) {
      if k > 0 { assert MeetAtDatum(rs[k - 1], rs[k]); }
      if k < |vs| {
        var next := k + 1;
        assert MeetAtDatum(rs[next - 1], rs[next]);
      }
    }
  }

  /** `r` ends, and `s` starts, just outside one and the same datum. */
  predicate MeetAtDatum(r: Range, s: Range) {
    r.right.Some? && s.left == r.right && r.rightInc.Excluded? && s.leftInc.Excluded?
  }

  lemma GapEndsIncrease(rs: seq<Range>, vs: seq<real>)
    requires Sorted(rs) && |vs| < |rs|
    requires forall k :: 0 <= k < |vs| ==> rs[k].right == Some(vs[k])
    requires forall k :: 0 <= k < |vs| ==> rs[k].rightInc.Excluded?
    ensures Increasing(vs)
  {
    forall k, l | 0 <= k < l < |vs| ensures vs[k] < vs[l] {
      assert Le(rs[k].End(), rs[l].Start()) && Lt(rs[l].Start(), rs[l].End());
    }
  }

  lemma PrintInMeaning(p: Interval, row: Row)
    requires p.Valid() && ConvertsToIn(p.ranges)
    ensures PrintsAs(PrintArray(p, true), p, row, true)
    ensures RightEnds(p.ranges, |p.ranges|) ==
      seq(|p.ranges|, k requires 0 <= k < |p.ranges| => Val(p.ranges[k].right.value))
  {
    var rs := p.ranges;
    var values := RightEnds(rs, |rs|);
    assert forall k :: 0 <= k < |rs| ==> rs[k].IsPoint() && rs[k].Valid();
    assert values[0] == Val(rs[0].right.value);
    forall x ensures Val(x) in values <==> HasFrom(rs, 0, x) {
      if Val(x) in values {
        var k :| 0 <= k < |rs| && values[k] == Val(x);
        assert rs[k].Has(x);
      }
      if HasFrom(rs, 0, x) {
        var k :| 0 <= k < |rs| && rs[k].Has(x);
        assert values[k] == Val(x);
      }
    }
    PrintArrayReads(p, true, values, row);
  }

  lemma PrintNotInMeaning(p: Interval, row: Row)
    requires p.Valid() && ConvertsToNotIn(p.ranges)
    ensures PrintsAs(PrintArray(p, false), p, row, true)
    ensures Null !in RightEnds(p.ranges, |p.ranges| - 1)
  {
    var rs := p.ranges;
    var vs := NotInRangesAreGaps(rs);
    GapRangesCorrect(vs);
    var values := RightEnds(rs, |rs| - 1);
    ListedValues(values, vs);
    assert values[0] == Val(vs[0]) && values[0] in values;
    PrintArrayReads(p, false, values, row);
  }

  /** An array comparison that lists `values`, and NULL when the interval holds it. */
  lemma PrintArrayReads(p: Interval, isIn: bool, values: seq<Datum>, row: Row)
    requires |p.ranges| > 1 && values == RightEnds(p.ranges, if isIn then |p.ranges| else |p.ranges| - 1)
    requires |values| > 0 && values[0].Val? && Null !in values
    requires forall x :: p.Has(Val(x)) <==> (Val(x) in values <==> isIn)
    ensures PrintsAs(PrintArray(p, isIn), p, row, true)
  {
    var e := PrintArray(p, isIn);
    assert e.consts[0] == Val(values[0].v) && e.consts[0] in e.consts;
    assert forall d :: d in e.consts <==> d in values || (d == Null && p.includesNull);
    if row(p.col).Val? { assert row(p.col) == Val(row(p.col).v); }
  }

  lemma ListedValues(values: seq<Datum>, vs: seq<real>)
    requires |values| == |vs| && forall k :: 0 <= k < |vs| ==> values[k] == Val(vs[k])
    ensures Null !in values && forall x :: Val(x) in values <==> x in vs
  {
    forall x ensures Val(x) in values <==> x in vs {
      if x in vs {
        var k :| 0 <= k < |vs| && vs[k] == x;
        assert values[k] == Val(x);
      }
    }
  }

  /** Printing is exact for the optimizer's reading, array comparisons on or off. */
  lemma PrintExact(p: Interval, row: Row, arrays: bool)
    requires p.Valid()
    ensures PrintsAs(Print(p, arrays), p, row, arrays)
  {
    if p.IsContradiction() {
      assert !p.Has(row(p.col));
    } else if arrays && ConvertsToIn(p.ranges) {
      PrintInMeaning(p, row);
    } else if arrays && ConvertsToNotIn(p.ranges) {
      PrintNotInMeaning(p, row);
    } else {
      PrintDisjunctionMeaning(p, row, Env(_ => Unknown, _ => Null), arrays);
    }
  }

  // ----- Round trip

  /** Parsing what was printed gives the normal form of the interval back. */
  lemma RoundTripMeaning(p: Interval, arrays: bool)
    requires p.Valid()
    ensures var q := Parse(Print(p, arrays), p.col, arrays);
            q.Some? && q.value.Normal() && q.value.col == p.col && forall d :: q.value.Has(d) <==> p.Has(d)
  {
    var e := Print(p, arrays);
    PrintExact(p, _ => Null, arrays);
    ParseExact(e, p.col, arrays, _ => Null);
    var q := Parse(e, p.col, arrays).value;
    forall d ensures q.Has(d) <==> p.Has(d) {
      var row: Row := _ => d;
      PrintExact(p, row, arrays);
      ParseExact(e, p.col, arrays, row);
    }
  }

  /**
   The round trip: an interval in normal form comes back unchanged, range by range and
   with its NULL flag, whether it prints as a disjunction of ranges or as IN / NOT IN.
   */
  lemma RoundTrip(p: Interval, arrays: bool)
    requires p.Normal()
    ensures Parse(Print(p, arrays), p.col, arrays) == Some(p)
  {
    RoundTripMeaning(p, arrays);
    Canonical(Parse(Print(p, arrays), p.col, arrays).value, p);
  }

  // ----- Printing against SQL

  /** An array comparison in SQL: IN and NOT IN differ on what is listed, and a listed NULL leaves the rest open. */
  lemma ArrayTruth(col: Col, isIn: bool, consts: seq<Datum>, row: Row, env: Env)
    requires |consts| > 0
    ensures Eval(ArrayCmp(col, if isIn then AnyOf else AllOf, if isIn then Eq else NEq, consts), row, env) ==
      if row(col).Null? then Unknown
      else if row(col) in consts then FromBool(isIn)
      else if Null in consts then Unknown
      else FromBool(!isIn)
  {
    assert consts[0] in consts;
    var op := if isIn then Eq else NEq;
    if row(col).Val? {
      assert forall d | d in consts ::
        CompareDatums(op, row(col), d) == if d.Null? then Unknown else FromBool((row(col) == d) == isIn);
    } else {
      assert forall d | d in consts :: CompareDatums(op, row(col), d).Unknown?;
    }
  }

  /** The interval prints as a NOT IN list with NULL in it. */
  predicate NotInWithNull(p: Interval, arrays: bool) {
    arrays && !ConvertsToIn(p.ranges) && ConvertsToNotIn(p.ranges) && p.includesNull
  }

  /**
   The SQL value of a printed interval on a datum.  A disjunction is exact on values.  IN with
   NULL listed is never FALSE, and NOT IN with NULL listed never TRUE; both are open on NULL.
   */
  ghost function PrintTruth(p: Interval, arrays: bool, d: Datum): Truth {
    if p.IsContradiction() then False
    else if !ArrayShape(p, arrays) then DisjunctionTruth(p, d)
    else if d.Null? then Unknown
    else if p.includesNull && p.Has(d) == !ConvertsToIn(p.ranges) then Unknown
    else FromBool(p.Has(d))
  }

  /** The printed expression has that SQL value on every row. */
  lemma PrintHasTruth(p: Interval, arrays: bool, row: Row, env: Env)
    requires p.Valid()
    ensures Eval(Print(p, arrays), row, env) == PrintTruth(p, arrays, row(p.col))
  {
    if p.IsContradiction() {
    } else if ArrayShape(p, arrays) {
      var isIn := ConvertsToIn(p.ranges);
      if isIn { PrintInMeaning(p, row); } else { PrintNotInMeaning(p, row); }
      PrintArrayTruth(p, isIn, row, env);
    } else {
      PrintDisjunctionMeaning(p, row, env, arrays);
    }
  }

  lemma PrintArrayTruth(p: Interval, isIn: bool, row: Row, env: Env)
    requires |p.ranges| > 1 && PrintsAs(PrintArray(p, isIn), p, row, true)
    requires Null !in RightEnds(p.ranges, if isIn then |p.ranges| else |p.ranges| - 1)
    ensures Eval(PrintArray(p, isIn), row, env) ==
      if row(p.col).Null? || (p.includesNull && p.Has(row(p.col)) == !isIn) then Unknown
      else FromBool(p.Has(row(p.col)))
  {
    var e := PrintArray(p, isIn);
    ArrayTruth(p.col, isIn, e.consts, row, env);
    assert forall d :: d in e.consts <==>
      d in RightEnds(p.ranges, if isIn then |p.ranges| else |p.ranges| - 1) || (d == Null && p.includesNull);
  }

  /**
   In SQL the printed expression is TRUE exactly on the rows of the interval - unless
   the interval holds NULL and prints as an array comparison, which lists NULL among
   the constants and is never TRUE on NULL.
   */
  lemma PrintIsSqlExactIff(p: Interval, arrays: bool)
    requires p.Valid()
    ensures (forall row: Row, env: Env :: Eval(Print(p, arrays), row, env).True? <==> p.Has(row(p.col)))
            <==> !(ArrayShape(p, arrays) && p.includesNull)
  {
    forall row: Row, env: Env ensures Eval(Print(p, arrays), row, env) == PrintTruth(p, arrays, row(p.col)) {
      PrintHasTruth(p, arrays, row, env);
    }
    if ArrayShape(p, arrays) && p.includesNull {
      var row: Row, env: Env := _ => Null, Env(_ => Unknown, _ => Null);
      assert p.Has(row(p.col)) && !Eval(Print(p, arrays), row, env).True?;
    }
  }
}
