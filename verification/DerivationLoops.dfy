/** The loops of the derivation: the AND and OR folds and the ranges of an array comparison. */
module DerivationLoops {
  import opened Options
  import opened Ranges
  import opened Intervals
  import opened IntervalLoops
  import opened SortedSets
  import opened Scalars
  import opened Derivation

  /** IN: [X, X] [Y, Y] ... */
  method InRanges(values: seq<real>) returns (ranges: seq<Range>)
    ensures ranges == PointRanges(values)
  {
    ranges := [];
    for k := 0 to |values|
      invariant ranges == PointRanges(values)[..k]
    {
      ranges := ranges + [CompareRange(Eq, values[k])];
    }
  }

  /** NOT IN: (-inf, X) (X, Y) ... (Z, inf) */
  method NotInRanges(values: seq<real>) returns (ranges: seq<Range>)
    requires |values| > 0
    ensures ranges == GapRanges(values)
  {
    ranges := [];
    var prev: Option<real> := None;
    for k := 0 to |values|
      invariant ranges == GapRanges(values)[..k]
      invariant prev == if k == 0 then None else Some(values[k - 1])
    {
      ranges := ranges + [Range(prev, Excluded, Some(values[k]), Excluded)];
      prev := Some(values[k]);
    }
    ranges := ranges + [Range(prev, Excluded, None, Excluded)];
  }

  method PcnstrIntervalFromScalarArrayCmp(col: Col, op: CmpType, consts: seq<Datum>) returns (res: Option<Interval>)
    requires |consts| > 0 ==> exists v :: Val(v) in consts
    ensures res == FromArrayCmp(col, op, consts)
  {
    if |consts| == 0 {
      return None;
    }
    var values, includesNull := BuildSortedSet(consts);
    var ranges;
    if op.Eq? {
      ranges := InRanges(values);
    } else if op.NEq? {
      ranges := NotInRanges(values);
    } else {
      return None;
    }
    res := Some(Interval(col, ranges, includesNull));
  }

  method PciIntervalFromScalarExpr(e: Expr, col: Col, arrays: bool) returns (res: Option<Interval>)
    requires e.WellFormed() && e.Columns() <= {col}
    ensures res == Parse(e, col, arrays)
    ensures res.Some? <==> Converts(e, arrays)
    ensures res.Some? ==> res.value.Normal()
    decreases e
  {
    ParseExact(e, col, arrays, _ => Null);
    match e {
      case IsNull(_) => res := Some(Interval(col, [], true));
      case And(es) => res := PciIntervalFromScalarBoolAnd(es, col, arrays);
      case Or(es) => res := PciIntervalFromScalarBoolOr(es, col, arrays);
      case Not(a) =>
        var child := PciIntervalFromScalarExpr(a, col, arrays);
        if child.None? {
          return None;
        }
        var complement := PciComplement(child.value);
        res := Some(complement);
      case Cmp(_, op, v) =>
        res := if op.IsDistinct? then None else Some(Interval(col, CompareRanges(op, v), false));
      case Const(t) => res := Some(if t.True? then Unbounded(col, true) else Interval(col, [], false));
      case ArrayCmp(_, _, op, consts) =>
        res := None;
        if arrays {
          res := PcnstrIntervalFromScalarArrayCmp(col, op, consts);
        }
      case TermCmp(_, _, _) => res := None;
      case Opaque(_, _) => res := None;
    }
  }

  method PciIntervalFromScalarBoolAnd(es: seq<Expr>, col: Col, arrays: bool) returns (res: Option<Interval>)
    requires And(es).WellFormed() && And(es).Columns() <= {col}
    ensures res == ParseAnd(es, |es|, col, arrays)
    decreases es
  {
    res := PciIntervalFromScalarExpr(es[0], col, arrays);
    for k := 1 to |es|
      invariant res == ParseAnd(es, k, col, arrays)
      invariant res.Some? ==> res.value.Normal()
    {
      var child := PciIntervalFromScalarExpr(es[k], col, arrays);
      if child.Some? && res.Some? {
        var both := PciIntersect(res.value, child.value);
        res := Some(both);
      } else if child.Some? {
        res := child;
      }
    }
  }

  method PciIntervalFromScalarBoolOr(es: seq<Expr>, col: Col, arrays: bool) returns (res: Option<Interval>)
    requires Or(es).WellFormed() && Or(es).Columns() <= {col}
    ensures res == ParseOr(es, |es|, col, arrays)
    decreases es
  {
    res := PciIntervalFromScalarExpr(es[0], col, arrays);
    if res.None? {
      OrStaysNone(es, 1, col, arrays);
      return;
    }
    for k := 1 to |es|
      invariant res == ParseOr(es, k, col, arrays)
      invariant res.Some? && res.value.Normal()
    {
      var child := PciIntervalFromScalarExpr(es[k], col, arrays);
      if child.None? {
        OrStaysNone(es, k + 1, col, arrays);
        return None;
      }
      var either := PciUnion(res.value, child.value);
      res := Some(either);
    }
  }

  /** Once a child of an OR has given no interval, the fold gives none. */
  lemma {:induction false} OrStaysNone(es: seq<Expr>, n: nat, col: Col, arrays: bool)
    requires 0 < n <= |es| && ParseOr(es, n, col, arrays).None?
    ensures ParseOr(es, |es|, col, arrays).None?
    decreases |es| - n
  {
    if n < |es| {
      OrStaysNone(es, n + 1, col, arrays);
    }
  }
}
