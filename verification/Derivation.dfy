/**
 From scalar expressions to intervals (the PciIntervalFrom... family of
 CConstraintInterval.cpp).
 */
module Derivation {
  import opened Options
  import opened Ranges
  import opened Intervals
  import opened SortedSets
  import opened Scalars

  // ----- Leaves

  /** The range of a comparison with a constant (the second constructor of CRange). */
  function CompareRange(op: CmpType, v: real): Range {
    match op
    case Eq => PointRange(v)
    case Less => Range(None, Excluded, Some(v), Excluded)
    case LessEq => Range(None, Excluded, Some(v), Included)
    case Greater => Range(Some(v), Excluded, None, Excluded)
    case GreaterEq => Range(Some(v), Included, None, Excluded)
    case _ => EVERYTHING
  }

  function CompareRanges(op: CmpType, v: real): seq<Range> {
    if op.NEq? || op.IsDistinct? then [CompareRange(Less, v), CompareRange(Greater, v)]
    else [CompareRange(op, v)]
  }

  lemma CompareRangesCorrect(op: CmpType, v: real)
    ensures Apart(CompareRanges(op, v))
    ensures forall x :: HasFrom(CompareRanges(op, v), 0, x) <==> Compare(op, x, v)
  {
    var rs := CompareRanges(op, v);
    forall x ensures HasFrom(rs, 0, x) <==> Compare(op, x, v) {
      assert rs[0].Has(x) ==> HasFrom(rs, 0, x);
      assert |rs| == 2 && rs[1].Has(x) ==> HasFrom(rs, 0, x);
    }
  }

  /** IN: one point for every value. */
  function PointRanges(vs: seq<real>): seq<Range> {
    seq(|vs|, k requires 0 <= k < |vs| => PointRange(vs[k]))
  }

  /** NOT IN: the open gap in front of value `k`, and, for `k` = |vs|, the one after the last value. */
  function Gap(vs: seq<real>, k: nat): Range
    requires k <= |vs|
  {
    Range(if k == 0 then None else Some(vs[k - 1]), Excluded, if k == |vs| then None else Some(vs[k]), Excluded)
  }

  function GapRanges(vs: seq<real>): seq<Range> {
    seq(|vs| + 1, k requires 0 <= k <= |vs| => Gap(vs, k))
  }

  lemma PointRangesCorrect(vs: seq<real>)
    requires Increasing(vs)
    ensures Apart(PointRanges(vs))
    ensures forall x :: HasFrom(PointRanges(vs), 0, x) <==> x in vs
  {
    var rs := PointRanges(vs);
    forall x ensures HasFrom(rs, 0, x) <==> x in vs {
      if x in vs {
        var k :| 0 <= k < |vs| && vs[k] == x;
        assert rs[k].Has(x);
      }
    }
  }

  /** The gap that a value outside the list falls into. */
  lemma {:induction false} FindGap(vs: seq<real>, n: nat, x: real) returns (k: nat)
    requires Increasing(vs) && n <= |vs| && x !in vs
    requires n == |vs| || x < vs[n]
    ensures k <= |vs| && Gap(vs, k).Has(x)
  {
    if n == 0 || vs[n - 1] < x {
      k := n;
    } else {
      assert vs[n - 1] in vs;
      k := FindGap(vs, n - 1, x);
    }
  }

  lemma GapRangesCorrect(vs: seq<real>)
    requires Increasing(vs)
    ensures Apart(GapRanges(vs))
    ensures forall x :: HasFrom(GapRanges(vs), 0, x) <==> x !in vs
  {
    var rs := GapRanges(vs);
    forall x ensures HasFrom(rs, 0, x) <==> x !in vs {
      if x !in vs {
        var k := FindGap(vs, |vs|, x);
        assert rs[k].Has(x);
      }
    }
  }

  /** The interval of an array comparison; which of ANY and ALL it is, is not looked at. */
  function FromArrayCmp(col: Col, op: CmpType, consts: seq<Datum>): Option<Interval> {
    if |consts| == 0 then None
    else if op.Eq? then Some(Interval(col, PointRanges(SortedSet(consts)), Null in consts))
    else if op.NEq? then Some(Interval(col, GapRanges(SortedSet(consts)), Null in consts))
    else None
  }

  // ----- Expressions

  /** AND: children that give no interval are dropped. */
  function Meet(p: Option<Interval>, q: Option<Interval>): Option<Interval> {
    if p.Some? && q.Some? then Some(Intersect(p.value, q.value))
    else if q.Some? then q
    else p
  }

  /** OR: a child that gives no interval spoils the whole. */
  function Join(p: Option<Interval>, q: Option<Interval>): Option<Interval> {
    if p.Some? && q.Some? then Some(Union(p.value, q.value)) else None
  }

  function Parse(e: Expr, col: Col, arrays: bool): Option<Interval>
    decreases e
  {
    match e
    case IsNull(_) => Some(Interval(col, [], true))
    case And(es) => ParseAnd(es, |es|, col, arrays)
    case Or(es) => ParseOr(es, |es|, col, arrays)
    case Not(a) =>
      var child := Parse(a, col, arrays);
      if child.None? then None else Some(Complement(child.value))
    case Cmp(_, op, v) => if op.IsDistinct? then None else Some(Interval(col, CompareRanges(op, v), false))
    case Const(t) => Some(if t.True? then Unbounded(col, true) else Interval(col, [], false))
    case ArrayCmp(_, _, op, consts) => if arrays then FromArrayCmp(col, op, consts) else None
    case TermCmp(_, _, _) => None
    case Opaque(_, _) => None
  }

  /** The AND fold over the first `n` children. */
  function ParseAnd(es: seq<Expr>, n: nat, col: Col, arrays: bool): Option<Interval>
    requires n <= |es|
    decreases es, n
  {
    if n == 0 then None
    else Meet(ParseAnd(es, n - 1, col, arrays), Parse(es[n - 1], col, arrays))
  }

  /** The OR fold over the first `n` children. */
  function ParseOr(es: seq<Expr>, n: nat, col: Col, arrays: bool): Option<Interval>
    requires n <= |es|
    decreases es, n
  {
    if n == 0 then None
    else if n == 1 then Parse(es[0], col, arrays)
    else Join(ParseOr(es, n - 1, col, arrays), Parse(es[n - 1], col, arrays))
  }

  /** `p` is in normal form, is on `col`, and has the datum at the row's column iff `meaning` holds. */
  ghost predicate Denotes(p: Interval, col: Col, row: Row, meaning: bool) {
    p.Normal() && p.col == col && (p.Has(row(col)) <==> meaning)
  }

  lemma MeetDenotes(p: Option<Interval>, q: Option<Interval>, col: Col, row: Row, m: bool, n: bool)
    requires p.Some? ==> Denotes(p.value, col, row, m)
    requires q.Some? ==> Denotes(q.value, col, row, n)
    ensures Meet(p, q).Some? <==> p.Some? || q.Some?
    ensures Meet(p, q).Some? ==> Denotes(Meet(p, q).value, col, row, (p.Some? ==> m) && (q.Some? ==> n))
  {
    if p.Some? && q.Some? { IntersectCorrect(p.value, q.value); }
  }

  lemma JoinDenotes(p: Option<Interval>, q: Option<Interval>, col: Col, row: Row, m: bool, n: bool)
    requires p.Some? ==> Denotes(p.value, col, row, m)
    requires q.Some? ==> Denotes(q.value, col, row, n)
    ensures Join(p, q).Some? <==> p.Some? && q.Some?
    ensures Join(p, q).Some? ==> Denotes(Join(p, q).value, col, row, m || n)
  {
    if p.Some? && q.Some? { UnionCorrect(p.value, q.value); }
  }

  /**
   The derivation is exact for the optimizer's reading: it gives an interval iff the
   expression is recognised, always in normal form, and a row's datum is in the
   interval iff the expression reads true on the row.
   */
  lemma {:induction false} ParseExact(e: Expr, col: Col, arrays: bool, row: Row)
    requires e.WellFormed() && e.Columns() <= {col}
    ensures Parse(e, col, arrays).Some? <==> Converts(e, arrays)
    ensures Parse(e, col, arrays).Some? ==> Denotes(Parse(e, col, arrays).value, col, row, Reads(e, row, arrays))
    decreases e
  {
    match e
    case And(es) =>
      ParseAndExact(es, |es|, col, arrays, row);
      assert es[..|es|] == es;
    case Or(es) =>
      ParseOrExact(es, |es|, col, arrays, row);
      assert es[..|es|] == es;
    case Not(a) =>
      ParseExact(a, col, arrays, row);
      if Converts(a, arrays) { ComplementCorrect(Parse(a, col, arrays).value); }
    case _ =>
      ParseLeafExact(e, col, arrays, row);
  }

  lemma ParseLeafExact(e: Expr, col: Col, arrays: bool, row: Row)
    requires e.WellFormed() && e.Columns() <= {col}
    requires !e.And? && !e.Or? && !e.Not?
    ensures Parse(e, col, arrays).Some? <==> Converts(e, arrays)
    ensures Parse(e, col, arrays).Some? ==> Denotes(Parse(e, col, arrays).value, col, row, Reads(e, row, arrays))
  {
    match e
    case Cmp(c, op, v) =>
      assert c in e.Columns();
      FromCmpExact(col, op, v);
    case IsNull(c) =>
      assert c in e.Columns();
    case ArrayCmp(c, _, op, consts) =>
      assert c in e.Columns();
      FromArrayCmpExact(col, op, consts);
    case Const(t) =>
      UnboundedCorrect(col, true);
    case TermCmp(_, _, _) =>
    case Opaque(_, _) =>
  }

  lemma FromCmpExact(col: Col, op: CmpType, v: real)
    ensures var p := Interval(col, CompareRanges(op, v), false);
            p.Normal() && forall d :: p.Has(d) <==> d.Val? && Compare(op, d.v, v)
  {
    CompareRangesCorrect(op, v);
  }

  /** The interval of an array: its ranges are (not) the listed values, and NULL is in it iff NULL is listed. */
  lemma FromArrayCmpExact(col: Col, op: CmpType, consts: seq<Datum>)
    ensures FromArrayCmp(col, op, consts).Some? <==> |consts| > 0 && (op.Eq? || op.NEq?)
    ensures FromArrayCmp(col, op, consts).Some? ==>
              var p := FromArrayCmp(col, op, consts).value;
              && p.Normal() && p.col == col
              && forall d :: p.Has(d) <==> if d.Null? || op.Eq? then d in consts else d !in consts
  {
    SortedSetCorrect(consts);
    PointRangesCorrect(SortedSet(consts));
    GapRangesCorrect(SortedSet(consts));
  }

  lemma PrefixStep(es: seq<Expr>, n: nat, row: Row, arrays: bool)
    requires 0 < n <= |es|
    ensures var a, before, now := es[n - 1], es[..n - 1], es[..n];
            && ((exists b | b in now :: Converts(b, arrays)) <==>
              (exists b | b in before :: Converts(b, arrays)) || Converts(a, arrays))
            && ((forall b | b in now :: Converts(b, arrays)) <==>
              (forall b | b in before :: Converts(b, arrays)) && Converts(a, arrays))
            && ((exists b | b in now :: Reads(b, row, arrays)) <==>
              (exists b | b in before :: Reads(b, row, arrays)) || Reads(a, row, arrays))
            && (ReadsAll(now, row, arrays) <==>
              ReadsAll(before, row, arrays) && (Converts(a, arrays) ==> Reads(a, row, arrays)))
  {
    assert es[..n] == es[..n - 1] + [es[n - 1]];
  }

  ghost predicate ReadsAll(es: seq<Expr>, row: Row, arrays: bool) {
    forall a | a in es :: Converts(a, arrays) ==> Reads(a, row, arrays)
  }

  lemma {:induction false} ParseAndExact(es: seq<Expr>, n: nat, col: Col, arrays: bool, row: Row)
    requires n <= |es| && forall a | a in es :: a.WellFormed() && a.Columns() <= {col}
    ensures var p := ParseAnd(es, n, col, arrays);
            && (p.Some? <==> exists a | a in es[..n] :: Converts(a, arrays))
            && (p.Some? ==> Denotes(p.value, col, row, ReadsAll(es[..n], row, arrays)))
    decreases es, n
  {
    if n > 0 {
      var a := es[n - 1];
      assert a in es;
      ParseAndExact(es, n - 1, col, arrays, row);
      ParseExact(a, col, arrays, row);
      MeetDenotes(ParseAnd(es, n - 1, col, arrays), Parse(a, col, arrays), col, row,
                  ReadsAll(es[..n - 1], row, arrays), Reads(a, row, arrays));
      PrefixStep(es, n, row, arrays);
    }
  }

  lemma {:induction false} ParseOrExact(es: seq<Expr>, n: nat, col: Col, arrays: bool, row: Row)
    requires 0 < n <= |es| && forall a | a in es :: a.WellFormed() && a.Columns() <= {col}
    ensures var p := ParseOr(es, n, col, arrays);
            && (p.Some? <==> forall a | a in es[..n] :: Converts(a, arrays))
            && (p.Some? ==> Denotes(p.value, col, row, exists a | a in es[..n] :: Reads(a, row, arrays)))
    decreases es, n
  {
    var a := es[n - 1];
    assert a in es;
    ParseExact(a, col, arrays, row);
    PrefixStep(es, n, row, arrays);
    if n > 1 {
      ParseOrExact(es, n - 1, col, arrays, row);
      JoinDenotes(ParseOr(es, n - 1, col, arrays), Parse(a, col, arrays), col, row,
                  exists b | b in es[..n - 1] :: Reads(b, row, arrays), Reads(a, row, arrays));
    }
  }

  // ----- What is derived, in terms of the parts

  /** Whether a well-formed expression on the column gives an interval, and if so whether that has the datum. */
  ghost predicate Gives(e: Expr, col: Col, arrays: bool) {
    Parse(e, col, arrays).Some?
  }

  ghost predicate GivesWith(e: Expr, col: Col, arrays: bool, d: Datum) {
    Gives(e, col, arrays) && Parse(e, col, arrays).value.Has(d)
  }

  /** An AND needs one child that gives an interval, and means all that do; an OR needs all, and means some. */
  lemma NodesGive(es: seq<Expr>, col: Col, arrays: bool, d: Datum)
    requires |es| > 0 && forall a | a in es :: a.WellFormed() && a.Columns() <= {col}
    ensures Gives(And(es), col, arrays) <==> exists a | a in es :: Gives(a, col, arrays)
    ensures Gives(And(es), col, arrays) ==>
      (GivesWith(And(es), col, arrays, d) <==>
        forall a | a in es && Gives(a, col, arrays) :: GivesWith(a, col, arrays, d))
    ensures Gives(Or(es), col, arrays) <==> forall a | a in es :: Gives(a, col, arrays)
    ensures Gives(Or(es), col, arrays) ==>
      (GivesWith(Or(es), col, arrays, d) <==> exists a | a in es :: GivesWith(a, col, arrays, d))
  {
    var row: Row := (k: Col) => d;
    forall a | a in es
      ensures Gives(a, col, arrays) <==> Converts(a, arrays)
      ensures Gives(a, col, arrays) ==> (GivesWith(a, col, arrays, d) <==> Reads(a, row, arrays))
    {
      ParseExact(a, col, arrays, row);
    }
    ParseExact(And(es), col, arrays, row);
    ParseExact(Or(es), col, arrays, row);
  }

  lemma NotGives(a: Expr, col: Col, arrays: bool, d: Datum)
    requires a.WellFormed() && a.Columns() <= {col}
    ensures Gives(Not(a), col, arrays) <==> Gives(a, col, arrays)
    ensures Gives(a, col, arrays) ==> (GivesWith(Not(a), col, arrays, d) <==> !GivesWith(a, col, arrays, d))
  {
    var row: Row := (k: Col) => d;
    ParseExact(a, col, arrays, row);
    ParseExact(Not(a), col, arrays, row);
  }

  /** Comparisons with constants, NULL tests and constants give what they say; arrays need the flag, and = or <>. */
  lemma LeavesGive(e: Expr, col: Col, arrays: bool, d: Datum)
    requires e.WellFormed() && e.Columns() <= {col}
    ensures e.Const? ==> Gives(e, col, arrays) && (GivesWith(e, col, arrays, d) <==> e.value.True?)
    ensures e.IsNull? ==> Gives(e, col, arrays) && (GivesWith(e, col, arrays, d) <==> d.Null?)
    ensures e.Cmp? ==>
      && (Gives(e, col, arrays) <==> !e.op.IsDistinct?)
      && (Gives(e, col, arrays) ==> (GivesWith(e, col, arrays, d) <==> d.Val? && Compare(e.op, d.v, e.const_)))
    ensures e.ArrayCmp? ==>
      && (Gives(e, col, arrays) <==> arrays && |e.consts| > 0 && (e.op.Eq? || e.op.NEq?))
      && (Gives(e, col, arrays) ==> (GivesWith(e, col, arrays, d) <==>
        if d.Null? then Null in e.consts else if e.op.Eq? then d in e.consts else d !in e.consts))
    ensures e.TermCmp? || e.Opaque? ==> !Gives(e, col, arrays)
  {
    var row: Row := (k: Col) => d;
    ParseExact(e, col, arrays, row);
  }

  // ----- The derivation against SQL

  /** Every leaf means in SQL what the optimizer reads. */
  ghost predicate Exact(e: Expr) {
    match e
    case Const(t) => !t.Unknown?
    case Cmp(_, op, _) => !op.IsDistinct?
    case IsNull(_) => true
    case ArrayCmp(_, quantifier, op, consts) => Null !in consts && QuantifierFits(quantifier, op)
    case And(es) => forall a | a in es :: Exact(a)
    case Or(es) => forall a | a in es :: Exact(a)
    case Not(a) => Exact(a)
    case TermCmp(_, _, _) => false
    case Opaque(_, _) => false
  }

  /** = ANY is IN, <> ALL is NOT IN. */
  predicate QuantifierFits(quantifier: Quantifier, op: CmpType) {
    (quantifier.AnyOf? && op.Eq?) || (quantifier.AllOf? && op.NEq?)
  }

  /** Every leaf is recognised. */
  predicate FullyConverts(e: Expr, arrays: bool) {
    match e
    case And(es) => forall a | a in es :: FullyConverts(a, arrays)
    case Or(es) => forall a | a in es :: FullyConverts(a, arrays)
    case Not(a) => FullyConverts(a, arrays)
    case _ => Converts(e, arrays)
  }

  lemma FullyConvertsConverts(e: Expr, arrays: bool)
    requires e.WellFormed() && FullyConverts(e, arrays)
    ensures Converts(e, arrays)
  {
    match e
    case And(es) => assert es[0] in es; FullyConvertsConverts(es[0], arrays);
    case Or(es) => forall a | a in es { FullyConvertsConverts(a, arrays); }
    case Not(a) => FullyConvertsConverts(a, arrays);
    case _ =>
  }

  /** What `ExactReads` says of a child `a` of `e`. */
  ghost predicate ReadsFaithfully(a: Expr, e: Expr, row: Row, env: Env, arrays: bool) {
    && (Eval(a, row, env).True? ==> Reads(a, row, arrays))
    && (Eval(a, row, env).False? ==> !Reads(a, row, arrays))
    && ((forall c | c in e.Columns() :: row(c).Val?) ==> !Eval(a, row, env).Unknown?)
  }

  /** Reading is faithful: TRUE reads true, FALSE reads false, and UNKNOWN needs a NULL. */
  lemma {:induction false} ExactReads(e: Expr, row: Row, env: Env, arrays: bool)
    requires e.WellFormed() && Exact(e) && FullyConverts(e, arrays)
    ensures Eval(e, row, env).True? ==> Reads(e, row, arrays)
    ensures Eval(e, row, env).False? ==> !Reads(e, row, arrays)
    ensures (forall c | c in e.Columns() :: row(c).Val?) ==> !Eval(e, row, env).Unknown?
  {
    match e
    case And(es) =>
      forall a | a in es
        ensures Converts(a, arrays) && ReadsFaithfully(a, e, row, env, arrays)
      {
        ExactReads(a, row, env, arrays);
        FullyConvertsConverts(a, arrays);
        assert a.Columns() <= e.Columns();
      }
      assert es[0] in es;
    case Or(es) =>
      forall a | a in es
        ensures ReadsFaithfully(a, e, row, env, arrays)
      {
        ExactReads(a, row, env, arrays);
        assert a.Columns() <= e.Columns();
      }
    case Not(a) =>
      ExactReads(a, row, env, arrays);
      assert a.Columns() <= e.Columns();
    case Cmp(c, _, _) =>
      assert c in e.Columns();
    case ArrayCmp(c, quantifier, op, consts) =>
      assert c in e.Columns();
      ExactArrayReads(c, quantifier, op, consts, row, env, arrays);
    case _ =>
  }

  lemma ExactArrayReads(
    c: Col, quantifier: Quantifier, op: CmpType, consts: seq<Datum>, row: Row, env: Env, arrays: bool)
    requires Null !in consts && QuantifierFits(quantifier, op) && |consts| > 0
    ensures var e := ArrayCmp(c, quantifier, op, consts);
            && (Eval(e, row, env).True? <==> Reads(e, row, arrays) && row(c).Val?)
            && (Eval(e, row, env).Unknown? <==> row(c).Null?)
            && (row(c).Null? ==> !Reads(e, row, arrays))
  {
    assert consts[0] in consts;
    if row(c).Val? {
      assert forall d | d in consts ::
        CompareDatums(op, row(c), d) == FromBool(if op.Eq? then row(c) == d else row(c) != d);
    } else {
      assert forall d | d in consts :: CompareDatums(op, row(c), d).Unknown?;
    }
  }

  /**
   The SQL theorem: for an exact, fully recognised expression on one column, a value
   that is not NULL is in the derived interval iff the expression is TRUE on it, and
   NULL is in it whenever the expression is TRUE on NULL.
   */
  lemma ParseIsSqlExact(e: Expr, col: Col, arrays: bool, row: Row, env: Env)
    requires e.WellFormed() && e.Columns() <= {col} && Exact(e) && FullyConverts(e, arrays)
    ensures Parse(e, col, arrays).Some?
    ensures row(col).Val? ==> (Parse(e, col, arrays).value.Has(row(col)) <==> Eval(e, row, env).True?)
    ensures Eval(e, row, env).True? ==> Parse(e, col, arrays).value.Has(row(col))
  {
    FullyConvertsConverts(e, arrays);
    ParseExact(e, col, arrays, row);
    ExactReads(e, row, env, arrays);
  }

  /** All the constants that are not NULL are the same. */
  predicate OneValue(consts: seq<Datum>) {
    forall c, d | c in consts && d in consts && c.Val? && d.Val? :: c == d
  }

  /**
   Where may parts be unrecognised, or read differently?  `Widens` says where that only adds
   rows, `Narrows` where it only takes rows away; NOT swaps the two.  Dropping a child of an
   AND widens.  So does reading = ALL as = ANY, and reading <> ANY as <> ALL narrows.
   */
  predicate Widens(e: Expr, arrays: bool) {
    match e
    case ArrayCmp(_, quantifier, op, consts) => quantifier.AllOf? || !op.NEq? || OneValue(consts)
    case And(es) => forall a | a in es && Converts(a, arrays) :: Widens(a, arrays)
    case Or(es) => forall a | a in es :: Widens(a, arrays)
    case Not(a) => Narrows(a, arrays)
    case _ => true
  }

  predicate Narrows(e: Expr, arrays: bool) {
    match e
    case ArrayCmp(_, quantifier, op, consts) => quantifier.AnyOf? || !op.Eq? || OneValue(consts)
    case And(es) => forall a | a in es :: Converts(a, arrays) && Narrows(a, arrays)
    case Or(es) => forall a | a in es :: Narrows(a, arrays)
    case Not(a) => Widens(a, arrays)
    case _ => true
  }

  /**
   A recognised expression that widens reads true where it is TRUE; one that narrows reads false
   where it is FALSE.
   */
  lemma {:induction false} PolarityReads(e: Expr, row: Row, env: Env, arrays: bool)
    requires e.WellFormed() && Converts(e, arrays)
    ensures Widens(e, arrays) && Eval(e, row, env).True? ==> Reads(e, row, arrays)
    ensures Narrows(e, arrays) && Eval(e, row, env).False? ==> !Reads(e, row, arrays)
  {
    match e
    case And(es) =>
      forall a | a in es && Converts(a, arrays) ensures ReadsAsPolarity(a, row, env, arrays) {
        PolarityReads(a, row, env, arrays);
      }
    case Or(es) =>
      forall a | a in es ensures ReadsAsPolarity(a, row, env, arrays) {
        PolarityReads(a, row, env, arrays);
      }
    case Not(a) =>
      PolarityReads(a, row, env, arrays);
    case ArrayCmp(c, quantifier, op, consts) =>
      ArrayPolarity(c, quantifier, op, consts, row, env, arrays);
    case _ =>
  }

  ghost predicate ReadsAsPolarity(e: Expr, row: Row, env: Env, arrays: bool) {
    && (Widens(e, arrays) && Eval(e, row, env).True? ==> Reads(e, row, arrays))
    && (Narrows(e, arrays) && Eval(e, row, env).False? ==> !Reads(e, row, arrays))
  }

  lemma ArrayPolarity(c: Col, quantifier: Quantifier, op: CmpType, consts: seq<Datum>, row: Row, env: Env, arrays: bool)
    requires |consts| > 0 && (op.Eq? || op.NEq?)
    ensures ReadsAsPolarity(ArrayCmp(c, quantifier, op, consts), row, env, arrays)
  {
    var e := ArrayCmp(c, quantifier, op, consts);
    assert consts[0] in consts;
    if row(c).Val? {
      assert forall d | d in consts ::
        CompareDatums(op, row(c), d) == if d.Null? then Unknown else FromBool((row(c) == d) == op.Eq?);
    } else {
      assert forall d | d in consts :: CompareDatums(op, row(c), d).Unknown?;
    }
  }

  /** What only widens keeps every datum on which the expression is TRUE in the interval. */
  lemma ParseOverApproximates(e: Expr, col: Col, arrays: bool, row: Row, env: Env)
    requires e.WellFormed() && e.Columns() <= {col} && Widens(e, arrays)
    requires Parse(e, col, arrays).Some? && Eval(e, row, env).True?
    ensures Parse(e, col, arrays).value.Has(row(col))
  {
    ParseExact(e, col, arrays, row);
    PolarityReads(e, row, env, arrays);
  }

  /** What only narrows keeps every datum on which the expression is FALSE out of the interval. */
  lemma ParseUnderApproximates(e: Expr, col: Col, arrays: bool, row: Row, env: Env)
    requires e.WellFormed() && e.Columns() <= {col} && Narrows(e, arrays)
    requires Parse(e, col, arrays).Some? && Eval(e, row, env).False?
    ensures !Parse(e, col, arrays).value.Has(row(col))
  {
    ParseExact(e, col, arrays, row);
    PolarityReads(e, row, env, arrays);
  }

  /**
   A NOT above an AND with children that are dropped loses every row on which a dropped child is
   FALSE and all the others read true, although the expression is TRUE there - and, where the
   others only narrow, no row but those.
   */
  lemma NotOverDroppedChildLoses(es: seq<Expr>, col: Col, arrays: bool, row: Row, env: Env)
    requires And(es).WellFormed() && And(es).Columns() <= {col} && Converts(And(es), arrays)
    ensures Parse(Not(And(es)), col, arrays).Some?
    ensures var lost := Eval(Not(And(es)), row, env).True? && !Parse(Not(And(es)), col, arrays).value.Has(row(col));
      && (DroppedIsFalse(es, arrays, row, env) && KeptRead(es, arrays, row) ==> lost)
      && (KeptNarrow(es, arrays) ==> (lost ==> DroppedIsFalse(es, arrays, row, env) && KeptRead(es, arrays, row)))
  {
    var e := And(es);
    assert Converts(Not(e), arrays) && Reads(Not(e), row, arrays) == !Reads(e, row, arrays);
    ParseExact(Not(e), col, arrays, row);
    if DroppedIsFalse(es, arrays, row, env) {
      var f :| f in es && !Converts(f, arrays) && Eval(f, row, env).False?;
      AndIsFalse(es, f, row, env);
    }
    if Eval(e, row, env).False? && KeptRead(es, arrays, row) && KeptNarrow(es, arrays) {
      var f :| f in es && Eval(f, row, env).False?;
      if Converts(f, arrays) { PolarityReads(f, row, env, arrays); }
    }
  }

  ghost predicate DroppedIsFalse(es: seq<Expr>, arrays: bool, row: Row, env: Env) {
    exists f | f in es && !Converts(f, arrays) :: Eval(f, row, env).False?
  }

  ghost predicate KeptNarrow(es: seq<Expr>, arrays: bool) {
    forall a | a in es && Converts(a, arrays) :: Narrows(a, arrays)
  }

  ghost predicate KeptRead(es: seq<Expr>, arrays: bool, row: Row) {
    forall a | a in es && Converts(a, arrays) :: Reads(a, row, arrays)
  }

  lemma AndIsFalse(es: seq<Expr>, e: Expr, row: Row, env: Env)
    requires e in es && Eval(e, row, env).False?
    ensures Eval(And(es), row, env).False?
  {
  }

  /**
   The quantifier of an array comparison is ignored.  For arrays without NULL that is
   right exactly for = ANY, for <> ALL, and when all the listed values are the same.
   */
  lemma ArrayQuantifierIgnored(col: Col, quantifier: Quantifier, op: CmpType, consts: seq<Datum>, env: Env)
    requires |consts| > 0 && Null !in consts && (op.Eq? || op.NEq?)
    ensures (forall row: Row | row(col).Val? ::
               Parse(ArrayCmp(col, quantifier, op, consts), col, true).value.Has(row(col)) <==>
               Eval(ArrayCmp(col, quantifier, op, consts), row, env).True?)
            <==> QuantifierFits(quantifier, op) || forall c, d | c in consts && d in consts :: c == d
  {
    var e := ArrayCmp(col, quantifier, op, consts);
    assert consts[0] in consts && consts[0] == Val(consts[0].v);
    if QuantifierFits(quantifier, op) {
      forall row: Row | row(col).Val?
        ensures Parse(e, col, true).value.Has(row(col)) <==> Eval(e, row, env).True?
      {
        ParseIsSqlExact(e, col, true, row, env);
      }
    } else if forall c, d | c in consts && d in consts :: c == d {
      forall row: Row | row(col).Val?
        ensures Parse(e, col, true).value.Has(row(col)) <==> Eval(e, row, env).True?
      {
        OneConstantIgnoresQuantifier(col, quantifier, op, consts, row, env);
      }
    } else {
      var c, d :| c in consts && d in consts && c != d;
      var row := WrongQuantifierDiffers(col, quantifier, op, consts, c, d, env);
    }
  }

  lemma OneConstantIgnoresQuantifier(
    col: Col, quantifier: Quantifier, op: CmpType, consts: seq<Datum>, row: Row, env: Env)
    requires |consts| > 0 && Null !in consts && (op.Eq? || op.NEq?) && row(col).Val?
    requires forall c, d | c in consts && d in consts :: c == d
    ensures var e := ArrayCmp(col, quantifier, op, consts);
            Parse(e, col, true).Some? && (Parse(e, col, true).value.Has(row(col)) <==> Eval(e, row, env).True?)
  {
    var c := consts[0];
    assert c in consts && c == Val(c.v);
    ParseLeafExact(ArrayCmp(col, quantifier, op, consts), col, true, row);
    assert forall d | d in consts :: CompareDatums(op, row(col), d) == CompareDatums(op, row(col), c);
  }

  /** On either of two distinct listed values the wrong quantifier gives the wrong answer. */
  lemma WrongQuantifierDiffers(
    col: Col, quantifier: Quantifier, op: CmpType, consts: seq<Datum>, c: Datum, d: Datum, env: Env)
    returns (row: Row)
    requires |consts| > 0 && Null !in consts && (op.Eq? || op.NEq?) && !QuantifierFits(quantifier, op)
    requires c in consts && d in consts && c != d
    ensures row(col).Val?
    ensures var e := ArrayCmp(col, quantifier, op, consts);
            Parse(e, col, true).Some? && (Parse(e, col, true).value.Has(row(col)) <==> !Eval(e, row, env).True?)
  {
    row := _ => c;
    assert c == Val(c.v);
    ParseLeafExact(ArrayCmp(col, quantifier, op, consts), col, true, row);
    assert CompareDatums(op, row(col), c) == FromBool(op.Eq?);
    assert CompareDatums(op, row(col), d) == FromBool(op.NEq?);
  }
}
