/**
 The code that derives constraints from scalar expressions (CConstraint.cpp), and what is
 inferred in the end from a predicate.
 */
module ScalarConstraintLoops {
  import opened Options
  import opened Intervals
  import opened Scalars
  import opened Constraints
  import opened EquivClasses
  import opened ScalarConstraints
  import opened Printing
  import opened Projections
  import opened ImpliedPredicates
  import ConstraintLoops
  import DerivationLoops

  /** An array comparison spelled out, one interval for every constant. */
  method PcnstrFromScalarArrayCmp(col: Col, quantifier: Quantifier, op: CmpType, consts: seq<Datum>, s: Settings)
    returns (c: Option<Constraint>)
    requires |consts| <= s.threshold ==> |consts| > 0 && Null !in consts
    ensures c == FromArray(col, quantifier, op, consts, s)
    ensures c.Some? ==> c.value.Built()
  {
    if |consts| > s.threshold {
      return None;
    }
    CompareLeavesAre(col, op, consts);
    MakeCorrect(CompareLeaves(col, op, consts), quantifier.AllOf?, s.arrays);
    var cs: seq<Constraint> := [];
    for k := 0 to |consts|
      invariant cs == CompareLeaves(col, op, consts[..k])
    {
      assert consts[..k + 1][..k] == consts[..k] && consts[k] in consts;
      cs := cs + [CompareLeaf(col, op, consts[k])];
    }
    assert consts[..|consts|] == consts;
    var node := ConstraintLoops.NewNode(cs, quantifier.AllOf?, s.arrays);
    c := Some(node);
  }

  method PcnstrFromScalarExpr(e: Expr, s: Settings) returns (d: Option<Derived>)
    requires e.WellFormed() && ListsUsable(e, s)
    ensures d == FromScalar(e, s)
    decreases e, 1
  {
    var cols := e.Columns();
    if |cols| == 0 {
      return None;
    }
    if |cols| == 1 {
      OneColumnIsFirst(cols, FirstColumn(cols));
      d := PcnstrFromOneColumn(e, FirstColumn(cols), s);
      return;
    }
    match e {
      case And(es) => d := PcnstrFromScalarBoolOp(e, es, AndOp, s);
      case Or(es) => d := PcnstrFromScalarBoolOp(e, es, OrOp, s);
      case Not(a) =>
        d := PcnstrFromScalarBoolOp(e, [a], NotOp, s);
      case TermCmp(Ident(l), op, Ident(r)) => d := if op.IsDistinct? then None else Some(FromIdents(l, op, r, s));
      case _ => d := None;
    }
  }

  method PcnstrFromOneColumn(e: Expr, col: Col, s: Settings) returns (d: Option<Derived>)
    requires e.WellFormed() && ListsUsable(e, s) && e.Columns() == {col}
    ensures d == FromOneColumn(e, col, s)
  {
    var p := DerivationLoops.PciIntervalFromScalarExpr(e, col, s.arrays);
    if p.Some? {
      return Some(Derived(Leaf(p.value), [{col}]));
    }
    d := None;
    if e.ArrayCmp? {
      var c := PcnstrFromScalarArrayCmp(col, e.quantifier, e.op, e.consts, s);
      if c.Some? {
        d := Some(Derived(c.value, [{col}]));
      }
    }
  }

  /** The loop over the children. */
  method PcnstrFromScalarBoolOp(e: Expr, es: seq<Expr>, kind: BoolKind, s: Settings) returns (d: Option<Derived>)
    requires forall a | a in es :: a.WellFormed() && ListsUsable(a, s) && a < e
    ensures d == Finish(FromChildren(es, |es|, kind, s), kind, s)
    decreases e, 0
  {
    var cs: seq<Constraint>, classes: Classes := [], [];
    for k := 0 to |es|
      invariant FromChildren(es, k, kind, s) == Some(Children(cs, classes))
      invariant kind.OrOp? ==> classes == []
    {
      assert es[k] in es;
      var child := PcnstrFromScalarExpr(es[k], s);
      DerivedDisjoint(es[k], s);
      var stop;
      stop, cs, classes := TakeChild(cs, classes, child, kind);
      OneMoreTurn(es, k, kind, s);
      if stop {
        StaysNone(es, k + 1, kind, s);
        return None;
      }
    }
    d := BuildBoolOp(cs, classes, kind, s);
  }

  lemma DerivedDisjoint(e: Expr, s: Settings)
    requires e.WellFormed()
    ensures FromScalar(e, s).Some? ==> Disjoint(FromScalar(e, s).value.classes)
  {
    if FromScalar(e, s).Some? { FromScalarShape(e, s); }
  }

  lemma OneMoreTurn(es: seq<Expr>, k: nat, kind: BoolKind, s: Settings)
    requires k < |es| && forall e | e in es :: e.WellFormed()
    ensures FromChildren(es, k + 1, kind, s) == AddChild(FromChildren(es, k, kind, s), FromScalar(es[k], s), kind)
  {
  }

  /** A child that says nothing is skipped, but stops the loop of an OR. */
  method TakeChild(cs: seq<Constraint>, classes: Classes, child: Option<Derived>, kind: BoolKind)
    returns (stop: bool, cs': seq<Constraint>, classes': Classes)
    requires AllBuilt(cs) && (kind.OrOp? ==> classes == [])
    requires child.Some? ==> child.value.constraint.Built() && Disjoint(child.value.classes)
    ensures AddChild(Some(Children(cs, classes)), child, kind) == if stop then None else Some(Children(cs', classes'))
    ensures kind.OrOp? ==> classes' == []
  {
    stop, cs', classes' := false, cs, classes;
    if child.None? || child.value.constraint.IsUnbounded() {
      stop := kind.OrOp?;
      return;
    }
    cs' := cs + [child.value.constraint];
    classes' := PdrgpcrsMergeFromBoolOp(kind, classes, child.value.classes);
  }

  method BuildBoolOp(cs: seq<Constraint>, classes: Classes, kind: BoolKind, s: Settings) returns (d: Option<Derived>)
    requires AllBuilt(cs)
    ensures d == Finish(Some(Children(cs, classes)), kind, s)
  {
    if |cs| == 0 {
      return None;
    }
    assert cs[0] in cs;
    if |cs| == 1 {
      return Some(Derived(if kind.NotOp? then Negation(cs[0]) else cs[0], classes));
    }
    if kind.NotOp? {
      return None;
    }
    var node := ConstraintLoops.NewNode(cs, kind.AndOp?, s.arrays);
    d := Some(Derived(node, classes));
  }

  lemma {:induction false} StaysNone(es: seq<Expr>, n: nat, kind: BoolKind, s: Settings)
    requires n <= |es| && (forall e | e in es :: e.WellFormed()) && FromChildren(es, n, kind, s).None?
    ensures FromChildren(es, |es|, kind, s).None?
    decreases |es| - n
  {
    if n < |es| {
      StaysNone(es, n + 1, kind, s);
    }
  }

  method PdrgpcrsMergeFromBoolOp(kind: BoolKind, first: Classes, second: Classes) returns (res: Classes)
    requires kind.OrOp? ==> Disjoint(first) && Disjoint(second)
    ensures res == MergeFromBoolOp(kind, first, second)
  {
    match kind {
      case AndOp => res := PdrgpcrsMergeEquivClasses(first, second);
      case OrOp => res := PdrgpcrsIntersectEquivClasses(first, second);
      case NotOp => res := [];
    }
  }

  // ----- From a predicate to what it implies

  /**
   From a predicate over any columns to what it implies on a column of a derived class: on every
   row on which the predicate is TRUE, the implied predicate is TRUE exactly if its interval does
   not print as NOT IN with NULL listed - which it never does with array constraints off.
   */
  lemma InferredIsTrue(e: Expr, s: Settings, k: nat, col: Col, row: Row, env: Env)
    requires e.WellFormed() && ListsUsable(e, s) && ScalarWidens(e, s) && NoWideNot(e) && Eval(e, row, env).True?
    requires FromScalar(e, s).Some? && k < |FromScalar(e, s).value.classes| && col in FromScalar(e, s).value.classes[k]
    requires Inferred(FromScalar(e, s).value, k, col, s).Some?
    ensures var d := FromScalar(e, s).value;
      var q := ImpliedInterval(d.constraint, d.classes[k], col, s.arrays);
      && q.Some?
      && (Eval(Inferred(d, k, col, s).value, row, env).True? <==> !NotInWithNull(q.value, s.arrays))
      && (!s.arrays ==> Eval(Inferred(d, k, col, s).value, row, env).True?)
  {
    var d := FromScalar(e, s).value;
    FromScalarSound(e, s, row, env);
    FromScalarNegationFree(e, s);
    assert d.classes[k] in d.classes;
    EquatesAgree(d.classes[k], col, row);
    ImpliedIsTrueIff(d.constraint, d.classes[k], col, s.arrays, row, env);
  }

  /**
   The same for every predicate, with NOTs anywhere: what is inferred reads true exactly if the
   derived constraint holds with all that does not mention the class's other columns left out.
   With array constraints off that is also exactly when it is TRUE in SQL.
   */
  lemma InferredReadsIff(e: Expr, s: Settings, k: nat, col: Col, row: Row, env: Env)
    requires e.WellFormed() && ListsUsable(e, s) && ScalarWidens(e, s) && Eval(e, row, env).True?
    requires FromScalar(e, s).Some? && k < |FromScalar(e, s).value.classes| && col in FromScalar(e, s).value.classes[k]
    requires Inferred(FromScalar(e, s).value, k, col, s).Some?
    ensures var d := FromScalar(e, s).value;
      var p, holds := Inferred(d, k, col, s).value, HoldsOn(d.constraint, d.classes[k] - {col}, row);
      && d.constraint.Sat(row) && p.Columns() <= {col}
      && (Reads(p, row, s.arrays) <==> holds)
      && (!s.arrays ==> Eval(p, row, env) == FromBool(holds))
      && (WidensOn(d.constraint, d.classes[k] - {col}) ==> holds)
  {
    var d := FromScalar(e, s).value;
    FromScalarSound(e, s, row, env);
    assert d.classes[k] in d.classes;
    EquatesAgree(d.classes[k], col, row);
    ImpliedReadsIff(d.constraint, d.classes[k], col, s.arrays, row);
    ImpliedIsHoldsOn(d.constraint, d.classes[k], col, s.arrays, row, env);
    HoldsOnPolarity(d.constraint, d.classes[k] - {col}, row);
  }

  /** What a derived constraint and its classes imply on a column of the `k`-th class. */
  function Inferred(d: Derived, k: nat, col: Col, s: Settings): Option<Expr>
    requires d.constraint.Built() && k < |d.classes|
  {
    Implied(Some(d.constraint), Some(d.classes[k]), col, s.arrays)
  }

  /** In a class of at least two columns that are equal and not NULL, all hold one datum that is not NULL. */
  lemma EquatesAgree(cls: set<Col>, col: Col, row: Row)
    requires col in cls && |cls| != 1 && Equates(cls, row)
    ensures Agree(cls, row) && row(col).Val?
  {
    var others := cls - {col};
    assert |others| == |cls| - 1;
    var c :| c in others;
    assert row(col) == row(c) && row(col).Val?;
  }
}
