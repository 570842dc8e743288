/**
 From a scalar expression over any columns to a constraint and the classes of columns the
 expression makes equal (CConstraint.cpp).
 */
module ScalarConstraints {
  import opened Options
  import opened Intervals
  import opened Scalars
  import opened Derivation
  import opened Constraints
  import opened EquivClasses

  datatype Derived = Derived(constraint: Constraint, classes: Classes)

  /** Trace flag for array constraints, and the longest array that is expanded. */
  datatype Settings = Settings(arrays: bool, threshold: nat)

  datatype BoolKind = AndOp | OrOp | NotOp

  // ----- What is derived

  function NotNull(col: Col): Constraint {
    Leaf(Unbounded(col, false))
  }

  function CompareLeaf(col: Col, op: CmpType, d: Datum): Constraint
    requires d.Val?
  {
    Leaf(Interval(col, CompareRanges(op, d.v), false))
  }

  function CompareLeaves(col: Col, op: CmpType, consts: seq<Datum>): (cs: seq<Constraint>)
    requires Null !in consts
    ensures |cs| == |consts|
  {
    if consts == [] then []
    else
      assert consts[|consts| - 1] in consts;
      CompareLeaves(col, op, consts[..|consts| - 1]) + [CompareLeaf(col, op, consts[|consts| - 1])]
  }

  lemma CompareLeavesAre(col: Col, op: CmpType, consts: seq<Datum>)
    requires Null !in consts
    ensures AllBuilt(CompareLeaves(col, op, consts))
    ensures forall c :: c in CompareLeaves(col, op, consts) <==> exists d :: d in consts && c == CompareLeaf(col, op, d)
  {
    var cs := CompareLeaves(col, op, consts);
    forall k | 0 <= k < |consts| ensures consts[k].Val? && cs[k] == CompareLeaf(col, op, consts[k]) && cs[k].Built() {
      assert consts[k] in consts;
      CompareLeafAt(col, op, consts, k);
      FromCmpExact(col, op, consts[k].v);
    }
    forall c | c in cs ensures exists d :: d in consts && c == CompareLeaf(col, op, d) {
      var k :| 0 <= k < |cs| && cs[k] == c;
      assert consts[k] in consts;
    }
    forall d | d in consts ensures CompareLeaf(col, op, d) in cs {
      var k :| 0 <= k < |consts| && consts[k] == d;
      assert cs[k] == CompareLeaf(col, op, d);
    }
  }

  lemma {:induction false} CompareLeafAt(col: Col, op: CmpType, consts: seq<Datum>, k: nat)
    requires Null !in consts && k < |consts|
    ensures consts[k].Val? && CompareLeaves(col, op, consts)[k] == CompareLeaf(col, op, consts[k])
  {
    assert consts[k] in consts;
    if k < |consts| - 1 { CompareLeafAt(col, op, consts[..|consts| - 1], k); }
  }

  /** An array comparison spelled out: a disjunction for ANY, a conjunction for ALL, unless the array is too long. */
  function FromArray(col: Col, quantifier: Quantifier, op: CmpType, consts: seq<Datum>, s: Settings)
    : Option<Constraint>
  {
    if |consts| == 0 || |consts| > s.threshold || Null in consts then None
    else
      CompareLeavesAre(col, op, consts);
      Some(Make(CompareLeaves(col, op, consts), quantifier.AllOf?, s.arrays))
  }

  lemma LeafOfParse(e: Expr, col: Col, arrays: bool)
    requires e.WellFormed() && e.Columns() <= {col} && Parse(e, col, arrays).Some?
    ensures Leaf(Parse(e, col, arrays).value).Built() && Parse(e, col, arrays).value.col == col
  {
    ParseExact(e, col, arrays, _ => Null);
  }

  /** An expression on one column: its interval, or its array spelled out. */
  function FromOneColumn(e: Expr, col: Col, s: Settings): (r: Option<Derived>)
    requires e.WellFormed() && e.Columns() == {col}
    ensures r.Some? ==> r.value.constraint.Built()
  {
    var p := Parse(e, col, s.arrays);
    if p.Some? then
      LeafOfParse(e, col, s.arrays);
      Some(Derived(Leaf(p.value), [{col}]))
    else if e.ArrayCmp? then
      var c := FromArray(col, e.quantifier, e.op, e.consts, s);
      if c.None? then None
      else
        CompareLeavesAre(col, e.op, e.consts);
        MakeCorrect(CompareLeaves(col, e.op, e.consts), e.quantifier.AllOf?, s.arrays);
        Some(Derived(c.value, [{col}]))
    else None
  }

  /** Two compared columns are not NULL, and for an equality they form a class. */
  function FromIdents(left: Col, op: CmpType, right: Col, s: Settings): (r: Derived)
    ensures r.constraint.Built()
  {
    UnboundedCorrect(left, false);
    UnboundedCorrect(right, false);
    var cs := [NotNull(left), NotNull(right)];
    MakeCorrect(cs, true, s.arrays);
    Derived(Make(cs, true, s.arrays), if op.Eq? then [{left, right}] else [])
  }

  function FromScalar(e: Expr, s: Settings): (r: Option<Derived>)
    requires e.WellFormed()
    ensures r.Some? ==> r.value.constraint.Built()
    decreases e, 1
  {
    var cols := e.Columns();
    if |cols| == 0 then None
    else if |cols| == 1 then
      OneColumnIsFirst(cols, FirstColumn(cols));
      FromOneColumn(e, FirstColumn(cols), s)
    else
      match e
      case And(es) => Finish(FromChildren(es, |es|, AndOp, s), AndOp, s)
      case Or(es) => Finish(FromChildren(es, |es|, OrOp, s), OrOp, s)
      case Not(a) => Finish(AddChild(Some(Children([], [])), FromScalar(a, s), NotOp), NotOp, s)
      case TermCmp(Ident(l), op, Ident(r)) => if op.IsDistinct? then None else Some(FromIdents(l, op, r, s))
      case _ => None
  }

  /** The state of the loop over the children: their constraints, and the classes so far. */
  datatype ChildrenState = Children(constraints: seq<Constraint>, classes: Classes)
  {
    ghost predicate Built() { AllBuilt(constraints) }
  }

  function MergeFromBoolOp(kind: BoolKind, first: Classes, second: Classes): Classes {
    match kind
    case AndOp => MergeClasses(first, second)
    case OrOp => IntersectClasses(first, second)
    case NotOp => []
  }

  /** One turn: a child that says nothing is skipped, but ends the loop of an OR. */
  function AddChild(state: Option<ChildrenState>, child: Option<Derived>, kind: BoolKind): (r: Option<ChildrenState>)
    requires state.Some? ==> state.value.Built()
    requires child.Some? ==> child.value.constraint.Built()
    ensures r.Some? ==> r.value.Built()
  {
    if state.None? then None
    else if child.None? || child.value.constraint.IsUnbounded() then (if kind.OrOp? then None else state)
    else
      Some(Children(state.value.constraints + [child.value.constraint],
        MergeFromBoolOp(kind, state.value.classes, child.value.classes)))
  }

  function FromChildren(es: seq<Expr>, n: nat, kind: BoolKind, s: Settings): (r: Option<ChildrenState>)
    requires n <= |es| && forall e | e in es :: e.WellFormed()
    ensures r.Some? ==> r.value.Built()
    decreases es, 0, n
  {
    if n == 0 then Some(Children([], []))
    else AddChild(FromChildren(es, n - 1, kind, s), FromScalar(es[n - 1], s), kind)
  }

  function Finish(state: Option<ChildrenState>, kind: BoolKind, s: Settings): (r: Option<Derived>)
    requires state.Some? ==> state.value.Built()
    ensures r.Some? ==> r.value.constraint.Built()
  {
    if state.None? || |state.value.constraints| == 0 then None
    else
      var cs := state.value.constraints;
      assert cs[0] in cs;
      if |cs| == 1 then Some(Derived(if kind.NotOp? then Negation(cs[0]) else cs[0], state.value.classes))
      else if kind.NotOp? then None
      else
        MakeCorrect(cs, kind.AndOp?, s.arrays);
        Some(Derived(Make(cs, kind.AndOp?, s.arrays), state.value.classes))
  }

  // ----- The array spelled out

  /** Spelling an array out keeps its quantifier: the constraint holds exactly where the comparison is TRUE. */
  lemma FromArrayExact(
    col: Col, quantifier: Quantifier, op: CmpType, consts: seq<Datum>, s: Settings, row: Row, env: Env)
    requires !op.IsDistinct?
    ensures var c := FromArray(col, quantifier, op, consts, s);
      && (c.Some? <==> 0 < |consts| <= s.threshold && Null !in consts)
      && (c.Some? ==> c.value.Columns() == {col})
      && (c.Some? ==> (c.value.Sat(row) <==> Eval(ArrayCmp(col, quantifier, op, consts), row, env).True?))
  {
    if 0 < |consts| <= s.threshold && Null !in consts {
      var cs := CompareLeaves(col, op, consts);
      CompareLeavesAre(col, op, consts);
      MakeCorrect(cs, quantifier.AllOf?, s.arrays);
      LeavesColumn(col, op, consts);
      LeavesCompare(col, op, consts, row);
      LeavesHold(col, quantifier, op, consts, cs, row);
      ArrayIsTrue(col, quantifier, op, consts, row, env);
    }
  }

  lemma LeavesCompare(col: Col, op: CmpType, consts: seq<Datum>, row: Row)
    requires Null !in consts && !op.IsDistinct?
    ensures forall d | d in consts :: CompareLeaf(col, op, d).Sat(row) <==> CompareDatums(op, row(col), d).True?
  {
    forall d | d in consts ensures CompareLeaf(col, op, d).Sat(row) <==> CompareDatums(op, row(col), d).True? {
      FromCmpExact(col, op, d.v);
    }
  }

  lemma LeavesColumn(col: Col, op: CmpType, consts: seq<Datum>)
    requires |consts| > 0 && Null !in consts
    ensures ColumnsOf(CompareLeaves(col, op, consts)) == {col}
  {
    var cs := CompareLeaves(col, op, consts);
    CompareLeavesAre(col, op, consts);
    assert cs[0] in cs && forall c | c in cs :: c.Columns() == {col};
  }

  lemma ArrayIsTrue(col: Col, quantifier: Quantifier, op: CmpType, consts: seq<Datum>, row: Row, env: Env)
    requires |consts| > 0
    ensures Eval(ArrayCmp(col, quantifier, op, consts), row, env).True? <==>
      if quantifier.AllOf? then forall d | d in consts :: CompareDatums(op, row(col), d).True?
      else exists d | d in consts :: CompareDatums(op, row(col), d).True?
  {
  }

  lemma LeavesHold(col: Col, quantifier: Quantifier, op: CmpType, consts: seq<Datum>, cs: seq<Constraint>, row: Row)
    requires Null !in consts && |consts| > 0
    requires forall c :: c in cs <==> exists d :: d in consts && c == CompareLeaf(col, op, d)
    requires forall d | d in consts :: CompareLeaf(col, op, d).Sat(row) <==> CompareDatums(op, row(col), d).True?
    ensures Holds(cs, quantifier.AllOf?, row) <==>
      if quantifier.AllOf? then forall d | d in consts :: CompareDatums(op, row(col), d).True?
      else exists d | d in consts :: CompareDatums(op, row(col), d).True?
  {
  }

  // ----- Shape

  /** The constraint and the classes use the expression's columns only, and the classes do not overlap. */
  ghost predicate WithinColumns(d: Derived, cols: set<Col>) {
    d.constraint.Columns() <= cols && ClassesWithin(d.classes, cols)
  }

  ghost predicate ClassesWithin(classes: Classes, cols: set<Col>) {
    Disjoint(classes) && NonEmpty(classes) && Members(classes) <= cols
  }

  lemma {:induction false} FromScalarShape(e: Expr, s: Settings)
    requires e.WellFormed() && FromScalar(e, s).Some?
    ensures WithinColumns(FromScalar(e, s).value, e.Columns())
    ensures e.Or? && |e.Columns()| > 1 ==> FromScalar(e, s).value.classes == []
    decreases e, 1
  {
    var cols := e.Columns();
    if |cols| == 1 {
      OneColumnIsFirst(cols, FirstColumn(cols));
      OneColumnShape(e, FirstColumn(cols), s);
    } else {
      match e
      case And(es) =>
        ChildrenShape(es, |es|, AndOp, s, cols);
        FinishShape(FromChildren(es, |es|, AndOp, s), AndOp, s, cols);
      case Or(es) =>
        ChildrenShape(es, |es|, OrOp, s, cols);
        FinishShape(FromChildren(es, |es|, OrOp, s), OrOp, s, cols);
      case Not(a) =>
        if FromScalar(a, s).Some? { FromScalarShape(a, s); }
        FinishShape(AddChild(Some(Children([], [])), FromScalar(a, s), NotOp), NotOp, s, cols);
      case TermCmp(Ident(l), op, Ident(r)) =>
        IdentsShape(l, op, r, s);
    }
  }

  /**
   An OR over several columns never yields a class, even one that all its children have: the
   intersection starts from no classes at all.
   */
  lemma OrLosesClasses(s: Settings)
    ensures forall es: seq<Expr> | Or(es).WellFormed() && |Or(es).Columns()| > 1 ::
      FromScalar(Or(es), s).Some? ==> FromScalar(Or(es), s).value.classes == []
    ensures var same := TermCmp(Ident(0), Eq, Ident(1));
      && FromScalar(same, s).Some? && FromScalar(same, s).value.classes == [{0, 1}]
      && FromScalar(Or([same, same]), s).Some?
  {
    forall es: seq<Expr> | Or(es).WellFormed() && |Or(es).Columns()| > 1 && FromScalar(Or(es), s).Some?
      ensures FromScalar(Or(es), s).value.classes == []
    {
      FromScalarShape(Or(es), s);
    }
    SameTwice(s);
  }

  /** a = b or a = b. */
  lemma SameTwice(s: Settings)
    ensures var same := TermCmp(Ident(0), Eq, Ident(1));
      && FromScalar(same, s).Some? && FromScalar(same, s).value.classes == [{0, 1}]
      && FromScalar(Or([same, same]), s).Some?
  {
    var same := TermCmp(Ident(0), Eq, Ident(1));
    var d := FromComparison(0, Eq, 1, s);
    var es := [same, same];
    assert es[0] == same && es[1] == same && forall e :: e in es <==> e == same;
    assert Or(es).Columns() == same.Columns();
    assert Says(same, s);
    NodeSays(es, false, s);
  }

  lemma OneColumnShape(e: Expr, col: Col, s: Settings)
    requires e.WellFormed() && e.Columns() == {col} && FromOneColumn(e, col, s).Some?
    ensures WithinColumns(FromOneColumn(e, col, s).value, {col})
  {
    if Parse(e, col, s.arrays).Some? {
      LeafOfParse(e, col, s.arrays);
    } else {
      CompareLeavesAre(col, e.op, e.consts);
      MakeCorrect(CompareLeaves(col, e.op, e.consts), e.quantifier.AllOf?, s.arrays);
    }
  }

  lemma IdentsShape(l: Col, op: CmpType, r: Col, s: Settings)
    ensures WithinColumns(FromIdents(l, op, r, s), {l, r})
  {
    UnboundedCorrect(l, false);
    UnboundedCorrect(r, false);
    MakeCorrect([NotNull(l), NotNull(r)], true, s.arrays);
  }

  ghost predicate StateWithin(state: Option<ChildrenState>, kind: BoolKind, cols: set<Col>) {
    state.Some? ==>
      && ColumnsOf(state.value.constraints) <= cols && ClassesWithin(state.value.classes, cols)
      && (kind.AndOp? || state.value.classes == [])
  }

  lemma {:induction false} ChildrenShape(es: seq<Expr>, n: nat, kind: BoolKind, s: Settings, cols: set<Col>)
    requires n <= |es| && (forall e | e in es :: e.WellFormed() && e.Columns() <= cols)
    ensures StateWithin(FromChildren(es, n, kind, s), kind, cols)
    decreases es, 0, n
  {
    if n > 0 {
      var child := FromScalar(es[n - 1], s);
      assert es[n - 1] in es;
      ChildrenShape(es, n - 1, kind, s, cols);
      if child.Some? {
        FromScalarShape(es[n - 1], s);
        AddChildShape(FromChildren(es, n - 1, kind, s), child, kind, cols);
      }
    }
  }

  lemma AddChildShape(state: Option<ChildrenState>, child: Option<Derived>, kind: BoolKind, cols: set<Col>)
    requires StateWithin(state, kind, cols) && (state.Some? ==> state.value.Built())
    requires child.Some? ==> child.value.constraint.Built() && WithinColumns(child.value, cols)
    ensures StateWithin(AddChild(state, child, kind), kind, cols)
  {
    if state.Some? && child.Some? {
      ColumnsAppend(state.value.constraints, child.value.constraint);
      MergeCorrect(state.value.classes, child.value.classes, _ => Null);
    }
  }

  lemma FinishShape(state: Option<ChildrenState>, kind: BoolKind, s: Settings, cols: set<Col>)
    requires (state.Some? ==> state.value.Built()) && StateWithin(state, kind, cols)
    ensures Finish(state, kind, s).Some? ==>
      WithinColumns(Finish(state, kind, s).value, cols) && Finish(state, kind, s).value.classes == state.value.classes
  {
    if Finish(state, kind, s).Some? {
      var cs := state.value.constraints;
      assert cs[0] in cs;
      assert cs[0].Columns() <= ColumnsOf(cs);
      if |cs| > 1 {
        MakeCorrect(cs, kind.AndOp?, s.arrays);
      }
    }
  }

  // ----- Which constraints a node gets

  /** The child is neither skipped nor the end of the loop. */
  predicate Says(e: Expr, s: Settings)
    requires e.WellFormed()
  {
    FromScalar(e, s).Some? && !FromScalar(e, s).value.constraint.IsUnbounded()
  }

  /** After `n` children the constraints are those of the children that say something; an OR needs all of them to. */
  ghost predicate ConstraintsOf(state: Option<ChildrenState>, es: seq<Expr>, n: nat, kind: BoolKind, s: Settings)
    requires n <= |es| && forall e | e in es :: e.WellFormed()
  {
    && (state.Some? <==> kind.OrOp? ==> forall k :: 0 <= k < n ==> Says(es[k], s))
    && (state.Some? ==> forall c :: c in state.value.constraints <==> FromSome(c, es, n, s))
  }

  ghost predicate FromSome(c: Constraint, es: seq<Expr>, n: nat, s: Settings)
    requires n <= |es| && forall e | e in es :: e.WellFormed()
  {
    exists k :: 0 <= k < n && Says(es[k], s) && FromScalar(es[k], s).value.constraint == c
  }

  lemma {:induction false} ChildrenAre(es: seq<Expr>, n: nat, kind: BoolKind, s: Settings)
    requires n <= |es| && forall e | e in es :: e.WellFormed()
    ensures ConstraintsOf(FromChildren(es, n, kind, s), es, n, kind, s)
    decreases n
  {
    if n > 0 {
      ChildrenAre(es, n - 1, kind, s);
      OneMoreChild(FromChildren(es, n - 1, kind, s), es, n, kind, s);
    }
  }

  lemma OneMoreChild(state: Option<ChildrenState>, es: seq<Expr>, n: nat, kind: BoolKind, s: Settings)
    requires 0 < n <= |es| && (forall e | e in es :: e.WellFormed()) && (state.Some? ==> state.value.Built())
    requires ConstraintsOf(state, es, n - 1, kind, s)
    ensures ConstraintsOf(AddChild(state, FromScalar(es[n - 1], s), kind), es, n, kind, s)
  {
    FromSomeMore(es, n, s);
  }

  lemma FromSomeMore(es: seq<Expr>, n: nat, s: Settings)
    requires 0 < n <= |es| && (forall e | e in es :: e.WellFormed())
    ensures forall c :: FromSome(c, es, n, s) <==>
      FromSome(c, es, n - 1, s) || (Says(es[n - 1], s) && FromScalar(es[n - 1], s).value.constraint == c)
  {
  }

  /** The node built from the children means their conjunction or disjunction. */
  lemma FinishExact(state: Option<ChildrenState>, kind: BoolKind, s: Settings, row: Row)
    requires (state.Some? ==> state.value.Built()) && !kind.NotOp?
    ensures Finish(state, kind, s).Some? <==> state.Some? && |state.value.constraints| > 0
    ensures Finish(state, kind, s).Some? ==>
      (Finish(state, kind, s).value.constraint.Sat(row) <==> Holds(state.value.constraints, kind.AndOp?, row))
    ensures Finish(state, kind, s).Some? ==> Finish(state, kind, s).value.classes == state.value.classes
  {
    if state.Some? && |state.value.constraints| > 0 {
      var cs := state.value.constraints;
      if |cs| == 1 {
        assert cs == [cs[0]];
      } else {
        MakeCorrect(cs, kind.AndOp?, s.arrays);
      }
    }
  }

  function KindOf(conj: bool): BoolKind {
    if conj then AndOp else OrOp
  }

  lemma NodeDerives(es: seq<Expr>, conj: bool, s: Settings)
    requires |es| > 0 && (forall e | e in es :: e.WellFormed()) && |BoolOp(conj, es).Columns()| > 1
    ensures FromScalar(BoolOp(conj, es), s) == Finish(FromChildren(es, |es|, KindOf(conj), s), KindOf(conj), s)
  {
    if conj {
      assert FromScalar(And(es), s) == Finish(FromChildren(es, |es|, AndOp, s), AndOp, s);
    } else {
      assert FromScalar(Or(es), s) == Finish(FromChildren(es, |es|, OrOp, s), OrOp, s);
    }
  }

  /** What an AND or OR over several columns derives, in terms of its children. */
  lemma NodeMeaning(es: seq<Expr>, conj: bool, s: Settings, row: Row)
    requires |es| > 0 && (forall e | e in es :: e.WellFormed()) && |BoolOp(conj, es).Columns()| > 1
    ensures var d := FromScalar(BoolOp(conj, es), s);
      && (d.Some? <==> if conj then exists a | a in es :: Says(a, s) else forall a | a in es :: Says(a, s))
      && (d.Some? ==> (d.value.constraint.Sat(row) <==>
        if conj then forall a | a in es && Says(a, s) :: FromScalar(a, s).value.constraint.Sat(row)
        else exists a | a in es && Says(a, s) :: FromScalar(a, s).value.constraint.Sat(row)))
  {
    var kind := KindOf(conj);
    var state := FromChildren(es, |es|, kind, s);
    NodeDerives(es, conj, s);
    ChildrenAre(es, |es|, kind, s);
    FinishExact(state, kind, s, row);
    if state.Some? {
      SomeConstraint(state.value.constraints, es, s);
      ConstraintsHold(state.value.constraints, es, conj, s, row);
    }
  }

  lemma SomeConstraint(cs: seq<Constraint>, es: seq<Expr>, s: Settings)
    requires (forall e | e in es :: e.WellFormed()) && forall c :: c in cs <==> FromSome(c, es, |es|, s)
    ensures |cs| > 0 <==> exists a | a in es :: Says(a, s)
  {
    if |cs| > 0 { assert cs[0] in cs; }
    if a :| a in es && Says(a, s) {
      var k :| 0 <= k < |es| && es[k] == a;
      assert FromSome(FromScalar(es[k], s).value.constraint, es, |es|, s);
    }
  }

  lemma ConstraintsHold(cs: seq<Constraint>, es: seq<Expr>, conj: bool, s: Settings, row: Row)
    requires (forall e | e in es :: e.WellFormed()) && forall c :: c in cs <==> FromSome(c, es, |es|, s)
    ensures Holds(cs, conj, row) <==>
      if conj then forall a | a in es && Says(a, s) :: FromScalar(a, s).value.constraint.Sat(row)
      else exists a | a in es && Says(a, s) :: FromScalar(a, s).value.constraint.Sat(row)
  {
    forall a | a in es && Says(a, s) ensures FromScalar(a, s).value.constraint in cs {
      var k :| 0 <= k < |es| && es[k] == a;
      assert FromSome(FromScalar(es[k], s).value.constraint, es, |es|, s);
    }
    forall c | c in cs ensures exists a :: a in es && Says(a, s) && FromScalar(a, s).value.constraint == c {
      var k :| 0 <= k < |es| && Says(es[k], s) && FromScalar(es[k], s).value.constraint == c;
      assert es[k] in es;
    }
  }

  // ----- Expressions that say something for certain

  /** The array comparison is not an interval, and short enough to be spelled out. */
  predicate SpelledOut(e: Expr, s: Settings) {
    e.ArrayCmp? && !Converts(e, s.arrays) && |e.consts| <= s.threshold
  }

  /**
   Arrays that are spelled out have a constant and no NULL: the code asserts the first, and
   compares a NULL datum like any other.
   */
  predicate ListsUsable(e: Expr, s: Settings) {
    if |e.Columns()| <= 1 then SpelledOut(e, s) ==> |e.consts| > 0 && Null !in e.consts
    else
      match e
      case And(es) => forall a | a in es :: ListsUsable(a, s)
      case Or(es) => forall a | a in es :: ListsUsable(a, s)
      case Not(a) => ListsUsable(a, s)
      case _ => true
  }

  /** Sure to give a constraint that is not unbounded: a NULL in the column, say, does not read true. */
  ghost predicate Kept(e: Expr, s: Settings) {
    if |e.Columns()| == 0 then false
    else if |e.Columns()| == 1 then if Converts(e, s.arrays) then !Reads(e, _ => Null, s.arrays) else SpelledOut(e, s)
    else
      match e
      case And(es) => exists a | a in es :: Kept(a, s)
      case Or(es) => forall a | a in es :: Kept(a, s)
      case TermCmp(Ident(_), op, Ident(_)) => !op.IsDistinct?
      case _ => false
  }

  lemma {:induction false} KeptSays(e: Expr, s: Settings)
    requires e.WellFormed() && ListsUsable(e, s) && Kept(e, s)
    ensures Says(e, s)
  {
    var cols := e.Columns();
    if |cols| == 1 {
      OneColumnIsFirst(cols, FirstColumn(cols));
      OneColumnKept(e, FirstColumn(cols), s);
    } else {
      match e
      case And(es) =>
        var a :| a in es && Kept(a, s);
        KeptSays(a, s);
        NodeSays(es, true, s);
      case Or(es) =>
        forall a | a in es ensures Says(a, s) { KeptSays(a, s); }
        NodeSays(es, false, s);
      case TermCmp(Ident(l), op, Ident(r)) =>
        var d := FromComparison(l, op, r, s);
    }
  }

  lemma OneColumnKept(e: Expr, col: Col, s: Settings)
    requires e.WellFormed() && e.Columns() == {col} && ListsUsable(e, s) && Kept(e, s)
    ensures FromOneColumn(e, col, s).Some? && !FromOneColumn(e, col, s).value.constraint.IsUnbounded()
  {
    ParseExact(e, col, s.arrays, _ => Null);
    if !Converts(e, s.arrays) {
      CompareLeavesAre(col, e.op, e.consts);
      MakeCorrect(CompareLeaves(col, e.op, e.consts), e.quantifier.AllOf?, s.arrays);
    }
  }

  /** An AND with just one child that says something derives what that child does, without a node. */
  lemma OneChildStands(es: seq<Expr>, k: nat, s: Settings)
    requires And(es).WellFormed() && |And(es).Columns()| > 1 && k < |es| && Says(es[k], s)
    requires forall j | 0 <= j < |es| && j != k :: !Says(es[j], s)
    ensures FromScalar(And(es), s).Some?
    ensures FromScalar(And(es), s).value.constraint == FromScalar(es[k], s).value.constraint
  {
    OneConstraint(es, |es|, k, s);
  }

  lemma {:induction false} OneConstraint(es: seq<Expr>, n: nat, k: nat, s: Settings)
    requires n <= |es| && (forall e | e in es :: e.WellFormed()) && k < |es| && Says(es[k], s)
    requires forall j | 0 <= j < |es| && j != k :: !Says(es[j], s)
    ensures FromChildren(es, n, AndOp, s).Some?
    ensures FromChildren(es, n, AndOp, s).value.constraints ==
      if k < n then [FromScalar(es[k], s).value.constraint] else []
    decreases n
  {
    if n > 0 {
      OneConstraint(es, n - 1, k, s);
    }
  }

  /** A node says something as soon as it derives anything. */
  lemma NodeSays(es: seq<Expr>, conj: bool, s: Settings)
    requires |es| > 0 && (forall e | e in es :: e.WellFormed()) && |BoolOp(conj, es).Columns()| > 1
    requires if conj then exists a | a in es :: Says(a, s) else forall a | a in es :: Says(a, s)
    ensures Says(BoolOp(conj, es), s)
  {
    NodeDerives(es, conj, s);
    ChildrenSay(es, KindOf(conj), s);
  }

  lemma ChildrenSay(es: seq<Expr>, kind: BoolKind, s: Settings)
    requires |es| > 0 && (forall e | e in es :: e.WellFormed()) && !kind.NotOp?
    requires if kind.AndOp? then exists a | a in es :: Says(a, s) else forall a | a in es :: Says(a, s)
    ensures var d := Finish(FromChildren(es, |es|, kind, s), kind, s); d.Some? && !d.value.constraint.IsUnbounded()
  {
    var state := FromChildren(es, |es|, kind, s);
    ChildrenAre(es, |es|, kind, s);
    assert es[0] in es;
    SomeConstraint(state.value.constraints, es, s);
    forall c | c in state.value.constraints ensures !c.IsUnbounded() {
      var k :| 0 <= k < |es| && Says(es[k], s) && FromScalar(es[k], s).value.constraint == c;
    }
    FinishSays(state, kind, s);
  }

  lemma FinishSays(state: Option<ChildrenState>, kind: BoolKind, s: Settings)
    requires state.Some? && state.value.Built() && !kind.NotOp? && |state.value.constraints| > 0
    requires forall c | c in state.value.constraints :: !c.IsUnbounded()
    ensures Finish(state, kind, s).Some? && !Finish(state, kind, s).value.constraint.IsUnbounded()
  {
    var cs := state.value.constraints;
    assert cs[0] in cs;
    if |cs| > 1 { MakeCorrect(cs, kind.AndOp?, s.arrays); }
  }

  // ----- Exactness

  /**
   Expressions whose constraint is exact: every leaf is understood, and what stands below a NOT is
   sure to say something.
   */
  ghost predicate Faithful(e: Expr, s: Settings) {
    if |e.Columns()| == 0 then false
    else if |e.Columns()| == 1 then Exact(e) && FullyConverts(e, s.arrays)
    else
      match e
      case And(es) => forall a | a in es :: Faithful(a, s)
      case Or(es) => forall a | a in es :: Faithful(a, s)
      case Not(a) => Faithful(a, s) && Kept(a, s)
      case _ => false
  }

  lemma {:induction false} FaithfulIsExact(e: Expr, s: Settings)
    requires e.WellFormed() && Faithful(e, s)
    ensures Exact(e) && FullyConverts(e, s.arrays) && Converts(e, s.arrays) && ListsUsable(e, s)
  {
    if |e.Columns()| != 1 {
      match e
      case And(es) =>
        forall a | a in es ensures Exact(a) && FullyConverts(a, s.arrays) && ListsUsable(a, s) {
          FaithfulIsExact(a, s);
        }
      case Or(es) =>
        forall a | a in es ensures Exact(a) && FullyConverts(a, s.arrays) && ListsUsable(a, s) {
          FaithfulIsExact(a, s);
        }
      case Not(a) => FaithfulIsExact(a, s);
    }
    FullyConvertsConverts(e, s.arrays);
  }

  /** The constraint, if any, holds exactly where the expression reads true; none means it always does. */
  ghost predicate ExactFor(e: Expr, s: Settings, row: Row)
    requires e.WellFormed()
  {
    var d := FromScalar(e, s);
    if d.None? then Reads(e, row, s.arrays) else d.value.constraint.Sat(row) <==> Reads(e, row, s.arrays)
  }

  lemma {:induction false} FaithfulExact(e: Expr, s: Settings, row: Row)
    requires e.WellFormed() && Faithful(e, s)
    ensures ExactFor(e, s, row)
  {
    if |e.Columns()| == 1 {
      OneColumnExact(e, s, row);
    } else {
      match e
      case And(es) =>
        forall a | a in es ensures ExactFor(a, s, row) && Converts(a, s.arrays) {
          FaithfulExact(a, s, row);
          FaithfulIsExact(a, s);
        }
        NodeExact(es, true, s, row);
      case Or(es) =>
        forall a | a in es ensures ExactFor(a, s, row) { FaithfulExact(a, s, row); }
        NodeExact(es, false, s, row);
      case Not(a) =>
        FaithfulExact(a, s, row);
        FaithfulSays(a, s);
        NotExact(a, s, row);
    }
  }

  lemma OneColumnExact(e: Expr, s: Settings, row: Row)
    requires e.WellFormed() && Faithful(e, s) && |e.Columns()| == 1
    ensures ExactFor(e, s, row)
  {
    FaithfulIsExact(e, s);
    OneColumnIsFirst(e.Columns(), FirstColumn(e.Columns()));
    ParseExact(e, FirstColumn(e.Columns()), s.arrays, row);
  }

  lemma NotExact(a: Expr, s: Settings, row: Row)
    requires a.WellFormed() && |Not(a).Columns()| > 1 && Says(a, s) && ExactFor(a, s, row)
    ensures ExactFor(Not(a), s, row)
  {
    NotMeaning(a, s);
  }

  lemma FaithfulSays(a: Expr, s: Settings)
    requires a.WellFormed() && Faithful(a, s) && Kept(a, s)
    ensures Says(a, s)
  {
    FaithfulIsExact(a, s);
    KeptSays(a, s);
  }

  lemma NodeExact(es: seq<Expr>, conj: bool, s: Settings, row: Row)
    requires BoolOp(conj, es).WellFormed() && |BoolOp(conj, es).Columns()| > 1
    requires forall a | a in es :: ExactFor(a, s, row) && (conj ==> Converts(a, s.arrays))
    ensures ExactFor(BoolOp(conj, es), s, row)
  {
    NodeMeaning(es, conj, s, row);
    forall a | a in es
      ensures if Says(a, s) then FromScalar(a, s).value.constraint.Sat(row) <==> Reads(a, row, s.arrays)
        else Reads(a, row, s.arrays)
    {
      if FromScalar(a, s).Some? { UnboundedAndContradictionSound(FromScalar(a, s).value.constraint, row); }
    }
  }

  // ----- Soundness

  /**
   Where may parts be dropped, over several columns?  `ScalarWidens` says where the constraint
   still holds on every row on which the expression is TRUE, `ScalarNarrows` where it still
   fails on every row on which the expression is FALSE; NOT swaps the two.  Below a NOT every
   child of an AND must say something where it is FALSE: `MustNarrow`.
   */
  ghost predicate ScalarWidens(e: Expr, s: Settings) {
    if |e.Columns()| == 0 then true
    else if |e.Columns()| == 1 then Converts(e, s.arrays) ==> Widens(e, s.arrays)
    else
      match e
      case And(es) => forall a | a in es :: ScalarWidens(a, s)
      case Or(es) => forall a | a in es :: ScalarWidens(a, s)
      case Not(a) => ScalarNarrows(a, s)
      case _ => true
  }

  ghost predicate ScalarNarrows(e: Expr, s: Settings) {
    if |e.Columns()| == 0 then true
    else if |e.Columns()| == 1 then Converts(e, s.arrays) ==> Narrows(e, s.arrays)
    else
      match e
      case And(es) => forall a | a in es :: MustNarrow(a, s)
      case Or(es) => forall a | a in es :: ScalarNarrows(a, s)
      case Not(a) => ScalarWidens(a, s)
      case TermCmp(Ident(_), op, Ident(_)) => op.IsDistinct?
      case _ => true
  }

  ghost predicate MustNarrow(e: Expr, s: Settings) {
    if |e.Columns()| == 0 then e.Const? && !e.value.False?
    else if |e.Columns()| == 1 then if Converts(e, s.arrays) then Narrows(e, s.arrays) else SpelledOut(e, s)
    else
      match e
      case And(es) => forall a | a in es :: MustNarrow(a, s)
      case Or(es) => forall a | a in es :: MustNarrow(a, s)
      case Not(a) => Kept(a, s) && ScalarWidens(a, s)
      case _ => false
  }

  /** The constraint, if any, holds, and the columns of each class are equal and not NULL. */
  ghost predicate SoundFor(e: Expr, s: Settings, row: Row)
    requires e.WellFormed()
  {
    var d := FromScalar(e, s);
    d.Some? ==> d.value.constraint.Sat(row) && AllEquate(d.value.classes, row)
  }

  ghost predicate FailsFor(e: Expr, s: Settings, row: Row)
    requires e.WellFormed()
  {
    FromScalar(e, s).Some? && !FromScalar(e, s).value.constraint.Sat(row)
  }

  /** What the three conditions promise of an expression on a row. */
  ghost predicate Polar(e: Expr, s: Settings, row: Row, env: Env)
    requires e.WellFormed()
  {
    && (ScalarWidens(e, s) && Eval(e, row, env).True? ==> SoundFor(e, s, row))
    && (ScalarNarrows(e, s) && Eval(e, row, env).False? ==> FromScalar(e, s).None? || FailsFor(e, s, row))
    && (MustNarrow(e, s) && Eval(e, row, env).False? ==> FailsFor(e, s, row))
  }

  lemma {:induction false} ScalarPolarity(e: Expr, s: Settings, row: Row, env: Env)
    requires e.WellFormed() && ListsUsable(e, s)
    ensures Polar(e, s, row, env)
  {
    var cols := e.Columns();
    if |cols| == 1 {
      OneColumnIsFirst(cols, FirstColumn(cols));
      OneColumnPolar(e, FirstColumn(cols), s, row, env);
    } else if |cols| > 1 {
      match e
      case And(es) =>
        forall a | a in es ensures Polar(a, s, row, env) { ScalarPolarity(a, s, row, env); }
        AndPolar(es, s, row, env);
      case Or(es) =>
        forall a | a in es ensures Polar(a, s, row, env) { ScalarPolarity(a, s, row, env); }
        OrPolar(es, s, row, env);
      case Not(a) =>
        ScalarPolarity(a, s, row, env);
        NotPolar(a, s, row, env);
      case TermCmp(Ident(l), op, Ident(r)) =>
        if !op.IsDistinct? && Eval(e, row, env).True? { IdentsSound(l, op, r, s, row, env); }
      case _ =>
    }
  }

  /**
   On every row on which the expression is TRUE in SQL, the derived constraint holds, and the
   columns of each derived class are equal and not NULL.
   */
  lemma FromScalarSound(e: Expr, s: Settings, row: Row, env: Env)
    requires e.WellFormed() && ListsUsable(e, s) && ScalarWidens(e, s) && Eval(e, row, env).True?
    ensures SoundFor(e, s, row)
  {
    ScalarPolarity(e, s, row, env);
  }

  lemma OneColumnPolar(e: Expr, col: Col, s: Settings, row: Row, env: Env)
    requires e.WellFormed() && e.Columns() == {col} && ListsUsable(e, s)
    ensures FromScalar(e, s) == FromOneColumn(e, col, s) && Polar(e, s, row, env)
  {
    OneColumnIsFirst(e.Columns(), col);
    ParseExact(e, col, s.arrays, row);
    if Converts(e, s.arrays) {
      PolarityReads(e, row, env, s.arrays);
    } else if e.ArrayCmp? {
      FromArrayExact(col, e.quantifier, e.op, e.consts, s, row, env);
    }
  }

  lemma AndPolar(es: seq<Expr>, s: Settings, row: Row, env: Env)
    requires And(es).WellFormed() && |And(es).Columns()| > 1
    requires forall a | a in es :: Polar(a, s, row, env)
    ensures Polar(And(es), s, row, env)
  {
    if ScalarWidens(And(es), s) && Eval(And(es), row, env).True? { AndIsSound(es, s, row, env); }
    if MustNarrow(And(es), s) && Eval(And(es), row, env).False? { AndFails(es, s, row, env); }
  }

  /** Where an AND is TRUE so is every child. */
  lemma AndIsSound(es: seq<Expr>, s: Settings, row: Row, env: Env)
    requires And(es).WellFormed() && |And(es).Columns()| > 1
    requires forall a | a in es :: Polar(a, s, row, env)
    requires ScalarWidens(And(es), s) && Eval(And(es), row, env).True?
    ensures SoundFor(And(es), s, row)
  {
    NodeMeaning(es, true, s, row);
    forall a | a in es ensures SoundFor(a, s, row) { assert Polar(a, s, row, env); }
    if FromScalar(And(es), s).Some? {
      AndDerivesClasses(es, s, row);
      forall k | 0 <= k < |es| ensures AllEquate(AllSaid(es, s)[k], row) {
        assert es[k] in es && SoundFor(es[k], s, row);
      }
    }
  }

  /** Where an AND is FALSE so is some child, which says so. */
  lemma AndFails(es: seq<Expr>, s: Settings, row: Row, env: Env)
    requires And(es).WellFormed() && |And(es).Columns()| > 1
    requires forall a | a in es :: Polar(a, s, row, env)
    requires (forall a | a in es :: MustNarrow(a, s)) && Eval(And(es), row, env).False?
    ensures FailsFor(And(es), s, row)
  {
    NodeMeaning(es, true, s, row);
    var a :| a in es && Eval(a, row, env).False?;
    assert Polar(a, s, row, env) && FailsFor(a, s, row);
    UnboundedAndContradictionSound(FromScalar(a, s).value.constraint, row);
  }

  lemma OrPolar(es: seq<Expr>, s: Settings, row: Row, env: Env)
    requires Or(es).WellFormed() && |Or(es).Columns()| > 1
    requires forall a | a in es :: Polar(a, s, row, env)
    ensures Polar(Or(es), s, row, env)
  {
    if ScalarWidens(Or(es), s) && Eval(Or(es), row, env).True? { OrIsSound(es, s, row, env); }
    if ScalarNarrows(Or(es), s) && Eval(Or(es), row, env).False? { OrNarrows(es, s, row, env); }
    if MustNarrow(Or(es), s) && Eval(Or(es), row, env).False? { OrFails(es, s, row, env); }
  }

  /** Where an OR is TRUE so is some child; if the OR derives anything, that child says something. */
  lemma OrIsSound(es: seq<Expr>, s: Settings, row: Row, env: Env)
    requires Or(es).WellFormed() && |Or(es).Columns()| > 1
    requires forall a | a in es :: Polar(a, s, row, env)
    requires (forall a | a in es :: ScalarWidens(a, s)) && Eval(Or(es), row, env).True?
    ensures SoundFor(Or(es), s, row)
  {
    NodeMeaning(es, false, s, row);
    if FromScalar(Or(es), s).Some? { FromScalarShape(Or(es), s); }
    var a :| a in es && Eval(a, row, env).True?;
    assert Polar(a, s, row, env);
  }

  /** Where an OR is FALSE so are all its children, and none of what they say holds. */
  lemma OrNarrows(es: seq<Expr>, s: Settings, row: Row, env: Env)
    requires Or(es).WellFormed() && |Or(es).Columns()| > 1
    requires forall a | a in es :: Polar(a, s, row, env)
    requires (forall a | a in es :: ScalarNarrows(a, s)) && Eval(Or(es), row, env).False?
    ensures FromScalar(Or(es), s).None? || FailsFor(Or(es), s, row)
  {
    NodeMeaning(es, false, s, row);
    forall a | a in es && Says(a, s) ensures !FromScalar(a, s).value.constraint.Sat(row) {
      assert Polar(a, s, row, env);
    }
  }

  lemma OrFails(es: seq<Expr>, s: Settings, row: Row, env: Env)
    requires Or(es).WellFormed() && |Or(es).Columns()| > 1
    requires forall a | a in es :: Polar(a, s, row, env)
    requires (forall a | a in es :: MustNarrow(a, s)) && Eval(Or(es), row, env).False?
    ensures FailsFor(Or(es), s, row)
  {
    NodeMeaning(es, false, s, row);
    forall a | a in es ensures Says(a, s) && !FromScalar(a, s).value.constraint.Sat(row) {
      assert Polar(a, s, row, env) && FailsFor(a, s, row);
      UnboundedAndContradictionSound(FromScalar(a, s).value.constraint, row);
    }
  }

  lemma NotPolar(a: Expr, s: Settings, row: Row, env: Env)
    requires a.WellFormed() && |Not(a).Columns()| > 1 && ListsUsable(a, s) && Polar(a, s, row, env)
    ensures Polar(Not(a), s, row, env)
  {
    if ScalarWidens(Not(a), s) && Eval(Not(a), row, env).True? { NotIsSound(a, s, row); }
    if ScalarNarrows(Not(a), s) && Eval(Not(a), row, env).False? { NotNarrows(a, s, row); }
    if MustNarrow(Not(a), s) && Eval(Not(a), row, env).False? {
      NotSays(a, s);
      NotNarrows(a, s, row);
      NotMeaning(a, s);
    }
  }

  /** Where the operand fails, its negation holds. */
  lemma NotIsSound(a: Expr, s: Settings, row: Row)
    requires a.WellFormed() && |Not(a).Columns()| > 1 && (FromScalar(a, s).None? || FailsFor(a, s, row))
    ensures SoundFor(Not(a), s, row)
  {
    NotMeaning(a, s);
  }

  /** Where the operand holds, its negation fails, if there is one. */
  lemma NotNarrows(a: Expr, s: Settings, row: Row)
    requires a.WellFormed() && |Not(a).Columns()| > 1 && SoundFor(a, s, row)
    ensures FromScalar(Not(a), s).None? || FailsFor(Not(a), s, row)
  {
    NotMeaning(a, s);
  }

  lemma NotSays(a: Expr, s: Settings)
    requires a.WellFormed() && |Not(a).Columns()| > 1 && ListsUsable(a, s) && MustNarrow(Not(a), s)
    ensures Says(a, s)
  {
    KeptSays(a, s);
  }

  /** What a NOT over several columns derives. */
  lemma NotMeaning(a: Expr, s: Settings)
    requires a.WellFormed() && |Not(a).Columns()| > 1
    ensures FromScalar(Not(a), s) ==
      if Says(a, s) then Some(Derived(Negation(FromScalar(a, s).value.constraint), [])) else None
  {
    if Says(a, s) { assert [] + [FromScalar(a, s).value.constraint] == [FromScalar(a, s).value.constraint]; }
  }

  lemma IdentsSound(l: Col, op: CmpType, r: Col, s: Settings, row: Row, env: Env)
    requires Eval(TermCmp(Ident(l), op, Ident(r)), row, env).True? && !op.IsDistinct?
    ensures var d := FromIdents(l, op, r, s); d.constraint.Sat(row) && AllEquate(d.classes, row)
  {
    UnboundedCorrect(l, false);
    UnboundedCorrect(r, false);
    MakeCorrect([NotNull(l), NotNull(r)], true, s.arrays);
  }

  // ----- Which classes are derived

  /** The classes of a child that says something; a child that says nothing is skipped with its classes. */
  function SaidClasses(e: Expr, s: Settings): Classes
    requires e.WellFormed()
  {
    if Says(e, s) then FromScalar(e, s).value.classes else []
  }

  function AllSaid(es: seq<Expr>, s: Settings): seq<Classes>
    requires forall e | e in es :: e.WellFormed()
  {
    seq(|es|, k requires 0 <= k < |es| => SaidClasses(es[k], s))
  }

  /** Equal throughout exactly where all of the first `n` arrays of classes are, and on just their columns. */
  ghost predicate Merges(classes: Classes, said: seq<Classes>, n: nat, row: Row)
    requires n <= |said|
  {
    && Disjoint(classes) && NonEmpty(classes)
    && (AllEquate(classes, row) <==> EachEquates(said, n, row))
    && (forall c :: c in Members(classes) <==> InSomeClass(c, said, n))
  }

  ghost predicate EachEquates(said: seq<Classes>, n: nat, row: Row)
    requires n <= |said|
  {
    forall k | 0 <= k < n :: AllEquate(said[k], row)
  }

  ghost predicate InSomeClass(c: Col, said: seq<Classes>, n: nat)
    requires n <= |said|
  {
    exists k :: 0 <= k < n && c in Members(said[k])
  }

  /** The loop of an AND merges the classes of all its children, skipping none that says something. */
  lemma {:induction false} AndClasses(es: seq<Expr>, n: nat, s: Settings, row: Row)
    requires n <= |es| && (forall a | a in es :: a.WellFormed())
    ensures FromChildren(es, n, AndOp, s).Some?
    ensures Merges(FromChildren(es, n, AndOp, s).value.classes, AllSaid(es, s), n, row)
    decreases n
  {
    if n > 0 {
      AndClasses(es, n - 1, s, row);
      MergeOneMore(FromChildren(es, n - 1, AndOp, s).value, es, n, s, row);
    }
  }

  lemma MergeOneMore(state: ChildrenState, es: seq<Expr>, n: nat, s: Settings, row: Row)
    requires 0 < n <= |es| && (forall a | a in es :: a.WellFormed()) && state.Built()
    requires Merges(state.classes, AllSaid(es, s), n - 1, row)
    ensures AddChild(Some(state), FromScalar(es[n - 1], s), AndOp).Some?
    ensures Merges(AddChild(Some(state), FromScalar(es[n - 1], s), AndOp).value.classes, AllSaid(es, s), n, row)
  {
    SaidShape(es[n - 1], s);
    MergesNext(state.classes, AllSaid(es, s), n, row);
  }

  lemma SaidShape(e: Expr, s: Settings)
    requires e.WellFormed()
    ensures Disjoint(SaidClasses(e, s)) && NonEmpty(SaidClasses(e, s))
  {
    if Says(e, s) { FromScalarShape(e, s); }
  }

  lemma MergesNext(classes: Classes, said: seq<Classes>, n: nat, row: Row)
    requires 0 < n <= |said| && Merges(classes, said, n - 1, row) && Disjoint(said[n - 1]) && NonEmpty(said[n - 1])
    ensures Merges(MergeFromBoolOp(AndOp, classes, said[n - 1]), said, n, row)
    ensures said[n - 1] == [] ==> Merges(classes, said, n, row)
  {
    MergeCorrect(classes, said[n - 1], row);
    assert forall c :: InSomeClass(c, said, n) <==> InSomeClass(c, said, n - 1) || c in Members(said[n - 1]);
  }

  /**
   What an AND over several columns derives: classes that are equal throughout exactly where those
   of all its children that say something are, and that have just their columns.
   */
  lemma AndDerivesClasses(es: seq<Expr>, s: Settings, row: Row)
    requires And(es).WellFormed() && |And(es).Columns()| > 1 && FromScalar(And(es), s).Some?
    ensures Merges(FromScalar(And(es), s).value.classes, AllSaid(es, s), |es|, row)
  {
    AndClasses(es, |es|, s, row);
    FinishExact(FromChildren(es, |es|, AndOp, s), AndOp, s, row);
  }

  /** What all other expressions derive: the one column, the two columns of an equality, or nothing. */
  lemma OtherClasses(e: Expr, s: Settings)
    requires e.WellFormed() && FromScalar(e, s).Some?
    ensures |e.Columns()| == 1 ==> FromScalar(e, s).value.classes == [e.Columns()]
    ensures |e.Columns()| > 1 && e.TermCmp? ==>
      FromScalar(e, s).value.classes == if e.op.Eq? then [e.Columns()] else []
    ensures |e.Columns()| > 1 && (e.Or? || e.Not?) ==> FromScalar(e, s).value.classes == []
  {
    var cols := e.Columns();
    if |cols| == 1 {
      OneColumnIsFirst(cols, FirstColumn(cols));
    } else if e.TermCmp? {
      assert cols == {e.left.col, e.right.col};
    } else if e.Or? {
      FromScalarShape(e, s);
    } else if e.Not? {
      NotMeaning(e.arg, s);
    }
  }

  /** Nothing is derived without columns, or from other expressions over several columns. */
  lemma OthersDeriveNothing(e: Expr, s: Settings)
    requires e.WellFormed() && |e.Columns()| != 1
    ensures |e.Columns()| == 0 ==> FromScalar(e, s).None?
    ensures e.TermCmp? ==> (FromScalar(e, s).Some? <==>
      |e.Columns()| > 1 && e.left.Ident? && e.right.Ident? && !e.op.IsDistinct?)
    ensures e.Opaque? ==> FromScalar(e, s).None?
  {
  }

  // ----- Negations

  /** No NOT stands above several columns. */
  predicate NoWideNot(e: Expr) {
    |e.Columns()| <= 1 ||
    match e
    case And(es) => forall a | a in es :: NoWideNot(a)
    case Or(es) => forall a | a in es :: NoWideNot(a)
    case Not(_) => false
    case _ => true
  }

  lemma {:induction false} FromScalarNegationFree(e: Expr, s: Settings)
    requires e.WellFormed() && NoWideNot(e) && FromScalar(e, s).Some?
    ensures FromScalar(e, s).value.constraint.NegationFree()
  {
    var cols := e.Columns();
    if |cols| == 1 {
      OneColumnIsFirst(cols, FirstColumn(cols));
      OneColumnNegationFree(e, FirstColumn(cols), s);
    } else {
      match e
      case And(es) =>
        forall a | a in es && FromScalar(a, s).Some? ensures FromScalar(a, s).value.constraint.NegationFree() {
          FromScalarNegationFree(a, s);
        }
        NodeNegationFree(es, true, s);
      case Or(es) =>
        forall a | a in es && FromScalar(a, s).Some? ensures FromScalar(a, s).value.constraint.NegationFree() {
          FromScalarNegationFree(a, s);
        }
        NodeNegationFree(es, false, s);
      case TermCmp(Ident(l), op, Ident(r)) =>
        UnboundedCorrect(l, false);
        UnboundedCorrect(r, false);
        MakeNegationFree([NotNull(l), NotNull(r)], true, s.arrays);
    }
  }

  lemma OneColumnNegationFree(e: Expr, col: Col, s: Settings)
    requires e.WellFormed() && e.Columns() == {col} && FromOneColumn(e, col, s).Some?
    ensures FromOneColumn(e, col, s).value.constraint.NegationFree()
  {
    if Parse(e, col, s.arrays).None? {
      CompareLeavesAre(col, e.op, e.consts);
      MakeNegationFree(CompareLeaves(col, e.op, e.consts), e.quantifier.AllOf?, s.arrays);
    }
  }

  lemma NodeNegationFree(es: seq<Expr>, conj: bool, s: Settings)
    requires (forall a | a in es :: a.WellFormed()) && |BoolOp(conj, es).Columns()| > 1
    requires forall a | a in es && FromScalar(a, s).Some? :: FromScalar(a, s).value.constraint.NegationFree()
    requires |es| > 0 && FromScalar(BoolOp(conj, es), s).Some?
    ensures FromScalar(BoolOp(conj, es), s).value.constraint.NegationFree()
  {
    NodeDerives(es, conj, s);
    ChildrenNegationFree(es, KindOf(conj), s);
  }

  lemma ChildrenNegationFree(es: seq<Expr>, kind: BoolKind, s: Settings)
    requires (forall a | a in es :: a.WellFormed()) && !kind.NotOp?
    requires forall a | a in es && FromScalar(a, s).Some? :: FromScalar(a, s).value.constraint.NegationFree()
    requires Finish(FromChildren(es, |es|, kind, s), kind, s).Some?
    ensures Finish(FromChildren(es, |es|, kind, s), kind, s).value.constraint.NegationFree()
  {
    ChildrenAre(es, |es|, kind, s);
    var cs := FromChildren(es, |es|, kind, s).value.constraints;
    forall c | c in cs ensures c.NegationFree() {
      var k :| 0 <= k < |es| && Says(es[k], s) && FromScalar(es[k], s).value.constraint == c;
      assert es[k] in es;
    }
    assert cs[0] in cs;
    if |cs| > 1 { MakeNegationFree(cs, kind.AndOp?, s.arrays); }
  }

  // ----- Normal forms

  /** All intervals derived are in normal form. */
  lemma {:induction false} FromScalarNormalLeaves(e: Expr, s: Settings)
    requires e.WellFormed() && FromScalar(e, s).Some?
    ensures FromScalar(e, s).value.constraint.NormalLeaves()
  {
    var cols := e.Columns();
    if |cols| == 1 {
      OneColumnIsFirst(cols, FirstColumn(cols));
      OneColumnNormalLeaves(e, FirstColumn(cols), s);
    } else {
      match e
      case And(es) =>
        forall a | a in es && FromScalar(a, s).Some? ensures FromScalar(a, s).value.constraint.NormalLeaves() {
          FromScalarNormalLeaves(a, s);
        }
        NodeDerives(es, true, s);
        ChildrenNormalLeaves(es, AndOp, s);
      case Or(es) =>
        forall a | a in es && FromScalar(a, s).Some? ensures FromScalar(a, s).value.constraint.NormalLeaves() {
          FromScalarNormalLeaves(a, s);
        }
        NodeDerives(es, false, s);
        ChildrenNormalLeaves(es, OrOp, s);
      case Not(a) =>
        NotMeaning(a, s);
        FromScalarNormalLeaves(a, s);
      case TermCmp(Ident(l), op, Ident(r)) =>
        UnboundedCorrect(l, false);
        UnboundedCorrect(r, false);
        MakeNormalLeaves([NotNull(l), NotNull(r)], true, s.arrays);
    }
  }

  lemma OneColumnNormalLeaves(e: Expr, col: Col, s: Settings)
    requires e.WellFormed() && e.Columns() == {col} && FromOneColumn(e, col, s).Some?
    ensures FromOneColumn(e, col, s).value.constraint.NormalLeaves()
  {
    if Parse(e, col, s.arrays).Some? {
      ParseExact(e, col, s.arrays, _ => Null);
    } else {
      CompareLeavesAre(col, e.op, e.consts);
      forall c | c in CompareLeaves(col, e.op, e.consts) ensures c.NormalLeaves() {
        var d :| d in e.consts && c == CompareLeaf(col, e.op, d);
        FromCmpExact(col, e.op, d.v);
      }
      MakeNormalLeaves(CompareLeaves(col, e.op, e.consts), e.quantifier.AllOf?, s.arrays);
    }
  }

  lemma ChildrenNormalLeaves(es: seq<Expr>, kind: BoolKind, s: Settings)
    requires (forall a | a in es :: a.WellFormed()) && !kind.NotOp?
    requires forall a | a in es && FromScalar(a, s).Some? :: FromScalar(a, s).value.constraint.NormalLeaves()
    requires Finish(FromChildren(es, |es|, kind, s), kind, s).Some?
    ensures Finish(FromChildren(es, |es|, kind, s), kind, s).value.constraint.NormalLeaves()
  {
    ChildrenAre(es, |es|, kind, s);
    var cs := FromChildren(es, |es|, kind, s).value.constraints;
    forall c | c in cs ensures c.NormalLeaves() {
      var k :| 0 <= k < |es| && Says(es[k], s) && FromScalar(es[k], s).value.constraint == c;
      assert es[k] in es;
    }
    assert cs[0] in cs;
    if |cs| > 1 { MakeNormalLeaves(cs, kind.AndOp?, s.arrays); }
  }

  // ----- What fails

  /**
   A NOT above a comparison of two columns: its constraint, "one of them is NULL", fails on
   every row on which it is TRUE.
   */
  lemma NotOverComparisonIsUnsound(l: Col, op: CmpType, r: Col, s: Settings, row: Row, env: Env)
    requires l != r && !op.IsDistinct? && Eval(Not(TermCmp(Ident(l), op, Ident(r))), row, env).True?
    ensures FailsFor(Not(TermCmp(Ident(l), op, Ident(r))), s, row)
  {
    var cmp := TermCmp(Ident(l), op, Ident(r));
    var d := FromComparison(l, op, r, s);
    assert Not(cmp).Columns() == cmp.Columns();
    NotMeaning(cmp, s);
  }

  /** a = b gives exactly "a is not NULL and b is not NULL", which is not known to be unbounded. */
  lemma FromComparison(l: Col, op: CmpType, r: Col, s: Settings) returns (d: Derived)
    requires l != r && !op.IsDistinct?
    ensures var cmp := TermCmp(Ident(l), op, Ident(r)); |cmp.Columns()| == 2 && FromScalar(cmp, s) == Some(d)
    ensures d.classes == if op.Eq? then [{l, r}] else []
    ensures !d.constraint.IsUnbounded()
    ensures forall row: Row :: d.constraint.Sat(row) <==> row(l).Val? && row(r).Val?
  {
    assert TermCmp(Ident(l), op, Ident(r)).Columns() == {l, r};
    assert |{l, r}| == 2;
    var cs := [NotNull(l), NotNull(r)];
    UnboundedCorrect(l, false);
    UnboundedCorrect(r, false);
    MakeCorrect(cs, true, s.arrays);
    d := FromIdents(l, op, r, s);
    forall row: Row ensures d.constraint.Sat(row) <==> row(l).Val? && row(r).Val? {
      assert Holds(cs, true, row) <==> cs[0].Sat(row) && cs[1].Sat(row);
    }
  }
}
