/**
 Predicates implied on a column by the constraints on its equivalent columns
 (CPropConstraint.cpp).
 */
module ImpliedPredicates {
  import opened Options
  import opened Intervals
  import opened Scalars
  import opened Derivation
  import opened Printing
  import opened Constraints
  import opened Projections
  import opened EquivClasses

  /**
   The predicate on `col` from the constraints on the other columns of its class: project,
   move to `col`, print.
   */
  function Implied(c: Option<Constraint>, cls: Option<set<Col>>, col: Col, arrays: bool): Option<Expr>
    requires c.Some? ==> c.value.Built()
  {
    if c.None? || cls.None? || |cls.value| == 1 then None
    else
      var p := OnCols(c.value, cls.value - {col}, arrays);
      if p.None? then None else Some(Scalar(Remap(p.value, col, arrays), arrays))
  }

  // ----- Expressions of constraints against SQL

  /**
   The SQL value of a constraint's expression: the values of its printed intervals combined by
   AND, OR and NOT.  The negation of an interval prints as its complement, and a double
   negation is dropped.
   */
  ghost function TruthOf(c: Constraint, arrays: bool, row: Row): Truth {
    match c
    case Leaf(p) => PrintTruth(p, arrays, row(p.col))
    case Conjunction(cs) =>
      if exists d | d in cs :: TruthOf(d, arrays, row).False? then False
      else if forall d | d in cs :: TruthOf(d, arrays, row).True? then True
      else Unknown
    case Disjunction(cs) =>
      if exists d | d in cs :: TruthOf(d, arrays, row).True? then True
      else if forall d | d in cs :: TruthOf(d, arrays, row).False? then False
      else Unknown
    case Negation(Negation(d)) => TruthOf(d, arrays, row)
    case Negation(Leaf(p)) => PrintTruth(Complement(p), arrays, row(p.col))
    case Negation(d) => Negate(TruthOf(d, arrays, row))
  }

  /** A constraint known to be unbounded is TRUE on every row, one known to be contradictory FALSE. */
  lemma {:induction false} KnownTruth(c: Constraint, arrays: bool, row: Row)
    requires c.Built()
    ensures c.IsUnbounded() ==> TruthOf(c, arrays, row).True?
    ensures c.IsContradiction() ==> TruthOf(c, arrays, row).False?
    decreases c
  {
    match c
    case Leaf(p) =>
    case Conjunction(cs) =>
      forall d | d in cs ensures d.IsContradiction() ==> TruthOf(d, arrays, row).False? { KnownTruth(d, arrays, row); }
    case Disjunction(cs) =>
      forall d | d in cs ensures d.IsContradiction() ==> TruthOf(d, arrays, row).False? { KnownTruth(d, arrays, row); }
      assert cs[0] in cs;
    case Negation(Negation(d)) =>
      KnownTruth(d, arrays, row);
      assert c.child.IsUnbounded() == d.IsContradiction() && c.child.IsContradiction() == d.IsUnbounded();
    case Negation(Leaf(p)) =>
      ComplementKnown(p);
      assert c.child.IsContradiction() == p.IsContradiction() && c.child.IsUnbounded() == p.IsUnbounded();
    case Negation(d) => KnownTruth(d, arrays, row);
  }

  lemma ComplementKnown(p: Interval)
    requires p.Valid()
    ensures p.IsUnbounded() ==> Complement(p).IsContradiction()
    ensures p.IsContradiction() ==> Complement(p).IsUnbounded() && forall d :: Complement(p).Has(d)
  {
    ComplementCorrect(p);
    ContradictionAndUnboundedExact(Complement(p));
    if p.IsUnbounded() {
      assert forall x :: p.ranges[0].Has(x);
      forall d ensures !Complement(p).Has(d) { assert p.Has(d); }
    }
    if p.IsContradiction() {
      forall d ensures Complement(p).Has(d) { assert !p.Has(d); }
    }
  }

  /** The expression of a constraint has that SQL value, on every row, with or without NULLs. */
  lemma {:induction false} ScalarHasTruth(c: Constraint, arrays: bool, row: Row, env: Env)
    requires c.Built()
    ensures Eval(Scalar(c, arrays), row, env) == TruthOf(c, arrays, row)
    decreases c
  {
    match c
    case Leaf(p) => PrintHasTruth(p, arrays, row, env);
    case Negation(Negation(d)) => ScalarHasTruth(d, arrays, row, env);
    case Negation(Leaf(p)) => NegatedLeafHasTruth(p, arrays, row, env);
    case Negation(d) => ScalarHasTruth(d, arrays, row, env);
    case _ =>
      var cs := c.children;
      forall d | d in cs ensures Eval(Scalar(d, arrays), row, env) == TruthOf(d, arrays, row) {
        ScalarHasTruth(d, arrays, row, env);
      }
      NodeHasTruth(c, arrays, row, env);
  }

  lemma NegatedLeafHasTruth(p: Interval, arrays: bool, row: Row, env: Env)
    requires p.Valid()
    ensures Eval(Scalar(Negation(Leaf(p)), arrays), row, env) == TruthOf(Negation(Leaf(p)), arrays, row)
  {
    ComplementCorrect(p);
    PrintHasTruth(Complement(p), arrays, row, env);
  }

  lemma NodeHasTruth(c: Constraint, arrays: bool, row: Row, env: Env)
    requires c.Built() && (c.Conjunction? || c.Disjunction?)
    requires forall d | d in c.children :: Eval(Scalar(d, arrays), row, env) == TruthOf(d, arrays, row)
    ensures Eval(Scalar(c, arrays), row, env) == TruthOf(c, arrays, row)
  {
    KnownTruth(c, arrays, row);
    ScalarsHaveTruth(c.children, c.Conjunction?, arrays, row, env);
  }

  lemma ScalarsHaveTruth(cs: seq<Constraint>, conj: bool, arrays: bool, row: Row, env: Env)
    requires forall d | d in cs :: Eval(Scalar(d, arrays), row, env) == TruthOf(d, arrays, row)
    ensures Eval(MakeConjDisj(ScalarsOf(cs, arrays), conj), row, env) == TruthOf(Node(cs, conj), arrays, row)
  {
    var es := ScalarsOf(cs, arrays);
    MakeConjDisjMeaning(es, conj, row, env, arrays);
    forall k | 0 <= k < |cs| ensures es[k] == Scalar(cs[k], arrays) { ScalarsOfAt(cs, arrays, k); }
    TruthsCombine(es, cs, conj, arrays, row, env);
  }

  lemma TruthsCombine(es: seq<Expr>, cs: seq<Constraint>, conj: bool, arrays: bool, row: Row, env: Env)
    requires |es| == |cs| && forall k :: 0 <= k < |cs| ==> es[k] == Scalar(cs[k], arrays)
    requires forall d | d in cs :: Eval(Scalar(d, arrays), row, env) == TruthOf(d, arrays, row)
    ensures Eval(BoolOp(conj, es), row, env) == TruthOf(Node(cs, conj), arrays, row)
  {
    ValuesMatch(es, cs, arrays, row, env, True);
    ValuesMatch(es, cs, arrays, row, env, False);
    ValuesMatch(es, cs, arrays, row, env, Unknown);
    TruthsOfNode(es, cs, conj, arrays, row, env);
  }

  /** Which values occur decides the value of an AND or OR. */
  lemma TruthsOfNode(es: seq<Expr>, cs: seq<Constraint>, conj: bool, arrays: bool, row: Row, env: Env)
    requires (exists e | e in es :: Eval(e, row, env) == True) <==>
      (exists d | d in cs :: TruthOf(d, arrays, row) == True)
    requires (exists e | e in es :: Eval(e, row, env) == False) <==>
      (exists d | d in cs :: TruthOf(d, arrays, row) == False)
    requires (exists e | e in es :: Eval(e, row, env) == Unknown)
      <==> (exists d | d in cs :: TruthOf(d, arrays, row) == Unknown)
    ensures Eval(BoolOp(conj, es), row, env) == TruthOf(Node(cs, conj), arrays, row)
  {
  }

  lemma ValuesMatch(es: seq<Expr>, cs: seq<Constraint>, arrays: bool, row: Row, env: Env, t: Truth)
    requires |es| == |cs| && forall k :: 0 <= k < |cs| ==> es[k] == Scalar(cs[k], arrays)
    requires forall d | d in cs :: Eval(Scalar(d, arrays), row, env) == TruthOf(d, arrays, row)
    ensures (exists e | e in es :: Eval(e, row, env) == t) <==> (exists d | d in cs :: TruthOf(d, arrays, row) == t)
  {
    if e :| e in es && Eval(e, row, env) == t {
      var k :| 0 <= k < |es| && es[k] == e;
      assert cs[k] in cs;
    }
    if d :| d in cs && TruthOf(d, arrays, row) == t {
      var k :| 0 <= k < |cs| && cs[k] == d;
      assert es[k] in es;
    }
  }

  /** None of the intervals as they are printed is an array comparison that lists NULL. */
  ghost predicate ListsNoNull(c: Constraint, arrays: bool) {
    match c
    case Leaf(p) => !(ArrayShape(p, arrays) && p.includesNull)
    case Conjunction(cs) => forall d | d in cs :: ListsNoNull(d, arrays)
    case Disjunction(cs) => forall d | d in cs :: ListsNoNull(d, arrays)
    case Negation(Negation(d)) => ListsNoNull(d, arrays)
    case Negation(Leaf(p)) => !(ArrayShape(Complement(p), arrays) && Complement(p).includesNull)
    case Negation(d) => ListsNoNull(d, arrays)
  }

  /**
   If so, the expression is TRUE or FALSE as the constraint holds or not, on every row without
   NULL in its columns.
   */
  lemma ScalarIsTrue(c: Constraint, arrays: bool, row: Row, env: Env)
    requires c.Built() && ListsNoNull(c, arrays)
    requires forall k | k in c.Columns() :: row(k).Val?
    ensures Eval(Scalar(c, arrays), row, env) == FromBool(c.Sat(row))
  {
    ScalarHasTruth(c, arrays, row, env);
    TruthIsSat(c, arrays, row);
  }

  lemma {:induction false} TruthIsSat(c: Constraint, arrays: bool, row: Row)
    requires c.Built() && ListsNoNull(c, arrays)
    requires forall k | k in c.Columns() :: row(k).Val?
    ensures TruthOf(c, arrays, row) == FromBool(c.Sat(row))
    decreases c
  {
    match c
    case Leaf(p) => assert p.col in c.Columns();
    case Conjunction(cs) =>
      forall d | d in cs ensures TruthOf(d, arrays, row) == FromBool(d.Sat(row)) { TruthIsSat(d, arrays, row); }
    case Disjunction(cs) =>
      forall d | d in cs ensures TruthOf(d, arrays, row) == FromBool(d.Sat(row)) { TruthIsSat(d, arrays, row); }
    case Negation(Negation(d)) =>
      assert c.child.Columns() == d.Columns();
      TruthIsSat(d, arrays, row);
    case Negation(Leaf(p)) =>
      assert p.col in c.Columns();
      ComplementCorrect(p);
    case Negation(d) => TruthIsSat(d, arrays, row);
  }

  // ----- The implied predicate

  /** All columns of the class have the same datum in the row. */
  ghost predicate Agree(cls: set<Col>, row: Row) {
    forall k, l | k in cls && l in cls :: row(k) == row(l)
  }

  /**
   The exact law, for every constraint with or without negations: on a row with one and the same
   datum throughout the class, the implied predicate reads true exactly if the constraint holds
   with all that does not mention the class's other columns left out.
   */
  lemma ImpliedReadsIff(c: Constraint, cls: set<Col>, col: Col, arrays: bool, row: Row)
    requires c.Built() && col in cls && Agree(cls, row)
    requires Implied(Some(c), Some(cls), col, arrays).Some?
    ensures var e := Implied(Some(c), Some(cls), col, arrays).value;
            e.Columns() <= {col} && (Reads(e, row, arrays) <==> HoldsOn(c, cls - {col}, row))
  {
    var p := OnCols(c, cls - {col}, arrays).value;
    OnColsExact(c, cls - {col}, arrays, row);
    RemapExact(p, col, arrays, row);
    ScalarExact(Remap(p, col, arrays), row, arrays);
  }

  /** Something is implied as soon as the constraint mentions another column of the class. */
  lemma ImpliedPresent(c: Constraint, cls: set<Col>, col: Col, arrays: bool)
    requires c.Built() && col in cls && !(c.Columns() !! cls - {col})
    ensures Implied(Some(c), Some(cls), col, arrays).Some?
  {
    var k :| k in c.Columns() && k in cls - {col};
    assert |cls - {col} - {k}| == |cls| - 2;
    OnColsPresent(c, cls - {col}, arrays);
  }

  /**
   In SQL, with a datum that is not NULL throughout the class: unless an interval of the remapped
   projection prints as an array comparison with NULL listed, which takes array constraints, the
   implied predicate is TRUE or FALSE just so.
   */
  lemma ImpliedIsHoldsOn(c: Constraint, cls: set<Col>, col: Col, arrays: bool, row: Row, env: Env)
    requires c.Built() && col in cls && Agree(cls, row) && row(col).Val?
    requires Implied(Some(c), Some(cls), col, arrays).Some?
    ensures var p, e := OnCols(c, cls - {col}, arrays), Implied(Some(c), Some(cls), col, arrays).value;
      p.Some? && (!arrays || ListsNoNull(Remap(p.value, col, arrays), arrays) ==>
        Eval(e, row, env) == FromBool(HoldsOn(c, cls - {col}, row)))
  {
    var p := OnCols(c, cls - {col}, arrays).value;
    OnColsExact(c, cls - {col}, arrays, row);
    RemapExact(p, col, arrays, row);
    var r := Remap(p, col, arrays);
    if !arrays { NoListsNoNull(r); }
    if ListsNoNull(r, arrays) { ScalarIsTrue(r, arrays, row, env); }
  }

  lemma {:induction false} NoListsNoNull(c: Constraint)
    ensures ListsNoNull(c, false)
    decreases c
  {
    match c
    case Leaf(_) =>
    case Conjunction(cs) => forall d | d in cs ensures ListsNoNull(d, false) { NoListsNoNull(d); }
    case Disjunction(cs) => forall d | d in cs ensures ListsNoNull(d, false) { NoListsNoNull(d); }
    case Negation(Negation(d)) => NoListsNoNull(d);
    case Negation(Leaf(_)) =>
    case Negation(d) => NoListsNoNull(d);
  }

  /**
   So where projection only widens, on every such row that satisfies the constraint the implied
   predicate reads true.
   */
  lemma ImpliedReads(c: Constraint, cls: set<Col>, col: Col, arrays: bool, row: Row)
    requires c.Built() && WidensOn(c, cls - {col}) && c.Sat(row)
    requires col in cls && Agree(cls, row)
    requires Implied(Some(c), Some(cls), col, arrays).Some?
    ensures var e := Implied(Some(c), Some(cls), col, arrays).value;
            e.Columns() <= {col} && Reads(e, row, arrays)
  {
    ImpliedReadsIff(c, cls, col, arrays, row);
    HoldsOnPolarity(c, cls - {col}, row);
  }

  /** Each constraint is on just these columns, or on none of them. */
  ghost predicate Separated(cs: seq<Constraint>, cols: set<Col>) {
    forall d | d in cs :: d.Columns() <= cols || d.Columns() !! cols
  }

  /** The constraints that mention the columns hold. */
  ghost predicate KeptHold(cs: seq<Constraint>, cols: set<Col>, conj: bool, row: Row) {
    if conj then forall d | d in cs && !(d.Columns() !! cols) :: d.Sat(row)
    else exists d | d in cs && !(d.Columns() !! cols) :: d.Sat(row)
  }

  /**
   Below a negation the children of a conjunction that do not mention the class's other columns
   are skipped, which narrows: what is implied reads false wherever all the others hold.
   */
  lemma NegatedConjunctionReads(cs: seq<Constraint>, cls: set<Col>, col: Col, arrays: bool, row: Row)
    requires Conjunction(cs).Built() && col in cls && Agree(cls, row) && Separated(cs, cls - {col})
    requires !(Conjunction(cs).Columns() !! cls - {col})
    ensures var e := Implied(Some(Negation(Conjunction(cs))), Some(cls), col, arrays);
      e.Some? && (Reads(e.value, row, arrays) <==> !KeptHold(cs, cls - {col}, true, row))
  {
    var n := Negation(Conjunction(cs));
    ImpliedPresent(n, cls, col, arrays);
    ImpliedReadsIff(n, cls, col, arrays, row);
    KeptAre(cs, cls - {col}, row);
  }

  /** The one child of a disjunction that does not mention them makes what is implied read false on every row. */
  lemma NegatedDisjunctionReads(cs: seq<Constraint>, cls: set<Col>, col: Col, arrays: bool, row: Row)
    requires Disjunction(cs).Built() && col in cls && Agree(cls, row) && Separated(cs, cls - {col})
    requires !(Disjunction(cs).Columns() !! cls - {col})
    ensures var e := Implied(Some(Negation(Disjunction(cs))), Some(cls), col, arrays);
      e.Some? && (Reads(e.value, row, arrays) <==>
        (forall d | d in cs :: !(d.Columns() !! cls - {col})) && !KeptHold(cs, cls - {col}, false, row))
  {
    var n := Negation(Disjunction(cs));
    ImpliedPresent(n, cls, col, arrays);
    ImpliedReadsIff(n, cls, col, arrays, row);
    KeptAre(cs, cls - {col}, row);
  }

  lemma KeptAre(cs: seq<Constraint>, cols: set<Col>, row: Row)
    requires AllBuilt(cs) && Separated(cs, cols)
    ensures forall d | d in cs :: HoldsOn(d, cols, row) <==> d.Columns() !! cols || d.Sat(row)
  {
    forall d | d in cs && d.Columns() <= cols
      ensures !(d.Columns() !! cols) && (HoldsOn(d, cols, row) <==> d.Sat(row))
    {
      WithinIsExact(d, cols);
      HoldsOnPolarity(d, cols, row);
    }
  }

  /**
   From NOT (p and q), with p on another column of the class and q on none of those, NOT p is
   implied, which every row with p and without q refutes.
   */
  lemma NegationImpliesTooMuch(p: Interval, q: Interval, cls: set<Col>, col: Col, arrays: bool, row: Row)
    requires p.Valid() && q.Valid() && col in cls && p.col in cls - {col} && q.col !in cls - {col}
    requires Agree(cls, row) && p.Has(row(p.col)) && !q.Has(row(q.col))
    ensures var c := Negation(Conjunction([Leaf(p), Leaf(q)]));
      && c.Built() && c.Sat(row)
      && Implied(Some(c), Some(cls), col, arrays).Some?
      && !Reads(Implied(Some(c), Some(cls), col, arrays).value, row, arrays)
  {
    var cs := [Leaf(p), Leaf(q)];
    assert Leaf(p) in cs && Leaf(q) in cs && forall c :: c in cs <==> c == Leaf(p) || c == Leaf(q);
    assert Leaf(p).Columns() == {p.col} && Leaf(q).Columns() == {q.col};
    assert p.col in Conjunction(cs).Columns();
    NegatedConjunctionReads(cs, cls, col, arrays, row);
  }

  /** The interval that the implied predicate prints. */
  function ImpliedInterval(c: Constraint, cls: set<Col>, col: Col, arrays: bool): Option<Interval>
    requires c.Built()
  {
    var p := OnCols(c, cls - {col}, arrays);
    if |cls| == 1 || p.None? then None else OnlyInterval(Remap(p.value, col, arrays))
  }

  lemma ImpliedPrintsInterval(c: Constraint, cls: set<Col>, col: Col, arrays: bool)
    requires c.Built() && c.NegationFree()
    ensures var e, q := Implied(Some(c), Some(cls), col, arrays), ImpliedInterval(c, cls, col, arrays);
      && (e.Some? <==> q.Some?)
      && (e.Some? ==> e.value == Print(q.value, arrays) && q.value.Valid() && q.value.col == col)
  {
    var p := OnCols(c, cls - {col}, arrays);
    if |cls| != 1 && p.Some? {
      OnColsNegationFree(c, cls - {col}, arrays);
      RemapIsInterval(p.value, col, arrays);
      OnlyIntervalPrints(Remap(p.value, col, arrays), arrays);
    }
  }

  /**
   In SQL, with a datum that is not NULL throughout the class: the implied predicate is TRUE
   exactly if its interval does not print as NOT IN with NULL listed.
   */
  lemma ImpliedIsTrueIff(c: Constraint, cls: set<Col>, col: Col, arrays: bool, row: Row, env: Env)
    requires c.Built() && c.NegationFree() && c.Sat(row)
    requires col in cls && Agree(cls, row) && row(col).Val?
    requires Implied(Some(c), Some(cls), col, arrays).Some?
    ensures ImpliedInterval(c, cls, col, arrays).Some?
    ensures Eval(Implied(Some(c), Some(cls), col, arrays).value, row, env).True? <==>
      !NotInWithNull(ImpliedInterval(c, cls, col, arrays).value, arrays)
  {
    ImpliedPrintsInterval(c, cls, col, arrays);
    NegationFreeWidens(c, cls - {col});
    ImpliedReads(c, cls, col, arrays, row);
    var q := ImpliedInterval(c, cls, col, arrays).value;
    PrintExact(q, row, arrays);
    PrintHasTruth(q, arrays, row, env);
  }

  /** If it does, the implied predicate is TRUE on no row at all. */
  lemma ImpliedNotInWithNullIsNeverTrue(c: Constraint, cls: set<Col>, col: Col, arrays: bool, row: Row, env: Env)
    requires c.Built() && c.NegationFree() && ImpliedInterval(c, cls, col, arrays).Some?
    requires NotInWithNull(ImpliedInterval(c, cls, col, arrays).value, arrays)
    ensures !Eval(Implied(Some(c), Some(cls), col, arrays).value, row, env).True?
  {
    ImpliedPrintsInterval(c, cls, col, arrays);
    PrintHasTruth(ImpliedInterval(c, cls, col, arrays).value, arrays, row, env);
  }

  /** It does for "a <> 1 or a is NULL" on an equivalent column a. */
  lemma ImpliedNotInWithNull()
    ensures var p := Interval(0, GapRanges([1.0]), true);
      && Leaf(p).Built() && Leaf(p).NegationFree()
      && ImpliedInterval(Leaf(p), {0, 1}, 1, true) == Some(p.(col := 1)) && NotInWithNull(p.(col := 1), true)
  {
    var p := Interval(0, GapRanges([1.0]), true);
    GapRangesCorrect([1.0]);
    assert |{0, 1}| == 2 && {0, 1} - {1} == {0};
    assert OnCols(Leaf(p), {0}, true) == Some(Leaf(p)) && Remap(Leaf(p), 1, true) == Leaf(p.(col := 1));
    assert !p.ranges[0].IsPoint() && GapBetween(p.ranges[0], p.ranges[1]);
  }

  // ----- The property object

  /** A constraint with the equivalence classes of columns; `classOf` maps a column to its class. */
  class PropConstraint {
    const classes: Classes
    const constraint: Option<Constraint>
    const arrays: bool
    var classOf: map<Col, set<Col>>

    ghost predicate Valid()
      reads this
    {
      && (constraint.Some? ==> constraint.value.Built())
      // as the code asserts while it fills the map
      && Disjoint(classes)
      && (forall col :: col in classOf <==> exists k :: 0 <= k < |classes| && col in classes[k])
      && (forall k, col | 0 <= k < |classes| && col in classes[k] :: col in classOf && classOf[col] == classes[k])
    }

    constructor (classes: Classes, constraint: Option<Constraint>, arrays: bool)
      requires constraint.Some? ==> constraint.value.Built()
      requires Disjoint(classes)
      ensures Valid() && this.classes == classes && this.constraint == constraint && this.arrays == arrays
    {
      this.classes, this.constraint, this.arrays := classes, constraint, arrays;
      classOf := map[];
      new;
      InitHashMap();
    }

    /** Map every column to its class, class by class. */
    method InitHashMap()
      requires Disjoint(classes) && classOf == map[] && (constraint.Some? ==> constraint.value.Built())
      modifies this`classOf
      ensures Valid()
    {
      for k := 0 to |classes|
        invariant forall col :: col in classOf <==> exists l :: 0 <= l < k && col in classes[l]
        invariant forall l, col | 0 <= l < k && col in classes[l] :: col in classOf && classOf[col] == classes[l]
      {
        MapColumns(classes[k]);
      }
    }

    /** An insertion for a column already there has no effect. */
    method MapColumns(cls: set<Col>)
      modifies this`classOf
      ensures forall col :: col in classOf <==> col in old(classOf) || col in cls
      ensures forall col | col in classOf :: classOf[col] == if col in old(classOf) then old(classOf)[col] else cls
    {
      var rest := cls;
      while |rest| > 0
        invariant rest <= cls
        invariant forall col :: col in classOf <==> col in old(classOf) || col in cls - rest
        invariant forall col | col in classOf :: classOf[col] == if col in old(classOf) then old(classOf)[col] else cls
        decreases |rest|
      {
        var col := FirstColumn(rest);
        if col !in classOf {
          classOf := classOf[col := cls];
        }
        rest := rest - {col};
      }
    }

    /** The predicate that the equivalent columns imply on `col`, if any. */
    method PexprScalarMappedFromEquivCols(col: Col) returns (e: Option<Expr>)
      requires Valid()
      ensures e == Implied(constraint, if col in classOf then Some(classOf[col]) else None, col, arrays)
      ensures e.Some? && constraint.value.NegationFree() ==>
        ImpliedInterval(constraint.value, classOf[col], col, arrays).Some?
      ensures forall row: Row, env: Env | e.Some? && constraint.value.NegationFree() && constraint.value.Sat(row) &&
                Agree(classOf[col], row) && row(col).Val? ::
                Eval(e.value, row, env).True? <==>
                !NotInWithNull(ImpliedInterval(constraint.value, classOf[col], col, arrays).value, arrays)
    {
      ghost var cls := if col in classOf then Some(classOf[col]) else None;
      if cls.Some? && constraint.Some? && constraint.value.NegationFree() {
        ImpliedPrintsInterval(constraint.value, cls.value, col, arrays);
      }
      forall row: Row, env: Env | Implied(constraint, cls, col, arrays).Some? && constraint.value.NegationFree() &&
        constraint.value.Sat(row) && Agree(cls.value, row) && row(col).Val?
        ensures Eval(Implied(constraint, cls, col, arrays).value, row, env).True? <==>
          !NotInWithNull(ImpliedInterval(constraint.value, cls.value, col, arrays).value, arrays)
      {
        ImpliedIsTrueIff(constraint.value, cls.value, col, arrays, row, env);
      }
      if constraint.None? {
        return None;
      }
      if col !in classOf || |classOf[col]| == 1 {
        return None;
      }
      var others := classOf[col] - {col};
      var p := OnCols(constraint.value, others, arrays);
      if p.None? {
        return None;
      }
      var mapped := Remap(p.value, col, arrays);
      e := Some(Scalar(mapped, arrays));
    }
  }
}
