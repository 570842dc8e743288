/**
 Constraints over several columns: how conjunctions and disjunctions are constructed
 (CConstraint.cpp, CConstraintConjunction.cpp, CConstraintDisjunction.cpp,
 CConstraintNegation.cpp), and what they mean.
 */
module Constraints {
  import opened Options
  import opened Intervals
  import opened Scalars
  import opened Derivation
  import opened Printing

  datatype Constraint =
    | Leaf(interval: Interval)
    | Conjunction(children: seq<Constraint>)
    | Disjunction(children: seq<Constraint>)
    | Negation(child: Constraint)
  {
    function Columns(): set<Col> {
      match this
      case Leaf(p) => {p.col}
      case Conjunction(cs) => set c, k | c in cs && k in c.Columns() :: k
      case Disjunction(cs) => set c, k | c in cs && k in c.Columns() :: k
      case Negation(c) => c.Columns()
    }

    /** Does the row satisfy the constraint? */
    ghost predicate Sat(row: Row) {
      match this
      case Leaf(p) => p.Has(row(p.col))
      case Conjunction(cs) => forall c | c in cs :: c.Sat(row)
      case Disjunction(cs) => exists c | c in cs :: c.Sat(row)
      case Negation(c) => !c.Sat(row)
    }

    predicate IsUnbounded() {
      match this
      case Leaf(p) => p.IsUnbounded()
      case Negation(c) => c.IsContradiction()
      case _ => false
    }

    predicate IsContradiction() {
      match this
      case Leaf(p) => p.IsContradiction()
      case Conjunction(cs) => exists c | c in cs :: c.IsContradiction()
      case Disjunction(cs) => forall c | c in cs :: c.IsContradiction()
      case Negation(c) => c.IsUnbounded()
    }

    predicate OnOneColumn() { |Columns()| == 1 }

    predicate NegationFree() {
      match this
      case Leaf(_) => true
      case Conjunction(cs) => forall c | c in cs :: c.NegationFree()
      case Disjunction(cs) => forall c | c in cs :: c.NegationFree()
      case Negation(_) => false
    }

    /** Every interval is in normal form. */
    ghost predicate NormalLeaves() {
      match this
      case Leaf(p) => p.Normal()
      case Conjunction(cs) => forall c | c in cs :: c.NormalLeaves()
      case Disjunction(cs) => forall c | c in cs :: c.NormalLeaves()
      case Negation(c) => c.NormalLeaves()
    }

    predicate IsKind(conj: bool) {
      if conj then Conjunction? else Disjunction?
    }

    /**
     What the constructors establish: sorted leaves, and conjunctions (disjunctions)
     that have children, none of their own kind, and at most one one-column child per column.
     */
    ghost predicate Built() {
      match this
      case Leaf(p) => p.Valid()
      case Conjunction(cs) => |cs| > 0 && OnePerColumn(cs) && forall c | c in cs :: c.Built() && !c.Conjunction?
      case Disjunction(cs) => |cs| > 0 && OnePerColumn(cs) && forall c | c in cs :: c.Built() && !c.Disjunction?
      case Negation(c) => c.Built()
    }
  }

  ghost predicate OnePerColumn(cs: seq<Constraint>) {
    forall k, l :: 0 <= k < l < |cs| && cs[k].OnOneColumn() ==> cs[k].Columns() != cs[l].Columns()
  }

  /** All of the constraints, for a conjunction; some of them, for a disjunction. */
  ghost predicate Holds(cs: seq<Constraint>, conj: bool, row: Row) {
    if conj then forall c | c in cs :: c.Sat(row) else exists c | c in cs :: c.Sat(row)
  }

  function ColumnsOf(cs: seq<Constraint>): set<Col> {
    set c, k | c in cs && k in c.Columns() :: k
  }

  function Node(cs: seq<Constraint>, conj: bool): Constraint {
    if conj then Conjunction(cs) else Disjunction(cs)
  }

  lemma {:induction false} HasColumns(c: Constraint)
    requires c.Built()
    ensures |c.Columns()| > 0
  {
    match c
    case Leaf(p) => assert p.col in c.Columns();
    case Conjunction(cs) => HasColumns(cs[0]); assert cs[0] in cs && cs[0].Columns() <= c.Columns();
    case Disjunction(cs) => HasColumns(cs[0]); assert cs[0] in cs && cs[0].Columns() <= c.Columns();
    case Negation(d) => HasColumns(d);
  }

  /** A row outside its columns does not matter to a constraint. */
  lemma {:induction false} SatOwnColumns(c: Constraint, row: Row, row': Row)
    requires forall k | k in c.Columns() :: row(k) == row'(k)
    ensures c.Sat(row) <==> c.Sat(row')
  {
    match c
    case Leaf(p) => assert p.col in c.Columns();
    case Conjunction(cs) =>
      forall d | d in cs ensures d.Sat(row) <==> d.Sat(row') { SatOwnColumns(d, row, row'); }
    case Disjunction(cs) =>
      forall d | d in cs ensures d.Sat(row) <==> d.Sat(row') { SatOwnColumns(d, row, row'); }
    case Negation(d) => SatOwnColumns(d, row, row');
  }

  /** The two cheap tests are sound for every constructed constraint. */
  lemma {:induction false} UnboundedAndContradictionSound(c: Constraint, row: Row)
    requires c.Built()
    ensures c.IsUnbounded() ==> c.Sat(row)
    ensures c.IsContradiction() ==> !c.Sat(row)
  {
    match c
    case Leaf(p) =>
      if p.IsUnbounded() { assert forall x :: p.ranges[0].Has(x); }
    case Conjunction(cs) =>
      forall d | d in cs ensures d.IsContradiction() ==> !d.Sat(row) { UnboundedAndContradictionSound(d, row); }
    case Disjunction(cs) =>
      forall d | d in cs ensures d.IsContradiction() ==> !d.Sat(row) { UnboundedAndContradictionSound(d, row); }
    case Negation(d) => UnboundedAndContradictionSound(d, row);
  }

  // ----- When the cheap tests are complete

  /** No two of the constraints have a column in common. */
  ghost predicate Independent(cs: seq<Constraint>) {
    forall k, l :: 0 <= k < l < |cs| ==> cs[k].Columns() !! cs[l].Columns()
  }

  /**
   Where no contradiction, or no unbounded constraint, is missed: every interval is in normal form, and what
   would have to be weighed against each other - the children of a conjunction for the first test, those
   of a disjunction for the second - has no column in common.  Negation swaps the two tests.
   */
  ghost predicate EmptyIsKnown(c: Constraint) {
    match c
    case Leaf(p) => p.Normal()
    case Conjunction(cs) => Independent(cs) && forall d | d in cs :: EmptyIsKnown(d)
    case Disjunction(cs) => forall d | d in cs :: EmptyIsKnown(d)
    case Negation(d) => FullIsKnown(d)
  }

  ghost predicate FullIsKnown(c: Constraint) {
    match c
    case Leaf(p) => p.Normal()
    case Conjunction(cs) => exists d | d in cs :: FullIsKnown(d) && !d.IsUnbounded()
    case Disjunction(cs) => Independent(cs) && forall d | d in cs :: FullIsKnown(d) && !d.IsUnbounded()
    case Negation(d) => EmptyIsKnown(d)
  }

  ghost predicate HoldsEverywhere(c: Constraint) {
    forall row: Row :: c.Sat(row)
  }

  ghost predicate HoldsNowhere(c: Constraint) {
    forall row: Row :: !c.Sat(row)
  }

  /** There the answers are exact. */
  lemma KnownIsExact(c: Constraint)
    requires c.Built()
    ensures EmptyIsKnown(c) ==> (c.IsContradiction() <==> HoldsNowhere(c))
    ensures FullIsKnown(c) ==> (c.IsUnbounded() <==> HoldsEverywhere(c))
  {
    forall row: Row ensures c.IsUnbounded() ==> c.Sat(row) { UnboundedAndContradictionSound(c, row); }
    forall row: Row ensures c.IsContradiction() ==> !c.Sat(row) { UnboundedAndContradictionSound(c, row); }
    if EmptyIsKnown(c) && !c.IsContradiction() {
      var row := SomeRow(c);
    }
    if FullIsKnown(c) && !c.IsUnbounded() {
      var row := OtherRow(c);
    }
  }

  /** A row of a constraint that is not a contradiction. */
  lemma {:induction false} SomeRow(c: Constraint) returns (row: Row)
    requires c.Built() && EmptyIsKnown(c) && !c.IsContradiction()
    ensures c.Sat(row)
    decreases c, 1
  {
    match c
    case Leaf(p) =>
      ContradictionAndUnboundedExact(p);
      var v: Datum :| p.Has(v);
      row := _ => v;
    case Conjunction(cs) =>
      row := RowOfAll(cs, |cs|);
      assert cs[..|cs|] == cs;
    case Disjunction(cs) =>
      var d :| d in cs && !d.IsContradiction();
      row := SomeRow(d);
    case Negation(d) => row := OtherRow(d);
  }

  /** A row outside a constraint that is not unbounded. */
  lemma {:induction false} OtherRow(c: Constraint) returns (row: Row)
    requires c.Built() && FullIsKnown(c) && !c.IsUnbounded()
    ensures !c.Sat(row)
    decreases c, 1
  {
    match c
    case Leaf(p) =>
      ContradictionAndUnboundedExact(p);
      var v: Datum :| !p.Has(v);
      row := _ => v;
    case Conjunction(cs) =>
      var d :| d in cs && FullIsKnown(d) && !d.IsUnbounded();
      row := OtherRow(d);
    case Disjunction(cs) =>
      row := RowOfNone(cs, |cs|);
      assert cs[..|cs|] == cs;
    case Negation(d) => row := SomeRow(d);
  }

  /** One row for the first `n` of several independent constraints. */
  lemma {:induction false} RowOfAll(cs: seq<Constraint>, n: nat) returns (row: Row)
    requires n <= |cs| && Independent(cs) && forall d | d in cs :: d.Built() && EmptyIsKnown(d) && !d.IsContradiction()
    ensures forall d | d in cs[..n] :: d.Sat(row)
    decreases cs, 0, n
  {
    if n == 0 {
      row := _ => Null;
    } else {
      var before := RowOfAll(cs, n - 1);
      var own := SomeRow(cs[n - 1]);
      row := Patched(before, own, cs[n - 1].Columns());
      PatchedKeeps(cs, n, before, own);
    }
  }

  lemma {:induction false} RowOfNone(cs: seq<Constraint>, n: nat) returns (row: Row)
    requires n <= |cs| && Independent(cs) && forall d | d in cs :: d.Built() && FullIsKnown(d) && !d.IsUnbounded()
    ensures forall d | d in cs[..n] :: !d.Sat(row)
    decreases cs, 0, n
  {
    if n == 0 {
      row := _ => Null;
    } else {
      var before := RowOfNone(cs, n - 1);
      var own := OtherRow(cs[n - 1]);
      row := Patched(before, own, cs[n - 1].Columns());
      PatchedKeeps(cs, n, before, own);
    }
  }

  /** A row that is another one on some columns. */
  function Patched(row: Row, own: Row, cols: set<Col>): Row {
    (k: Col) => if k in cols then own(k) else row(k)
  }

  lemma PatchedKeeps(cs: seq<Constraint>, n: nat, row: Row, own: Row)
    requires 0 < n <= |cs| && Independent(cs)
    ensures var now := Patched(row, own, cs[n - 1].Columns());
      && (forall d | d in cs[..n - 1] :: d.Sat(now) <==> d.Sat(row))
      && (cs[n - 1].Sat(now) <==> cs[n - 1].Sat(own))
      && (forall d | d in cs[..n] :: d in cs[..n - 1] || d == cs[n - 1])
  {
    var now := Patched(row, own, cs[n - 1].Columns());
    SatOwnColumns(cs[n - 1], now, own);
    forall d | d in cs[..n - 1] ensures d.Sat(now) <==> d.Sat(row) {
      var k :| 0 <= k < n - 1 && cs[k] == d;
      SatOwnColumns(d, now, row);
    }
  }

  // ----- Scalar expressions of constraints

  function Scalar(c: Constraint, arrays: bool): Expr
    decreases c
  {
    match c
    case Leaf(p) => Print(p, arrays)
    case Conjunction(cs) => if c.IsContradiction() then Const(False) else MakeConjDisj(ScalarsOf(cs, arrays), true)
    case Disjunction(cs) => if c.IsContradiction() then Const(False) else MakeConjDisj(ScalarsOf(cs, arrays), false)
    case Negation(Negation(d)) => Scalar(d, arrays)
    case Negation(Leaf(p)) => Print(Complement(p), arrays)
    case Negation(d) => Not(Scalar(d, arrays))
  }

  function ScalarsOf(cs: seq<Constraint>, arrays: bool): (es: seq<Expr>)
    ensures |es| == |cs|
    decreases cs
  {
    if |cs| == 0 then [] else ScalarsOf(cs[..|cs| - 1], arrays) + [Scalar(cs[|cs| - 1], arrays)]
  }

  lemma {:induction false} ScalarsOfAt(cs: seq<Constraint>, arrays: bool, k: nat)
    requires k < |cs|
    ensures ScalarsOf(cs, arrays)[k] == Scalar(cs[k], arrays)
  {
    if k < |cs| - 1 {
      ScalarsOfAt(cs[..|cs| - 1], arrays, k);
    }
  }

  /** What the scalar expression of a constraint must satisfy. */
  ghost predicate Expresses(e: Expr, c: Constraint, row: Row, arrays: bool) {
    && e.WellFormed() && Converts(e, arrays) && e.Columns() <= c.Columns()
    && (Reads(e, row, arrays) <==> c.Sat(row))
  }

  /** The combined expression of an array of constraints, given the expression of each. */
  lemma ScalarConjDisjMeaning(cs: seq<Constraint>, conj: bool, row: Row, arrays: bool)
    requires forall c | c in cs :: Expresses(Scalar(c, arrays), c, row, arrays)
    ensures var e := MakeConjDisj(ScalarsOf(cs, arrays), conj);
            && e.WellFormed() && Converts(e, arrays) && e.Columns() <= ColumnsOf(cs)
            && (Reads(e, row, arrays) <==> Holds(cs, conj, row))
  {
    var es := ScalarsOf(cs, arrays);
    forall k | 0 <= k < |es| ensures Expresses(es[k], cs[k], row, arrays) {
      ScalarsOfAt(cs, arrays, k);
      assert cs[k] in cs;
    }
    ScalarsColumns(es, cs, conj, row, arrays);
    ScalarsReading(es, cs, conj, row, arrays);
    MakeConjDisjShape(es, conj, arrays);
    MakeConjDisjMeaning(es, conj, row, Env(_ => Unknown, _ => Null), arrays);
  }

  lemma ScalarsColumns(es: seq<Expr>, cs: seq<Constraint>, conj: bool, row: Row, arrays: bool)
    requires |es| == |cs| && forall k :: 0 <= k < |es| ==> Expresses(es[k], cs[k], row, arrays)
    ensures forall e | e in es :: e.WellFormed() && Converts(e, arrays)
    ensures BoolOp(conj, es).Columns() <= ColumnsOf(cs)
  {
    forall e, c | e in es && c in e.Columns() ensures c in ColumnsOf(cs) {
      var k :| 0 <= k < |es| && es[k] == e;
      assert cs[k] in cs;
    }
  }

  lemma ScalarsReading(es: seq<Expr>, cs: seq<Constraint>, conj: bool, row: Row, arrays: bool)
    requires |es| == |cs| && forall k :: 0 <= k < |es| ==> Expresses(es[k], cs[k], row, arrays)
    ensures Reads(BoolOp(conj, es), row, arrays) <==> Holds(cs, conj, row)
  {
  }

  /** The scalar expression of a constructed constraint is recognised and reads as the constraint. */
  lemma {:induction false} ScalarExact(c: Constraint, row: Row, arrays: bool)
    requires c.Built()
    ensures Expresses(Scalar(c, arrays), c, row, arrays)
    decreases c
  {
    UnboundedAndContradictionSound(c, row);
    match c
    case Leaf(p) => PrintExact(p, row, arrays);
    case Conjunction(cs) =>
      forall d | d in cs ensures Expresses(Scalar(d, arrays), d, row, arrays) { ScalarExact(d, row, arrays); }
      ScalarConjDisjMeaning(cs, true, row, arrays);
    case Disjunction(cs) =>
      forall d | d in cs ensures Expresses(Scalar(d, arrays), d, row, arrays) { ScalarExact(d, row, arrays); }
      ScalarConjDisjMeaning(cs, false, row, arrays);
    case Negation(Negation(d)) => ScalarExact(d, row, arrays);
    case Negation(Leaf(p)) =>
      ComplementCorrect(p);
      PrintExact(Complement(p), row, arrays);
    case Negation(d) => ScalarExact(d, row, arrays);
  }

  // ----- Flattening

  /** Children of the own kind are replaced by their children. */
  function Flatten(cs: seq<Constraint>, conj: bool): seq<Constraint> {
    if |cs| == 0 then []
    else
      var last := cs[|cs| - 1];
      Flatten(cs[..|cs| - 1], conj) + if last.IsKind(conj) then last.children else [last]
  }

  lemma {:induction false} FlattenMeaning(cs: seq<Constraint>, conj: bool, row: Row)
    ensures Holds(Flatten(cs, conj), conj, row) <==> Holds(cs, conj, row)
  {
    if |cs| > 0 {
      var front, last := cs[..|cs| - 1], cs[|cs| - 1];
      var tail := if last.IsKind(conj) then last.children else [last];
      FlattenMeaning(front, conj, row);
      assert cs == front + [last];
      assert Holds(tail, conj, row) <==> last.Sat(row);
      assert forall c :: c in Flatten(cs, conj) <==> c in Flatten(front, conj) || c in tail;
    }
  }

  lemma FlattenBuilt(cs: seq<Constraint>, conj: bool)
    requires forall c | c in cs :: c.Built()
    ensures forall c | c in Flatten(cs, conj) :: c.Built() && !c.IsKind(conj)
    ensures ColumnsOf(Flatten(cs, conj)) == ColumnsOf(cs)
    ensures |cs| > 0 ==> |Flatten(cs, conj)| > 0
  {
    FlattenKind(cs, conj);
    FlattenColumns(cs, conj);
  }

  lemma {:induction false} FlattenKind(cs: seq<Constraint>, conj: bool)
    requires forall c | c in cs :: c.Built()
    ensures forall c | c in Flatten(cs, conj) :: c.Built() && !c.IsKind(conj)
    ensures |cs| > 0 ==> |Flatten(cs, conj)| > 0
  {
    if |cs| > 0 {
      FlattenKind(cs[..|cs| - 1], conj);
      assert cs[|cs| - 1] in cs;
    }
  }

  lemma {:induction false} FlattenColumns(cs: seq<Constraint>, conj: bool)
    ensures ColumnsOf(Flatten(cs, conj)) == ColumnsOf(cs)
  {
    if |cs| > 0 {
      var front, last := cs[..|cs| - 1], cs[|cs| - 1];
      var tail := if last.IsKind(conj) then last.children else [last];
      FlattenColumns(front, conj);
      assert cs == front + [last];
      ColumnsAppend(front, last);
      ColumnsConcat(Flatten(front, conj), tail);
      ColumnsAppend([], last);
    }
  }

  lemma ColumnsConcat(cs: seq<Constraint>, ds: seq<Constraint>)
    ensures ColumnsOf(cs + ds) == ColumnsOf(cs) + ColumnsOf(ds)
  {
    assert forall c :: c in cs + ds <==> c in cs || c in ds;
  }

  lemma ColumnsAppend(acc: seq<Constraint>, c: Constraint)
    ensures ColumnsOf(acc + [c]) == ColumnsOf(acc) + c.Columns()
  {
    assert forall d :: d in acc + [c] <==> d in acc || d == c;
  }

  // ----- Combining the one-column children on the same column

  /** The constraints that reference the column; with `exclusive`, only those that reference no other. */
  function OnColumn(cs: seq<Constraint>, col: Col, exclusive: bool): (sub: seq<Constraint>)
    ensures forall c :: c in sub <==> c in cs && col in c.Columns() && (exclusive ==> c.OnOneColumn())
  {
    if |cs| == 0 then []
    else
      var front, last := cs[..|cs| - 1], cs[|cs| - 1];
      assert cs == front + [last];
      var sub := OnColumn(front, col, exclusive);
      if col in last.Columns() && (!exclusive || last.OnOneColumn()) then sub + [last] else sub
  }

  /** A filter: all that qualify, as often and in the order in which they stand. */
  lemma {:induction false} OnColumnSplit(cs: seq<Constraint>, ds: seq<Constraint>, col: Col, exclusive: bool)
    ensures OnColumn(cs + ds, col, exclusive) == OnColumn(cs, col, exclusive) + OnColumn(ds, col, exclusive)
  {
    if ds == [] {
      assert cs + ds == cs;
    } else {
      var rest, d := ds[..|ds| - 1], ds[|ds| - 1];
      assert cs + ds == cs + rest + [d] && ds == rest + [d];
      OnColumnSplit(cs, rest, col, exclusive);
      OnColumnLast(cs + rest, d, col, exclusive);
      OnColumnLast(rest, d, col, exclusive);
      AppendAssociates(OnColumn(cs, col, exclusive), OnColumn(rest, col, exclusive), OnColumn([d], col, exclusive));
    }
  }

  lemma OnColumnLast(cs: seq<Constraint>, c: Constraint, col: Col, exclusive: bool)
    ensures OnColumn(cs + [c], col, exclusive) == OnColumn(cs, col, exclusive) + OnColumn([c], col, exclusive)
    ensures OnColumn([c], col, exclusive) == if col in c.Columns() && (exclusive ==> c.OnOneColumn()) then [c] else []
  {
    assert (cs + [c])[..|cs|] == cs && [c][..0] == [];
    assert OnColumn([], col, exclusive) == [];
  }

  /** The least column of a set. */
  function FirstColumn(s: set<Col>): (c: Col)
    requires |s| > 0
    ensures c in s && forall d | d in s :: c <= d
  {
    LeastExists(s);
    var c :| c in s && forall d | d in s :: c <= d;
    c
  }

  lemma LeastExists(s: set<Col>)
    requires |s| > 0
    ensures exists c :: c in s && forall d | d in s :: c <= d
  {
    var c := Least(s);
  }

  lemma {:induction false} Least(s: set<Col>) returns (least: Col)
    requires |s| > 0
    ensures least in s && forall d | d in s :: least <= d
  {
    least :| least in s;
    if |s| > 1 {
      var rest := s - {least};
      var e := Least(rest);
      assert forall d | d in s :: d == least || d in rest;
      if e < least { least := e; }
    } else {
      assert |s - {least}| == 0;
      assert forall d | d in s :: d == least || d in s - {least};
    }
  }

  lemma OneColumnIsFirst(s: set<Col>, c: Col)
    requires |s| == 1 && c in s
    ensures s == {c} && FirstColumn(s) == c
  {
    var f := FirstColumn(s);
    assert |s - {c}| == 0;
    assert s == {c} + (s - {c});
  }

  /** The single interval for constraints on one column: print them, combine, and derive. */
  function Combine(sub: seq<Constraint>, conj: bool, col: Col, arrays: bool): Option<Interval> {
    Parse(MakeConjDisj(ScalarsOf(sub, arrays), conj), col, arrays)
  }

  lemma CombineExact(sub: seq<Constraint>, conj: bool, col: Col, arrays: bool, row: Row)
    requires forall c | c in sub :: c.Built() && c.Columns() == {col}
    ensures var p := Combine(sub, conj, col, arrays);
            p.Some? && p.value.Normal() && p.value.col == col && (p.value.Has(row(col)) <==> Holds(sub, conj, row))
  {
    forall c | c in sub ensures Expresses(Scalar(c, arrays), c, row, arrays) { ScalarExact(c, row, arrays); }
    ScalarConjDisjMeaning(sub, conj, row, arrays);
    assert ColumnsOf(sub) <= {col};
    ParseExact(MakeConjDisj(ScalarsOf(sub, arrays), conj), col, arrays, row);
  }

  /** The state of the de-duplication loop: the next position, the columns combined already, and the new array. */
  datatype Dedup = Dedup(k: nat, combined: set<Col>, acc: seq<Constraint>)

  function DedupTurn(cs: seq<Constraint>, conj: bool, arrays: bool, s: Dedup): Dedup
    requires s.k < |cs| && |cs[s.k].Columns()| > 0
  {
    var c := cs[s.k];
    var next := s.(k := s.k + 1);
    if !c.OnOneColumn() then next.(acc := s.acc + [c])
    else
      var col := FirstColumn(c.Columns());
      if col in s.combined then next
      else
        var sub := OnColumn(cs, col, true);
        if |sub| == 1 then next.(acc := s.acc + [c])
        else
          var p := Combine(sub, conj, col, arrays);
          // the code asserts that an interval is found
          if p.None? then next
          else next.(acc := s.acc + [Leaf(p.value)], combined := s.combined + {col})
  }

  function DedupFrom(cs: seq<Constraint>, conj: bool, arrays: bool, s: Dedup): seq<Constraint>
    requires s.k <= |cs| && forall c | c in cs :: |c.Columns()| > 0
    decreases |cs| - s.k
  {
    if s.k == |cs| then s.acc else DedupFrom(cs, conj, arrays, DedupTurn(cs, conj, arrays, s))
  }

  /** Constraints the loop has dealt with: those before position k, and those on a combined column. */
  ghost predicate Covered(c: Constraint, cs: seq<Constraint>, s: Dedup)
    requires s.k <= |cs|
  {
    c in cs[..s.k] || (c in cs && c.OnOneColumn() && c.Columns() <= s.combined)
  }

  ghost predicate CoveredHold(cs: seq<Constraint>, conj: bool, s: Dedup, row: Row)
    requires s.k <= |cs|
  {
    if conj then forall c | Covered(c, cs, s) :: c.Sat(row) else exists c | Covered(c, cs, s) :: c.Sat(row)
  }

  /** Is there a one-column constraint on `col` in the array? */
  ghost predicate Mentions(acc: seq<Constraint>, col: Col) {
    exists c :: c in acc && c.Columns() == {col}
  }

  /**
   The shape invariant: a column whose one-column constraint was appended is either
   combined or has only that constraint, and it lies before position k.
   */
  ghost predicate DedupInv(cs: seq<Constraint>, conj: bool, s: Dedup) {
    && s.k <= |cs|
    && (forall c | c in cs :: c.Built() && !c.IsKind(conj))
    && (forall c | c in s.acc :: c.Built() && !c.IsKind(conj))
    && OnePerColumn(s.acc)
    && (forall col | Mentions(s.acc, col) ::
          col in s.combined || (Mentions(cs[..s.k], col) && |OnColumn(cs, col, true)| == 1))
    && (forall col | col in s.combined :: Mentions(s.acc, col))
    && (s.k > 0 ==> |s.acc| > 0)
  }

  lemma HoldsAppend(acc: seq<Constraint>, c: Constraint, conj: bool, row: Row)
    ensures Holds(acc + [c], conj, row) <==>
      if conj then Holds(acc, conj, row) && c.Sat(row) else Holds(acc, conj, row) || c.Sat(row)
  {
    assert forall d :: d in acc + [c] <==> d in acc || d == c;
  }

  /** A one-column child: its column, and the constraints on just that column. */
  lemma OneColumnChild(cs: seq<Constraint>, k: nat) returns (col: Col)
    requires k < |cs| && cs[k].OnOneColumn()
    ensures col == FirstColumn(cs[k].Columns()) && cs[k].Columns() == {col}
    ensures cs[k] in OnColumn(cs, col, true)
    ensures forall c | c in OnColumn(cs, col, true) :: c.Columns() == {col}
  {
    col := FirstColumn(cs[k].Columns());
    OneColumnIsFirst(cs[k].Columns(), col);
    forall c | c in OnColumn(cs, col, true) ensures c.Columns() == {col} { OneColumnIsFirst(c.Columns(), col); }
  }

  /** Two positions with a constraint on just `col` give an array of at least two. */
  lemma {:induction false} TwoOnColumn(cs: seq<Constraint>, col: Col, k: nat, l: nat)
    requires k < l < |cs| && cs[k].Columns() == {col} == cs[l].Columns()
    ensures |OnColumn(cs, col, true)| >= 2
  {
    var front := cs[..|cs| - 1];
    if l == |cs| - 1 {
      assert cs[k] == front[k] && front[k] in OnColumn(front, col, true);
    } else {
      TwoOnColumn(front, col, k, l);
    }
  }

  lemma DedupTurnKeepsMeaning(cs: seq<Constraint>, conj: bool, arrays: bool, s: Dedup, row: Row)
    requires s.k < |cs| && forall c | c in cs :: c.Built() && |c.Columns()| > 0
    requires Holds(s.acc, conj, row) <==> CoveredHold(cs, conj, s, row)
    ensures var next := DedupTurn(cs, conj, arrays, s);
            Holds(next.acc, conj, row) <==> CoveredHold(cs, conj, next, row)
  {
    var c := cs[s.k];
    var next := DedupTurn(cs, conj, arrays, s);
    assert cs[..s.k + 1] == cs[..s.k] + [c];
    if !c.OnOneColumn() {
      HoldsAppend(s.acc, c, conj, row);
      assert forall d :: Covered(d, cs, next) <==> Covered(d, cs, s) || d == c;
    } else {
      var col := OneColumnChild(cs, s.k);
      var sub := OnColumn(cs, col, true);
      if col in s.combined {
        assert forall d :: Covered(d, cs, next) <==> Covered(d, cs, s) || d == c;
      } else if |sub| == 1 {
        HoldsAppend(s.acc, c, conj, row);
        assert forall d :: Covered(d, cs, next) <==> Covered(d, cs, s) || d == c;
      } else {
        CombineExact(sub, conj, col, arrays, row);
        HoldsAppend(s.acc, Leaf(Combine(sub, conj, col, arrays).value), conj, row);
        CombinedCovers(cs, s, next, col, sub);
      }
    }
  }

  lemma CombinedCovers(cs: seq<Constraint>, s: Dedup, next: Dedup, col: Col, sub: seq<Constraint>)
    requires s.k < |cs| && next.k == s.k + 1 && next.combined == s.combined + {col}
    requires cs[s.k].Columns() == {col} && sub == OnColumn(cs, col, true)
    requires forall c | c in sub :: c.Columns() == {col}
    ensures forall d :: Covered(d, cs, next) <==> Covered(d, cs, s) || d in sub
  {
    assert cs[..s.k + 1] == cs[..s.k] + [cs[s.k]];
    forall d ensures Covered(d, cs, next) <==> Covered(d, cs, s) || d in sub {
      if d in cs && d.OnOneColumn() {
        var e := FirstColumn(d.Columns());
        OneColumnIsFirst(d.Columns(), e);
      }
    }
  }

  lemma {:induction false} DedupFromKeepsMeaning(cs: seq<Constraint>, conj: bool, arrays: bool, s: Dedup, row: Row)
    requires s.k <= |cs| && forall c | c in cs :: c.Built() && |c.Columns()| > 0
    requires Holds(s.acc, conj, row) <==> CoveredHold(cs, conj, s, row)
    ensures Holds(DedupFrom(cs, conj, arrays, s), conj, row) <==> Holds(cs, conj, row)
    decreases |cs| - s.k
  {
    if s.k < |cs| {
      DedupTurnKeepsMeaning(cs, conj, arrays, s, row);
      DedupFromKeepsMeaning(cs, conj, arrays, DedupTurn(cs, conj, arrays, s), row);
    } else {
      assert cs[..s.k] == cs;
      assert forall d :: Covered(d, cs, s) <==> d in cs;
    }
  }

  /** On several columns, or the only constraint on its column. */
  ghost predicate Alone(c: Constraint, cs: seq<Constraint>) {
    c.OnOneColumn() ==> |OnColumn(cs, FirstColumn(c.Columns()), true)| == 1
  }

  /**
   What the new array is made of: constraints that stand alone, as they are, and combinations of
   all the others of a column.
   */
  ghost predicate Provenance(d: Constraint, cs: seq<Constraint>, conj: bool, arrays: bool) {
    || (d in cs && Alone(d, cs))
    || (exists col: Col :: IsCombination(d, OnColumn(cs, col, true), conj, col, arrays))
  }

  ghost predicate IsCombination(d: Constraint, sub: seq<Constraint>, conj: bool, col: Col, arrays: bool) {
    |sub| > 1 && Combine(sub, conj, col, arrays).Some? && d == Leaf(Combine(sub, conj, col, arrays).value)
  }

  ghost predicate AllFrom(acc: seq<Constraint>, cs: seq<Constraint>, conj: bool, arrays: bool) {
    forall d | d in acc :: Provenance(d, cs, conj, arrays)
  }

  /** All that has been appended has that provenance, and all that stands alone has been appended. */
  ghost predicate Kept(cs: seq<Constraint>, conj: bool, arrays: bool, s: Dedup)
    requires s.k <= |cs|
  {
    AllFrom(s.acc, cs, conj, arrays) && AllAlone(cs, s.k, s.acc) && NoneAlone(cs, s.combined)
  }

  ghost predicate AllAlone(cs: seq<Constraint>, k: nat, acc: seq<Constraint>)
    requires k <= |cs|
  {
    forall c | c in cs[..k] && Alone(c, cs) :: c in acc
  }

  ghost predicate NoneAlone(cs: seq<Constraint>, combined: set<Col>) {
    forall col | col in combined :: |OnColumn(cs, col, true)| != 1
  }

  lemma {:induction false} DedupFromKeeps(cs: seq<Constraint>, conj: bool, arrays: bool, s: Dedup)
    requires s.k <= |cs| && (forall c | c in cs :: |c.Columns()| > 0) && Kept(cs, conj, arrays, s)
    ensures forall d | d in DedupFrom(cs, conj, arrays, s) :: Provenance(d, cs, conj, arrays)
    ensures forall c | c in cs && Alone(c, cs) :: c in DedupFrom(cs, conj, arrays, s)
    decreases |cs| - s.k
  {
    if s.k < |cs| {
      TurnKeeps(cs, conj, arrays, s);
      DedupFromKeeps(cs, conj, arrays, DedupTurn(cs, conj, arrays, s));
    } else {
      assert cs[..s.k] == cs;
    }
  }

  lemma TurnKeeps(cs: seq<Constraint>, conj: bool, arrays: bool, s: Dedup)
    requires s.k < |cs| && |cs[s.k].Columns()| > 0 && Kept(cs, conj, arrays, s)
    ensures Kept(cs, conj, arrays, DedupTurn(cs, conj, arrays, s))
  {
    var c := cs[s.k];
    if !c.OnOneColumn() {
      AloneKept(cs, conj, arrays, s);
    } else {
      var col := OneColumnChild(cs, s.k);
      var sub := OnColumn(cs, col, true);
      if col !in s.combined && |sub| == 1 {
        AloneKept(cs, conj, arrays, s);
      } else if col !in s.combined && Combine(sub, conj, col, arrays).Some? {
        CombinationKept(cs, conj, arrays, s, col);
      } else {
        PassedKept(cs, conj, arrays, s);
      }
    }
  }

  lemma AloneKept(cs: seq<Constraint>, conj: bool, arrays: bool, s: Dedup)
    requires s.k < |cs| && Kept(cs, conj, arrays, s) && Alone(cs[s.k], cs)
    ensures Kept(cs, conj, arrays, s.(k := s.k + 1, acc := s.acc + [cs[s.k]]))
  {
    assert cs[s.k] in cs;
    AppendedFrom(s.acc, cs[s.k], cs, conj, arrays);
    NextAlone(cs, s.k, s.acc, cs[s.k]);
  }

  lemma PassedKept(cs: seq<Constraint>, conj: bool, arrays: bool, s: Dedup)
    requires s.k < |cs| && Kept(cs, conj, arrays, s) && !Alone(cs[s.k], cs)
    ensures Kept(cs, conj, arrays, s.(k := s.k + 1))
  {
    assert cs[..s.k + 1] == cs[..s.k] + [cs[s.k]];
  }

  lemma CombinationKept(cs: seq<Constraint>, conj: bool, arrays: bool, s: Dedup, col: Col)
    requires s.k < |cs| && Kept(cs, conj, arrays, s) && !Alone(cs[s.k], cs)
    requires |OnColumn(cs, col, true)| > 1 && Combine(OnColumn(cs, col, true), conj, col, arrays).Some?
    ensures var leaf := Leaf(Combine(OnColumn(cs, col, true), conj, col, arrays).value);
      Kept(cs, conj, arrays, Dedup(s.k + 1, s.combined + {col}, s.acc + [leaf]))
  {
    var leaf := Leaf(Combine(OnColumn(cs, col, true), conj, col, arrays).value);
    assert IsCombination(leaf, OnColumn(cs, col, true), conj, col, arrays);
    AppendedKept(cs, conj, arrays, s, col, leaf);
  }

  lemma AppendedKept(cs: seq<Constraint>, conj: bool, arrays: bool, s: Dedup, col: Col, leaf: Constraint)
    requires s.k < |cs| && Kept(cs, conj, arrays, s) && !Alone(cs[s.k], cs)
    requires |OnColumn(cs, col, true)| > 1 && Provenance(leaf, cs, conj, arrays)
    ensures Kept(cs, conj, arrays, Dedup(s.k + 1, s.combined + {col}, s.acc + [leaf]))
  {
    AppendedFrom(s.acc, leaf, cs, conj, arrays);
    NextAlone(cs, s.k, s.acc, leaf);
  }

  lemma NextAlone(cs: seq<Constraint>, k: nat, acc: seq<Constraint>, d: Constraint)
    requires k < |cs| && AllAlone(cs, k, acc) && (Alone(cs[k], cs) ==> d == cs[k])
    ensures AllAlone(cs, k + 1, acc + [d])
  {
    assert cs[..k + 1] == cs[..k] + [cs[k]];
  }

  lemma AppendedFrom(acc: seq<Constraint>, d: Constraint, cs: seq<Constraint>, conj: bool, arrays: bool)
    requires AllFrom(acc, cs, conj, arrays) && Provenance(d, cs, conj, arrays)
    ensures AllFrom(acc + [d], cs, conj, arrays)
  {
  }

  lemma DedupTurnKeepsShape(cs: seq<Constraint>, conj: bool, arrays: bool, s: Dedup)
    requires DedupInv(cs, conj, s) && s.k < |cs| && |cs[s.k].Columns()| > 0
    ensures DedupInv(cs, conj, DedupTurn(cs, conj, arrays, s))
  {
    var c := cs[s.k];
    assert c in cs;
    if !c.OnOneColumn() {
      OtherKeepsShape(cs, conj, s);
    } else {
      var col := OneColumnChild(cs, s.k);
      if col in s.combined {
        PassKeepsShape(cs, conj, s);
      } else if |OnColumn(cs, col, true)| == 1 {
        OnlyKeepsShape(cs, conj, s, col);
      } else {
        CombinedKeepsShape(cs, conj, arrays, s, col);
      }
    }
  }

  /** A constraint on several columns is appended. */
  lemma OtherKeepsShape(cs: seq<Constraint>, conj: bool, s: Dedup)
    requires DedupInv(cs, conj, s) && s.k < |cs| && !cs[s.k].OnOneColumn()
    ensures DedupInv(cs, conj, s.(k := s.k + 1, acc := s.acc + [cs[s.k]]))
  {
    assert cs[s.k] in cs;
    AppendKeepsShape(cs, conj, s, cs[s.k], s.(k := s.k + 1, acc := s.acc + [cs[s.k]]));
  }

  /** A column that is combined already: nothing is appended. */
  lemma PassKeepsShape(cs: seq<Constraint>, conj: bool, s: Dedup)
    requires DedupInv(cs, conj, s) && s.k < |cs|
    requires cs[s.k].OnOneColumn() && FirstColumn(cs[s.k].Columns()) in s.combined
    ensures DedupInv(cs, conj, s.(k := s.k + 1))
  {
    MentionsMore(cs, s.k);
    assert Mentions(s.acc, FirstColumn(cs[s.k].Columns()));
  }

  lemma MentionsMore(cs: seq<Constraint>, k: nat)
    requires k < |cs|
    ensures forall col: Col :: Mentions(cs[..k + 1], col) <==> Mentions(cs[..k], col) || cs[k].Columns() == {col}
  {
    assert cs[..k + 1] == cs[..k] + [cs[k]];
    assert forall c :: c in cs[..k + 1] <==> c in cs[..k] || c == cs[k];
  }

  /** The only constraint on its column is appended. */
  lemma OnlyKeepsShape(cs: seq<Constraint>, conj: bool, s: Dedup, col: Col)
    requires DedupInv(cs, conj, s) && s.k < |cs| && cs[s.k].Columns() == {col} && col !in s.combined
    requires |OnColumn(cs, col, true)| == 1
    ensures DedupInv(cs, conj, s.(k := s.k + 1, acc := s.acc + [cs[s.k]]))
  {
    assert cs[s.k] in cs;
    NotMentionedYet(cs, conj, s, col);
    MentionsMore(cs, s.k);
    AppendKeepsShape(cs, conj, s, cs[s.k], s.(k := s.k + 1, acc := s.acc + [cs[s.k]]));
  }

  /** Several constraints on a column: their combination is appended. */
  lemma CombinedKeepsShape(cs: seq<Constraint>, conj: bool, arrays: bool, s: Dedup, col: Col)
    requires DedupInv(cs, conj, s) && s.k < |cs| && cs[s.k].Columns() == {col} && col !in s.combined
    requires var sub := OnColumn(cs, col, true);
      |sub| > 0 && forall c | c in sub :: c.Built() && c.Columns() == {col}
    ensures Combine(OnColumn(cs, col, true), conj, col, arrays).Some?
    ensures var leaf := Leaf(Combine(OnColumn(cs, col, true), conj, col, arrays).value);
      DedupInv(cs, conj, Dedup(s.k + 1, s.combined + {col}, s.acc + [leaf]))
  {
    var sub := OnColumn(cs, col, true);
    NotMentionedYet(cs, conj, s, col);
    CombineExact(sub, conj, col, arrays, _ => Null);
    var leaf := Leaf(Combine(sub, conj, col, arrays).value);
    assert leaf.Columns() == {col};
    AppendKeepsShape(cs, conj, s, leaf, Dedup(s.k + 1, s.combined + {col}, s.acc + [leaf]));
  }

  /** A column that is not combined and still to come has nothing in the new array. */
  lemma NotMentionedYet(cs: seq<Constraint>, conj: bool, s: Dedup, col: Col)
    requires DedupInv(cs, conj, s) && s.k < |cs| && cs[s.k].Columns() == {col} && col !in s.combined
    ensures !Mentions(s.acc, col)
  {
    if Mentions(s.acc, col) {
      assert Mentions(cs[..s.k], col);
      var m :| m in cs[..s.k] && m.Columns() == {col};
      var l :| 0 <= l < s.k && cs[l] == m;
      TwoOnColumn(cs, col, l, s.k);
    }
  }

  lemma AppendKeepsShape(cs: seq<Constraint>, conj: bool, s: Dedup, c: Constraint, next: Dedup)
    requires DedupInv(cs, conj, s) && s.k < |cs| && c.Built() && !c.IsKind(conj)
    requires next.k == s.k + 1 && next.acc == s.acc + [c] && s.combined <= next.combined
    requires forall col | c.Columns() == {col} :: !Mentions(s.acc, col)
    requires forall col | c.Columns() == {col} ::
      col in next.combined || (Mentions(cs[..next.k], col) && |OnColumn(cs, col, true)| == 1)
    requires forall col | col in next.combined :: col in s.combined || c.Columns() == {col}
    ensures DedupInv(cs, conj, next)
  {
    assert forall d :: d in next.acc <==> d in s.acc || d == c;
    assert cs[..s.k + 1] == cs[..s.k] + [cs[s.k]];
    forall col | Mentions(next.acc, col)
      ensures col in next.combined || (Mentions(cs[..next.k], col) && |OnColumn(cs, col, true)| == 1)
    {
      if Mentions(s.acc, col) {
        assert col in s.combined || Mentions(cs[..s.k], col);
      }
    }
    forall k, l | 0 <= k < l < |next.acc| && next.acc[k].OnOneColumn()
      ensures next.acc[k].Columns() != next.acc[l].Columns()
    {
      if l == |s.acc| && next.acc[k].Columns() == c.Columns() {
        var col := FirstColumn(c.Columns());
        OneColumnIsFirst(c.Columns(), col);
      }
    }
  }

  lemma {:induction false} DedupFromShape(cs: seq<Constraint>, conj: bool, arrays: bool, s: Dedup)
    requires DedupInv(cs, conj, s) && (forall c | c in cs :: |c.Columns()| > 0)
    ensures var res := DedupFrom(cs, conj, arrays, s);
            && OnePerColumn(res) && (forall c | c in res :: c.Built() && !c.IsKind(conj))
            && (|cs| > 0 ==> |res| > 0)
    decreases |cs| - s.k
  {
    if s.k < |cs| {
      DedupTurnKeepsShape(cs, conj, arrays, s);
      DedupFromShape(cs, conj, arrays, DedupTurn(cs, conj, arrays, s));
    }
  }

  /** The columns of the new array are those of the constraints dealt with. */
  ghost predicate SameColumns(cs: seq<Constraint>, s: Dedup) {
    && s.k <= |cs|
    && ColumnsOf(s.acc) <= ColumnsOf(cs)
    && s.combined <= ColumnsOf(s.acc)
    && ColumnsOf(cs[..s.k]) <= ColumnsOf(s.acc)
  }

  lemma DedupTurnKeepsColumns(cs: seq<Constraint>, conj: bool, arrays: bool, s: Dedup)
    requires SameColumns(cs, s) && s.k < |cs| && forall c | c in cs :: c.Built() && |c.Columns()| > 0
    ensures SameColumns(cs, DedupTurn(cs, conj, arrays, s))
  {
    var c := cs[s.k];
    assert c in cs;
    InColumnsOf(cs, c);
    if c.OnOneColumn() {
      var col := OneColumnChild(cs, s.k);
      var sub := OnColumn(cs, col, true);
      if col in s.combined {
        PassKeepsColumns(cs, s);
      } else if |sub| == 1 {
        AppendKeepsColumns(cs, s, c, s.combined);
      } else {
        CombineExact(sub, conj, col, arrays, _ => Null);
        AppendKeepsColumns(cs, s, Leaf(Combine(sub, conj, col, arrays).value), s.combined + {col});
      }
    } else {
      AppendKeepsColumns(cs, s, c, s.combined);
    }
  }

  lemma PassKeepsColumns(cs: seq<Constraint>, s: Dedup)
    requires SameColumns(cs, s) && s.k < |cs| && cs[s.k].Columns() <= s.combined
    ensures SameColumns(cs, s.(k := s.k + 1))
  {
    assert cs[..s.k + 1] == cs[..s.k] + [cs[s.k]];
    ColumnsAppend(cs[..s.k], cs[s.k]);
  }

  lemma InColumnsOf(cs: seq<Constraint>, c: Constraint)
    requires c in cs
    ensures c.Columns() <= ColumnsOf(cs)
  {
  }

  lemma AppendKeepsColumns(cs: seq<Constraint>, s: Dedup, c: Constraint, combined: set<Col>)
    requires SameColumns(cs, s) && s.k < |cs| && cs[s.k].Columns() == c.Columns() <= ColumnsOf(cs)
    requires combined <= s.combined + c.Columns()
    ensures SameColumns(cs, Dedup(s.k + 1, combined, s.acc + [c]))
  {
    assert cs[..s.k + 1] == cs[..s.k] + [cs[s.k]];
    ColumnsAppend(cs[..s.k], cs[s.k]);
    ColumnsAppend(s.acc, c);
  }

  lemma {:induction false} DedupFromColumns(cs: seq<Constraint>, conj: bool, arrays: bool, s: Dedup)
    requires SameColumns(cs, s) && forall c | c in cs :: c.Built() && |c.Columns()| > 0
    ensures ColumnsOf(DedupFrom(cs, conj, arrays, s)) == ColumnsOf(cs)
    decreases |cs| - s.k
  {
    if s.k < |cs| {
      DedupTurnKeepsColumns(cs, conj, arrays, s);
      DedupFromColumns(cs, conj, arrays, DedupTurn(cs, conj, arrays, s));
    } else {
      assert cs[..s.k] == cs;
    }
  }

  // ----- The constructors

  /** The children that the constructor of a conjunction or disjunction keeps. */
  function Children(cs: seq<Constraint>, conj: bool, arrays: bool): seq<Constraint>
    requires forall c | c in cs :: |c.Columns()| > 0
    requires forall c | c in Flatten(cs, conj) :: |c.Columns()| > 0
  {
    DedupFrom(Flatten(cs, conj), conj, arrays, Dedup(0, {}, []))
  }

  lemma ChildrenOfBuilt(cs: seq<Constraint>, conj: bool)
    requires forall c | c in cs :: c.Built()
    ensures forall c | c in cs :: |c.Columns()| > 0
    ensures forall c | c in Flatten(cs, conj) :: |c.Columns()| > 0
  {
    FlattenBuilt(cs, conj);
    forall c | c in cs ensures |c.Columns()| > 0 { HasColumns(c); }
    forall c | c in Flatten(cs, conj) ensures |c.Columns()| > 0 { HasColumns(c); }
  }

  ghost predicate AllBuilt(cs: seq<Constraint>) {
    forall c | c in cs :: c.Built()
  }

  function Make(cs: seq<Constraint>, conj: bool, arrays: bool): Constraint
    requires AllBuilt(cs)
  {
    ChildrenOfBuilt(cs, conj);
    Node(Children(cs, conj, arrays), conj)
  }

  /**
   The constructor theorem: flattening and combining keep the satisfying rows and the
   columns, and what is constructed is again of the constructed form - no child of its
   own kind, at most one one-column child per column.
   */
  lemma MakeCorrect(cs: seq<Constraint>, conj: bool, arrays: bool)
    requires AllBuilt(cs) && |cs| > 0
    ensures var c := Make(cs, conj, arrays);
            && c.Built() && c.IsKind(conj) && c.Columns() == ColumnsOf(cs)
            && forall row: Row :: c.Sat(row) <==> Holds(cs, conj, row)
  {
    ChildrenOfBuilt(cs, conj);
    FlattenBuilt(cs, conj);
    var flat, start := Flatten(cs, conj), Dedup(0, {}, []);
    DedupFromShape(flat, conj, arrays, start);
    DedupFromColumns(flat, conj, arrays, start);
    forall row: Row ensures Make(cs, conj, arrays).Sat(row) <==> Holds(cs, conj, row) {
      MakeKeepsMeaning(cs, conj, arrays, row);
    }
  }

  lemma MakeKeepsMeaning(cs: seq<Constraint>, conj: bool, arrays: bool, row: Row)
    requires AllBuilt(cs)
    ensures Make(cs, conj, arrays).Sat(row) <==> Holds(cs, conj, row)
  {
    ChildrenOfBuilt(cs, conj);
    FlattenBuilt(cs, conj);
    FlattenMeaning(cs, conj, row);
    var flat, start := Flatten(cs, conj), Dedup(0, {}, []);
    NothingCovered(flat, conj, row);
    DedupFromKeepsMeaning(flat, conj, arrays, start, row);
  }

  /** At the start nothing is dealt with, and nothing appended. */
  lemma NothingCovered(cs: seq<Constraint>, conj: bool, row: Row)
    ensures Holds([], conj, row) <==> CoveredHold(cs, conj, Dedup(0, {}, []), row)
  {
    assert forall c :: !Covered(c, cs, Dedup(0, {}, []));
  }

  /** The children of a node: those given, flattened, that stand alone, and the others combined by column. */
  lemma MakeKeeps(cs: seq<Constraint>, conj: bool, arrays: bool)
    requires AllBuilt(cs)
    ensures var flat := Flatten(cs, conj);
      && (forall d | d in Make(cs, conj, arrays).children :: Provenance(d, flat, conj, arrays))
      && (forall c | c in flat && Alone(c, flat) :: c in Make(cs, conj, arrays).children)
  {
    ChildrenOfBuilt(cs, conj);
    DedupFromKeeps(Flatten(cs, conj), conj, arrays, Dedup(0, {}, []));
  }

  /** The result for an array of any length: nothing, the only constraint, or a new node. */
  function ConjDisj(cs: seq<Constraint>, conj: bool, arrays: bool): Option<Constraint>
    requires AllBuilt(cs)
  {
    if |cs| == 0 then None
    else if |cs| == 1 then Some(cs[0])
    else Some(Make(cs, conj, arrays))
  }

  lemma ConjDisjCorrect(cs: seq<Constraint>, conj: bool, arrays: bool)
    requires AllBuilt(cs)
    ensures ConjDisj(cs, conj, arrays).None? <==> |cs| == 0
    ensures |cs| == 1 ==> ConjDisj(cs, conj, arrays) == Some(cs[0])
    ensures |cs| > 1 ==> ConjDisj(cs, conj, arrays).value.IsKind(conj)
    ensures |cs| > 0 ==>
              var c := ConjDisj(cs, conj, arrays).value;
              && c.Built() && c.Columns() == ColumnsOf(cs)
              && forall row: Row :: c.Sat(row) <==> Holds(cs, conj, row)
  {
    if |cs| == 1 {
      assert cs[0] in cs && forall c | c in cs :: c == cs[0];
      assert ColumnsOf(cs) == cs[0].Columns();
    } else if |cs| > 1 {
      MakeCorrect(cs, conj, arrays);
    }
  }

  // ----- What a constructed node keeps

  /** Without negations among the children there are none in the node. */
  lemma MakeNegationFree(cs: seq<Constraint>, conj: bool, arrays: bool)
    requires AllBuilt(cs) && forall c | c in cs :: c.NegationFree()
    ensures Make(cs, conj, arrays).NegationFree()
  {
    ChildrenOfBuilt(cs, conj);
    FlattenNegationFree(cs, conj);
    DedupFromNegationFree(Flatten(cs, conj), conj, arrays, Dedup(0, {}, []));
  }

  lemma {:induction false} FlattenNegationFree(cs: seq<Constraint>, conj: bool)
    requires forall c | c in cs :: c.NegationFree()
    ensures forall c | c in Flatten(cs, conj) :: c.NegationFree()
  {
    if |cs| > 0 {
      FlattenNegationFree(cs[..|cs| - 1], conj);
      assert cs[|cs| - 1] in cs;
    }
  }

  lemma {:induction false} DedupFromNegationFree(cs: seq<Constraint>, conj: bool, arrays: bool, s: Dedup)
    requires s.k <= |cs| && forall c | c in cs :: |c.Columns()| > 0 && c.NegationFree()
    requires forall c | c in s.acc :: c.NegationFree()
    ensures forall c | c in DedupFrom(cs, conj, arrays, s) :: c.NegationFree()
    decreases |cs| - s.k
  {
    if s.k < |cs| {
      assert cs[s.k] in cs;
      DedupFromNegationFree(cs, conj, arrays, DedupTurn(cs, conj, arrays, s));
    }
  }

  /** With normal forms in the children there are only normal forms in the node. */
  lemma MakeNormalLeaves(cs: seq<Constraint>, conj: bool, arrays: bool)
    requires AllBuilt(cs) && forall c | c in cs :: c.NormalLeaves()
    ensures Make(cs, conj, arrays).NormalLeaves()
  {
    ChildrenOfBuilt(cs, conj);
    FlattenBuilt(cs, conj);
    FlattenNormalLeaves(cs, conj);
    DedupFromNormalLeaves(Flatten(cs, conj), conj, arrays, Dedup(0, {}, []));
  }

  lemma {:induction false} FlattenNormalLeaves(cs: seq<Constraint>, conj: bool)
    requires forall c | c in cs :: c.NormalLeaves()
    ensures forall c | c in Flatten(cs, conj) :: c.NormalLeaves()
  {
    if |cs| > 0 {
      FlattenNormalLeaves(cs[..|cs| - 1], conj);
      assert cs[|cs| - 1] in cs;
    }
  }

  lemma {:induction false} DedupFromNormalLeaves(cs: seq<Constraint>, conj: bool, arrays: bool, s: Dedup)
    requires s.k <= |cs| && forall c | c in cs :: c.Built() && |c.Columns()| > 0 && c.NormalLeaves()
    requires forall c | c in s.acc :: c.NormalLeaves()
    ensures forall c | c in DedupFrom(cs, conj, arrays, s) :: c.NormalLeaves()
    decreases |cs| - s.k
  {
    if s.k < |cs| {
      TurnNormalLeaves(cs, conj, arrays, s);
      DedupFromNormalLeaves(cs, conj, arrays, DedupTurn(cs, conj, arrays, s));
    }
  }

  lemma TurnNormalLeaves(cs: seq<Constraint>, conj: bool, arrays: bool, s: Dedup)
    requires s.k < |cs| && forall c | c in cs :: c.Built() && |c.Columns()| > 0 && c.NormalLeaves()
    requires forall c | c in s.acc :: c.NormalLeaves()
    ensures forall c | c in DedupTurn(cs, conj, arrays, s).acc :: c.NormalLeaves()
  {
    assert cs[s.k] in cs;
    if cs[s.k].OnOneColumn() {
      var col := OneColumnChild(cs, s.k);
      var sub := OnColumn(cs, col, true);
      CombineExact(sub, conj, col, arrays, _ => Null);
    }
  }

  /** Several children on one and the same column become a single interval in normal form. */
  lemma MakeOnOneColumn(cs: seq<Constraint>, conj: bool, col: Col, arrays: bool) returns (q: Interval)
    requires AllBuilt(cs) && |cs| >= 2 && forall c | c in cs :: c.Columns() == {col}
    ensures Make(cs, conj, arrays) == Node([Leaf(q)], conj) && q.Normal() && q.col == col
  {
    var flat := Flatten(cs, conj);
    ChildrenOfBuilt(cs, conj);
    FlattenBuilt(cs, conj);
    FlattenOnColumn(cs, conj, col);
    q := CombineAllOn(flat, conj, col, arrays);
  }

  lemma FlattenOnColumn(cs: seq<Constraint>, conj: bool, col: Col)
    requires AllBuilt(cs) && |cs| >= 2 && forall c | c in cs :: c.Columns() == {col}
    ensures |Flatten(cs, conj)| >= 2 && forall c | c in Flatten(cs, conj) :: c.Columns() == {col}
  {
    var flat := Flatten(cs, conj);
    ChildrenOfBuilt(cs, conj);
    FlattenBuilt(cs, conj);
    FlattenLength(cs, conj);
    assert ColumnsOf(cs) <= {col};
    forall c | c in flat ensures c.Columns() == {col} {
      HasColumns(c);
      assert c.Columns() <= ColumnsOf(flat);
    }
  }

  /** The loop over constraints that are all on one column combines them at the first and skips the rest. */
  lemma CombineAllOn(flat: seq<Constraint>, conj: bool, col: Col, arrays: bool) returns (q: Interval)
    requires AllBuilt(flat) && |flat| >= 2 && forall c | c in flat :: c.Columns() == {col}
    ensures DedupFrom(flat, conj, arrays, Dedup(0, {}, [])) == [Leaf(q)] && q.Normal() && q.col == col
  {
    assert flat[0] in flat && flat[1] in flat;
    TwoOnColumn(flat, col, 0, 1);
    OneColumnIsFirst(flat[0].Columns(), col);
    var sub := OnColumn(flat, col, true);
    CombineExact(sub, conj, col, arrays, _ => Null);
    q := Combine(sub, conj, col, arrays).value;
    var next := DedupTurn(flat, conj, arrays, Dedup(0, {}, []));
    assert next == Dedup(1, {col}, [Leaf(q)]);
    RestIsCombined(flat, conj, arrays, next, col);
  }

  lemma {:induction false} FlattenLength(cs: seq<Constraint>, conj: bool)
    requires AllBuilt(cs)
    ensures |Flatten(cs, conj)| >= |cs|
  {
    if |cs| > 0 {
      FlattenLength(cs[..|cs| - 1], conj);
      assert cs[|cs| - 1] in cs;
    }
  }

  /** Once the only column is combined, the loop skips the rest. */
  lemma {:induction false} RestIsCombined(cs: seq<Constraint>, conj: bool, arrays: bool, s: Dedup, col: Col)
    requires s.k <= |cs| && s.combined == {col} && forall c | c in cs :: c.Columns() == {col}
    ensures DedupFrom(cs, conj, arrays, s) == s.acc
    decreases |cs| - s.k
  {
    if s.k < |cs| {
      assert cs[s.k] in cs;
      OneColumnIsFirst(cs[s.k].Columns(), col);
      RestIsCombined(cs, conj, arrays, s.(k := s.k + 1), col);
    }
  }

  /** A single child is not wrapped. */
  lemma MakeOne(e: Expr, conj: bool)
    ensures MakeConjDisj([e], conj) == e
  {
    assert [e][..0] == [] && [e][0] == e;
    assert Unskipped([e], conj) == if Skippable(e, conj) then [] else [e];
  }
}
