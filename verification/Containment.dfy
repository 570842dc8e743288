/** Does one constraint contain another?  (CConstraint::FContains and FEquals, with the memo table.) */
module Containment {
  import opened Options
  import opened Ranges
  import opened Intervals
  import opened IntervalLoops
  import opened Scalars
  import opened Derivation
  import opened Constraints
  import opened Projections

  /** The interval of a constraint on one column; a missing constraint is unbounded. */
  function IntervalFor(c: Option<Constraint>, col: Col, arrays: bool): (p: Interval)
    requires c.Some? ==> c.value.Built() && c.value.Columns() == {col}
    ensures p.Valid() && p.col == col
  {
    UnboundedCorrect(col, true);
    match c
    case None => Unbounded(col, true)
    case Some(Leaf(p)) => assert c.value.Columns() == {p.col}; p
    case Some(d) =>
      ScalarExact(d, _ => Null, arrays);
      ParseExact(Scalar(d, arrays), col, arrays, _ => Null);
      Parse(Scalar(d, arrays), col, arrays).value
  }

  lemma IntervalForExact(c: Option<Constraint>, col: Col, arrays: bool, row: Row)
    requires c.Some? ==> c.value.Built() && c.value.Columns() == {col}
    ensures IntervalFor(c, col, arrays).Has(row(col)) <==> SatOpt(c, row)
  {
    UnboundedCorrect(col, true);
    if c.Some? && !c.value.Leaf? {
      ScalarExact(c.value, row, arrays);
      ParseExact(Scalar(c.value, arrays), col, arrays, row);
    } else if c.Some? {
      assert c.value.Columns() == {c.value.interval.col};
    }
  }

  /** What a constraint says about a column, as an interval. */
  function IntervalOn(c: Constraint, col: Col, arrays: bool): (p: Interval)
    requires c.Built()
    ensures p.Valid() && p.col == col
  {
    IntervalFor(OnCol(c, col, arrays), col, arrays)
  }

  /** The comparison on one column. */
  function ContainsOnCol(c: Constraint, d: Constraint, col: Col, arrays: bool): bool
    requires c.Built() && d.Built()
  {
    ContainsInterval(IntervalOn(c, col, arrays), IntervalOn(d, col, arrays))
  }

  /** Column by column; a missing argument stands for no constraint at all. */
  function Contains(c: Constraint, d: Option<Constraint>, arrays: bool): bool
    requires c.Built() && (d.Some? ==> d.value.Built())
  {
    if c.IsUnbounded() then true
    else if d.None? || d.value.IsUnbounded() then false
    else forall col | col in c.Columns() :: ContainsOnCol(c, d.value, col, arrays)
  }

  // ----- Soundness

  /** A constraint on one column, or a conjunction of such constraints. */
  ghost predicate Separable(c: Constraint) {
    c.OnOneColumn() || (c.Conjunction? && forall d | d in c.children :: d.OnOneColumn())
  }

  /** The code's assertions, on every column of the constraint; without a negation they always hold. */
  ghost predicate Projectable(c: Constraint, arrays: bool)
    requires c.Built()
  {
    forall col | col in c.Columns() :: Projects(c, col, arrays)
  }

  /** The argument, projected to each of the columns, only widens. */
  ghost predicate WidensOnEach(d: Constraint, cols: set<Col>, arrays: bool)
    requires d.Built()
  {
    forall col | col in cols :: Projects(d, col, arrays) && WidensOn(d, {col})
  }

  /** The row satisfies what the constraint says about each of its columns. */
  ghost predicate InHull(c: Constraint, row: Row) {
    forall col | col in c.Columns() :: HoldsOn(c, {col}, row)
  }

  /** The constraint says nothing beyond what it says column by column. */
  ghost predicate HullIsExact(c: Constraint) {
    forall row: Row :: InHull(c, row) ==> c.Sat(row)
  }

  /** The interval compared on a column is the constraint with the rest left out. */
  lemma IntervalOnExact(c: Constraint, col: Col, arrays: bool, row: Row)
    requires c.Built() && Projects(c, col, arrays)
    ensures IntervalOn(c, col, arrays).Has(row(col)) <==> HoldsOn(c, {col}, row)
  {
    IntervalForExact(OnCol(c, col, arrays), col, arrays, row);
    OnColExact(c, col, arrays, row);
  }

  /** What a yes on one column means. */
  lemma ContainsOnColSound(c: Constraint, d: Constraint, col: Col, arrays: bool, row: Row)
    requires c.Built() && d.Built() && ContainsOnCol(c, d, col, arrays) && Projects(c, col, arrays)
    requires Projects(d, col, arrays) && WidensOn(d, {col}) && d.Sat(row)
    ensures HoldsOn(c, {col}, row)
  {
    HoldsOnPolarity(d, {col}, row);
    IntervalOnExact(d, col, arrays, row);
    ContainsIntervalSound(IntervalOn(c, col, arrays), IntervalOn(d, col, arrays));
    IntervalOnExact(c, col, arrays, row);
  }

  /** What a yes means: the rows of the argument are in the hull of the constraint. */
  lemma ContainsSound(c: Constraint, d: Constraint, arrays: bool, row: Row)
    requires c.Built() && d.Built() && Projectable(c, arrays) && WidensOnEach(d, c.Columns(), arrays)
    requires Contains(c, Some(d), arrays) && d.Sat(row)
    ensures c.Sat(row) || (!c.IsUnbounded() && InHull(c, row))
  {
    if c.IsUnbounded() {
      UnboundedAndContradictionSound(c, row);
    } else {
      forall col | col in c.Columns() ensures HoldsOn(c, {col}, row) { ContainsOnColSound(c, d, col, arrays, row); }
    }
  }

  /** Separable constraints are exact column by column. */
  lemma SeparableHull(c: Constraint)
    requires c.Built() && Separable(c)
    ensures HullIsExact(c)
  {
    forall row: Row | InHull(c, row) ensures c.Sat(row) {
      if c.OnOneColumn() {
        OneColumnHolds(c, row);
      } else {
        forall d | d in c.children ensures d.Sat(row) {
          var col := FirstColumn(d.Columns());
          assert col in c.Columns() && HoldsOn(c, {col}, row);
          OneColumnHolds(d, row);
        }
      }
    }
  }

  lemma OneColumnHolds(c: Constraint, row: Row)
    requires c.Built() && c.OnOneColumn()
    ensures HoldsOn(c, {FirstColumn(c.Columns())}, row) <==> c.Sat(row)
  {
    var col := FirstColumn(c.Columns());
    OneColumnIsFirst(c.Columns(), col);
    WithinIsExact(c, {col});
    HoldsOnPolarity(c, {col}, row);
  }

  /** Every row that satisfies `d` satisfies `c`. */
  ghost predicate Subsumes(c: Constraint, d: Constraint) {
    forall row: Row :: d.Sat(row) ==> c.Sat(row)
  }

  /** Without negations a yes is right for every constraint that is exact column by column. */
  lemma ContainsSubsumes(c: Constraint, d: Constraint, arrays: bool)
    requires c.Built() && d.Built() && c.NegationFree() && d.NegationFree() && HullIsExact(c)
    requires Contains(c, Some(d), arrays)
    ensures Subsumes(c, d)
  {
    NegationFreeOnEach(c, c.Columns(), arrays);
    NegationFreeOnEach(d, c.Columns(), arrays);
    forall row: Row | d.Sat(row) ensures c.Sat(row) { ContainsSound(c, d, arrays, row); }
  }

  lemma NegationFreeOnEach(d: Constraint, cols: set<Col>, arrays: bool)
    requires d.Built() && d.NegationFree()
    ensures WidensOnEach(d, cols, arrays)
  {
    forall col | col in cols ensures Projects(d, col, arrays) && WidensOn(d, {col}) {
      NegationFreeProjects(d, col, arrays);
      NegationFreeWidens(d, {col});
    }
  }

  // ----- Exactness

  /** One interval in normal form per column. */
  ghost predicate IntervalPerColumn(c: Constraint) {
    match c
    case Leaf(p) => p.Normal()
    case Conjunction(cs) => forall d | d in cs :: d.Leaf? && d.interval.Normal() && !d.IsUnbounded()
    case _ => false
  }

  /** The intervals of such a constraint. */
  function Leaves(c: Constraint): seq<Constraint> {
    if c.Conjunction? then c.children else [c]
  }

  lemma LeavesMeaning(c: Constraint, row: Row)
    requires c.Built() && IntervalPerColumn(c)
    ensures c.Sat(row) <==> forall d | d in Leaves(c) :: d.Leaf? && d.interval.Has(row(d.interval.col))
    ensures forall d | d in Leaves(c) :: d.Leaf? && d.interval.Normal() && d.Columns() == {d.interval.col}
    ensures c.Columns() == set d | d in Leaves(c) && d.Leaf? :: d.interval.col
  {
    if c.Leaf? { assert Leaves(c)[0] == c; }
  }

  /** With the rest left out such a constraint is its interval on the column; elsewhere it says nothing. */
  lemma PerColumnHolds(c: Constraint, col: Col, row: Row)
    requires c.Built() && IntervalPerColumn(c)
    ensures HoldsOn(c, {col}, row) <==>
            forall d | d in Leaves(c) && d.Leaf? && d.interval.col == col :: d.interval.Has(row(col))
  {
    if c.Leaf? {
      assert Leaves(c)[0] == c && c.Columns() == {c.interval.col};
    } else {
      assert forall d | d in c.children :: d.Columns() == {d.interval.col};
    }
  }

  /** On such a constraint the two cheap tests are exact. */
  lemma PerColumnIsKnown(c: Constraint)
    requires c.Built() && IntervalPerColumn(c)
    ensures EmptyIsKnown(c) && (!c.IsUnbounded() ==> FullIsKnown(c))
  {
    if c.Conjunction? {
      var cs := c.children;
      assert cs[0] in cs;
      forall k, l | 0 <= k < l < |cs| ensures cs[k].Columns() !! cs[l].Columns() {
        assert cs[k] in cs && cs[l] in cs && cs[k].Columns() == {cs[k].interval.col};
        assert cs[l].Columns() == {cs[l].interval.col};
      }
    }
  }

  lemma ContainsOnColExact(c: Constraint, d: Constraint, e: Constraint, arrays: bool)
    requires c.Built() && IntervalPerColumn(c) && d.Built() && IntervalPerColumn(d)
    requires !d.IsContradiction() && e in Leaves(c) && e.Leaf? && !c.IsUnbounded()
    requires Subsumes(c, d)
    ensures ContainsOnCol(c, d, e.interval.col, arrays)
  {
    var col := e.interval.col;
    PerColumnIsKnown(d);
    var base := SomeRow(d);
    forall v: Datum | IntervalOn(d, col, arrays).Has(v) ensures IntervalOn(c, col, arrays).Has(v) {
      DatumContained(c, d, col, arrays, base, v);
    }
    IntervalOnNormal(c, col, arrays);
    ContainsIntervalExact(IntervalOn(c, col, arrays), IntervalOn(d, col, arrays));
  }

  lemma DatumContained(c: Constraint, d: Constraint, col: Col, arrays: bool, base: Row, v: Datum)
    requires c.Built() && IntervalPerColumn(c) && d.Built() && IntervalPerColumn(d)
    requires Subsumes(c, d) && d.Sat(base) && IntervalOn(d, col, arrays).Has(v)
    ensures IntervalOn(c, col, arrays).Has(v)
  {
    PerColumnIsSeparable(c);
    PerColumnIsSeparable(d);
    NegationFreeOnEach(c, {col}, arrays);
    NegationFreeOnEach(d, {col}, arrays);
    var row: Row := (k: Col) => if k == col then v else base(k);
    IntervalOnExact(d, col, arrays, row);
    PerColumnPatched(d, col, base, row);
    assert c.Sat(row);
    HoldsOnPolarity(c, {col}, row);
    IntervalOnExact(c, col, arrays, row);
  }

  /** A row that satisfies such a constraint still does with another datum that its interval on the column has. */
  lemma PerColumnPatched(d: Constraint, col: Col, base: Row, row: Row)
    requires d.Built() && IntervalPerColumn(d) && d.Sat(base)
    requires (forall k | k != col :: row(k) == base(k)) && HoldsOn(d, {col}, row)
    ensures d.Sat(row)
  {
    LeavesMeaning(d, base);
    LeavesMeaning(d, row);
    PerColumnHolds(d, col, row);
  }

  /**
   For constraints with one interval in normal form per column, and an argument that is
   not contradictory, the answer is exactly containment of the satisfying rows.
   */
  lemma ContainsExact(c: Constraint, d: Constraint, arrays: bool)
    requires c.Built() && IntervalPerColumn(c) && d.Built() && IntervalPerColumn(d)
    requires !d.IsContradiction()
    ensures Contains(c, Some(d), arrays) <==> Subsumes(c, d)
  {
    if Contains(c, Some(d), arrays) {
      PerColumnIsSeparable(c);
      PerColumnIsSeparable(d);
      ContainsSubsumes(c, d, arrays);
    } else if Subsumes(c, d) {
      ContainsComplete(c, d, arrays);
    }
  }

  lemma ContainsComplete(c: Constraint, d: Constraint, arrays: bool)
    requires c.Built() && IntervalPerColumn(c) && d.Built() && IntervalPerColumn(d)
    requires !d.IsContradiction() && Subsumes(c, d)
    ensures Contains(c, Some(d), arrays)
  {
    if !c.IsUnbounded() {
      if d.IsUnbounded() {
        PerColumnIsKnown(c);
        var row := OtherRow(c);
        UnboundedAndContradictionSound(d, row);
      }
      LeavesMeaning(c, _ => Null);
      forall col | col in c.Columns() ensures ContainsOnCol(c, d, col, arrays) {
        var e :| e in Leaves(c) && e.Leaf? && e.interval.col == col;
        ContainsOnColExact(c, d, e, arrays);
      }
    }
  }

  lemma PerColumnIsSeparable(c: Constraint)
    requires c.Built() && IntervalPerColumn(c)
    ensures Separable(c) && c.NegationFree() && HullIsExact(c)
  {
    LeavesMeaning(c, _ => Null);
    SeparableHull(c);
  }

  // ----- What the answer is

  /** On each column of `c`: all that `d` allows there `c` allows. */
  ghost predicate HullIncludes(c: Constraint, d: Constraint) {
    forall col | col in c.Columns() :: PartIncludes(c, d, col)
  }

  ghost predicate PartIncludes(c: Constraint, d: Constraint, col: Col) {
    forall row: Row :: HoldsOn(d, {col}, row) ==> HoldsOn(c, {col}, row)
  }

  /** On each column of `c` both have a part, as the code asserts, and the interval of `c` is in normal form. */
  ghost predicate Compared(c: Constraint, d: Constraint, arrays: bool)
    requires c.Built() && d.Built()
  {
    forall col | col in c.Columns() ::
      Projects(c, col, arrays) && Projects(d, col, arrays) && IntervalOn(c, col, arrays).Normal()
  }

  /** Both answers: yes exactly if, column by column, `c` allows all that `d` does. */
  lemma ContainsIff(c: Constraint, d: Constraint, arrays: bool)
    requires c.Built() && d.Built() && Compared(c, d, arrays)
    ensures Contains(c, Some(d), arrays) <==> c.IsUnbounded() || (!d.IsUnbounded() && HullIncludes(c, d))
  {
    forall col | col in c.Columns() ensures ContainsOnCol(c, d, col, arrays) <==> PartIncludes(c, d, col) {
      ContainsOnColIff(c, d, col, arrays);
    }
  }

  lemma ContainsOnColIff(c: Constraint, d: Constraint, col: Col, arrays: bool)
    requires c.Built() && d.Built() && Projects(c, col, arrays) && Projects(d, col, arrays)
    requires IntervalOn(c, col, arrays).Normal()
    ensures ContainsOnCol(c, d, col, arrays) <==> PartIncludes(c, d, col)
  {
    var p, q := IntervalOn(c, col, arrays), IntervalOn(d, col, arrays);
    ContainsIntervalExact(p, q);
    forall row: Row
      ensures (p.Has(row(col)) <==> HoldsOn(c, {col}, row)) && (q.Has(row(col)) <==> HoldsOn(d, {col}, row))
    {
      IntervalOnExact(c, col, arrays, row);
      IntervalOnExact(d, col, arrays, row);
    }
    if PartIncludes(c, d, col) {
      forall v: Datum | q.Has(v) ensures p.Has(v) {
        var row: Row := (k: Col) => v;
        assert row(col) == v;
      }
    }
  }

  /** So it is for constraints without negations whose intervals are in normal form, as all derived ones are. */
  lemma ContainsIffNormal(c: Constraint, d: Constraint, arrays: bool)
    requires c.Built() && d.Built() && c.NegationFree() && d.NegationFree() && c.NormalLeaves()
    ensures Contains(c, Some(d), arrays) <==> c.IsUnbounded() || (!d.IsUnbounded() && HullIncludes(c, d))
  {
    NormalIsCompared(c, d, arrays);
    ContainsIff(c, d, arrays);
  }

  lemma NormalIsCompared(c: Constraint, d: Constraint, arrays: bool)
    requires c.Built() && d.Built() && c.NegationFree() && d.NegationFree() && c.NormalLeaves()
    ensures Compared(c, d, arrays)
  {
    forall col | col in c.Columns()
      ensures Projects(c, col, arrays) && Projects(d, col, arrays) && IntervalOn(c, col, arrays).Normal()
    {
      NegationFreeProjects(c, col, arrays);
      NegationFreeProjects(d, col, arrays);
      IntervalOnNormal(c, col, arrays);
    }
  }

  lemma IntervalOnNormal(c: Constraint, col: Col, arrays: bool)
    requires c.Built() && c.NormalLeaves()
    ensures IntervalOn(c, col, arrays).Normal()
  {
    UnboundedCorrect(col, true);
    var p := OnCol(c, col, arrays);
    if p.Some? {
      OnColNormalLeaves(c, col, arrays);
      if !p.value.Leaf? {
        ScalarExact(p.value, _ => Null, arrays);
        ParseExact(Scalar(p.value, arrays), col, arrays, _ => Null);
      }
    }
  }

  // ----- When a yes is right

  /** Just this datum in the column. */
  function DatumLeaf(col: Col, d: Datum): Constraint {
    Leaf(match d
         case Null => Interval(col, [], true)
         case Val(v) => Interval(col, [PointRange(v)], false))
  }

  lemma DatumLeafCorrect(col: Col, d: Datum)
    ensures var c := DatumLeaf(col, d);
      c.Built() && c.interval.Normal() && !c.IsUnbounded() && c.Columns() == {col}
      && forall e :: c.interval.Has(e) <==> e == d
  {
    if d.Val? {
      var p := DatumLeaf(col, d).interval;
      assert p.ranges[0].Has(d.v);
    }
  }

  /** The row's datums in these columns, as constraints. */
  function DatumLeaves(cols: set<Col>, row: Row): (cs: seq<Constraint>)
    ensures |cs| == |cols|
  {
    if |cols| == 0 then []
    else
      var col := FirstColumn(cols);
      [DatumLeaf(col, row(col))] + DatumLeaves(cols - {col}, row)
  }

  lemma {:induction false} DatumLeavesAre(cols: set<Col>, row: Row)
    ensures OnePerColumn(DatumLeaves(cols, row))
    ensures forall c :: c in DatumLeaves(cols, row) <==> exists col :: col in cols && c == DatumLeaf(col, row(col))
  {
    if |cols| > 0 {
      var col := FirstColumn(cols);
      var head, tail := DatumLeaf(col, row(col)), DatumLeaves(cols - {col}, row);
      DatumLeavesAre(cols - {col}, row);
      assert forall c :: c in [head] + tail <==> c == head || c in tail;
      forall c | c in tail ensures c.Columns() != head.Columns() {
        var k :| k in cols - {col} && c == DatumLeaf(k, row(k));
        assert k in c.Columns() && k !in head.Columns();
      }
    }
  }

  /** The rows that agree with this one in the constraint's columns. */
  function RowOf(c: Constraint, row: Row): Constraint {
    Conjunction(DatumLeaves(c.Columns(), row))
  }

  lemma RowOfCorrect(c: Constraint, row: Row)
    requires c.Built()
    ensures var d := RowOf(c, row); d.Built() && IntervalPerColumn(d) && d.NegationFree() && d.Sat(row)
  {
    var d := RowOf(c, row);
    HasColumns(c);
    DatumLeavesAre(c.Columns(), row);
    forall e | e in d.children
      ensures e.Leaf? && e.Built() && e.interval.Normal() && !e.IsUnbounded() && e.Sat(row)
    {
      var col :| col in c.Columns() && e == DatumLeaf(col, row(col));
      DatumLeafCorrect(col, row(col));
    }
  }

  lemma RowOfPart(c: Constraint, col: Col, arrays: bool, row: Row)
    requires c.Built() && col in c.Columns() && RowOf(c, row).Built() && IntervalPerColumn(RowOf(c, row))
    ensures forall e :: IntervalOn(RowOf(c, row), col, arrays).Has(e) <==> e == row(col)
  {
    RowOfCorrect(c, row);
    NegationFreeOnEach(RowOf(c, row), {col}, arrays);
    forall e: Datum ensures IntervalOn(RowOf(c, row), col, arrays).Has(e) <==> e == row(col) {
      var other: Row := (k: Col) => e;
      IntervalOnExact(RowOf(c, row), col, arrays, other);
      PerColumnHolds(RowOf(c, row), col, other);
      RowOfHas(c, col, row, e);
    }
  }

  lemma RowOfHas(c: Constraint, col: Col, row: Row, e: Datum)
    requires c.Built() && col in c.Columns()
    ensures (forall d | d in Leaves(RowOf(c, row)) && d.Leaf? && d.interval.col == col :: d.interval.Has(e)) <==>
      e == row(col)
  {
    var leaf := DatumLeaf(col, row(col));
    DatumLeavesAre(c.Columns(), row);
    DatumLeafCorrect(col, row(col));
    assert leaf in Leaves(RowOf(c, row));
    forall d | d in Leaves(RowOf(c, row)) && d.Leaf? && d.interval.col == col ensures d == leaf {
      var k :| k in c.Columns() && d == DatumLeaf(k, row(k));
      DatumLeafCorrect(k, row(k));
    }
  }

  /** The constraint contains the rows like a given one exactly if that is in its hull. */
  lemma ContainsRow(c: Constraint, arrays: bool, row: Row)
    requires c.Built() && Projectable(c, arrays) && !c.IsUnbounded()
    ensures RowOf(c, row).Built()
    ensures Contains(c, Some(RowOf(c, row)), arrays) <==> InHull(c, row)
  {
    var d := RowOf(c, row);
    RowOfCorrect(c, row);
    forall col | col in c.Columns() ensures ContainsOnCol(c, d, col, arrays) <==> HoldsOn(c, {col}, row) {
      ContainsRowOnCol(c, col, arrays, row);
    }
  }

  lemma ContainsRowOnCol(c: Constraint, col: Col, arrays: bool, row: Row)
    requires c.Built() && Projects(c, col, arrays) && col in c.Columns() && RowOf(c, row).Built()
    requires IntervalPerColumn(RowOf(c, row))
    ensures ContainsOnCol(c, RowOf(c, row), col, arrays) <==> HoldsOn(c, {col}, row)
  {
    RowOfPart(c, col, arrays, row);
    ContainsDatum(IntervalOn(c, col, arrays), IntervalOn(RowOf(c, row), col, arrays), row(col));
    IntervalOnExact(c, col, arrays, row);
  }

  lemma ContainsDatum(p: Interval, q: Interval, d: Datum)
    requires p.Valid() && q.Valid() && forall e :: q.Has(e) <==> e == d
    ensures ContainsInterval(p, q) <==> p.Has(d)
  {
    OneDatumIsBounded(q, d);
    ContainsIntervalExact(p, q);
  }

  lemma OneDatumIsBounded(q: Interval, d: Datum)
    requires q.Valid() && forall e :: q.Has(e) <==> e == d
    ensures !q.IsUnbounded()
  {
    assert !(q.Has(Null) && q.Has(Val(0.0)));
    assert q.IsUnbounded() ==> q.ranges[0].Has(0.0);
  }

  /** Every yes is right. */
  ghost predicate YesIsRight(c: Constraint, arrays: bool)
    requires c.Built()
  {
    forall d: Constraint | d.Built() && WidensOnEach(d, c.Columns(), arrays) && Contains(c, Some(d), arrays) ::
      Subsumes(c, d)
  }

  /**
   The exact condition: every yes is right if and only if the constraint says nothing beyond what
   it says column by column.
   */
  lemma YesIsRightIff(c: Constraint, arrays: bool)
    requires c.Built() && Projectable(c, arrays)
    ensures YesIsRight(c, arrays) <==> HullIsExact(c)
  {
    if HullIsExact(c) {
      forall d: Constraint, row: Row
        | d.Built() && WidensOnEach(d, c.Columns(), arrays) && Contains(c, Some(d), arrays) && d.Sat(row)
        ensures c.Sat(row)
      {
        ContainsSound(c, d, arrays, row);
      }
    }
    if YesIsRight(c, arrays) {
      forall row: Row | InHull(c, row) ensures c.Sat(row) { HullRowHolds(c, arrays, row); }
    }
  }

  lemma HullRowHolds(c: Constraint, arrays: bool, row: Row)
    requires c.Built() && Projectable(c, arrays) && YesIsRight(c, arrays) && InHull(c, row)
    ensures c.Sat(row)
  {
    if c.IsUnbounded() {
      UnboundedAndContradictionSound(c, row);
    } else {
      var d := RowOf(c, row);
      RowOfCorrect(c, row);
      NegationFreeOnEach(d, c.Columns(), arrays);
      ContainsRow(c, arrays, row);
      assert Subsumes(c, d);
    }
  }

  /**
   A disjunction none of whose columns is in all its children says nothing column by column: it
   contains every constraint that is not known to be unbounded, so a yes is only always right if
   every row satisfies it.
   */
  lemma MixedDisjunctionContainsAll(c: Constraint, d: Constraint, arrays: bool)
    requires c.Built() && c.Disjunction? && d.Built()
    requires forall col | col in c.Columns() :: exists e | e in c.children :: col !in e.Columns()
    ensures Contains(c, Some(d), arrays) <==> !d.IsUnbounded()
    ensures HullIsExact(c) <==> HoldsEverywhere(c)
  {
    forall col | col in c.Columns() ensures ContainsOnCol(c, d, col, arrays) {
      MixedOnCol(c, d, col, arrays);
    }
    forall row: Row ensures InHull(c, row) { MixedHull(c, row); }
  }

  lemma MixedHull(c: Constraint, row: Row)
    requires c.Disjunction? && forall col | col in c.Columns() :: exists e | e in c.children :: col !in e.Columns()
    ensures InHull(c, row)
  {
    forall col | col in c.Columns() ensures HoldsOn(c, {col}, row) {
      var e :| e in c.children && col !in e.Columns();
      assert HoldsOn(e, {col}, row);
    }
  }

  /** One row that does not satisfy it is enough for a yes to be wrong. */
  lemma MixedDisjunctionIsUnsound(c: Constraint, arrays: bool, row: Row)
    requires c.Built() && c.Disjunction? && c.NegationFree() && !c.Sat(row)
    requires forall col | col in c.Columns() :: exists e | e in c.children :: col !in e.Columns()
    ensures !YesIsRight(c, arrays)
  {
    MixedHull(c, row);
    NotRightOutside(c, arrays, row);
  }

  lemma MixedOnCol(c: Constraint, d: Constraint, col: Col, arrays: bool)
    requires c.Built() && c.Disjunction? && d.Built() && col in c.Columns()
    requires exists e | e in c.children :: col !in e.Columns()
    ensures ContainsOnCol(c, d, col, arrays)
  {
    var cs := c.children;
    assert cs[..|cs|] == cs;
    NotAllHaveParts(cs, |cs|, col, arrays);
    assert OnCol(c, col, arrays) == Some(UnboundedOn(col));
  }

  /** A conjunction of two intervals. */
  function Both(p: Interval, q: Interval): Constraint {
    Conjunction([Leaf(p), Leaf(q)])
  }

  function Either(c: Constraint, d: Constraint): Constraint {
    Disjunction([c, d])
  }

  /** A column in every child is not enough: (a = 1 and b = 1) or (a = 2 and b = 2) has (1, 2) in its hull. */
  lemma CrossedDisjunctionIsUnsound(p: Interval, q: Interval, p': Interval, q': Interval, arrays: bool, row: Row)
    requires p.Valid() && q.Valid() && p'.Valid() && q'.Valid()
    requires p.col == p'.col != q.col == q'.col
    requires p.Has(row(p.col)) && !q.Has(row(q.col)) && !p'.Has(row(p.col)) && q'.Has(row(q.col))
    ensures var c := Either(Both(p, q), Both(p', q'));
      c.Built() && c.NegationFree() && InHull(c, row) && !c.Sat(row) && !YesIsRight(c, arrays)
  {
    BothMeaning(p, q, row);
    BothMeaning(p', q', row);
    CrossedHull(Both(p, q), Both(p', q'), p.col, q.col, arrays, row);
  }

  lemma CrossedHull(c: Constraint, d: Constraint, k: Col, l: Col, arrays: bool, row: Row)
    requires c.Built() && d.Built() && c.Conjunction? && d.Conjunction? && c.NegationFree() && d.NegationFree()
    requires c.Columns() == {k, l} && d.Columns() == {k, l} && |c.Columns()| == 2
    requires HoldsOn(c, {k}, row) && HoldsOn(d, {l}, row) && !c.Sat(row) && !d.Sat(row)
    ensures var e := Either(c, d);
      e.Built() && e.NegationFree() && InHull(e, row) && !e.Sat(row) && !YesIsRight(e, arrays)
  {
    EitherMeaning(c, d, row);
    EitherHull(c, d, k, l, row);
    NotRightOutside(Either(c, d), arrays, row);
  }

  lemma EitherHull(c: Constraint, d: Constraint, k: Col, l: Col, row: Row)
    requires Either(c, d).Columns() == {k, l} && HoldsOn(c, {k}, row) && HoldsOn(d, {l}, row)
    ensures InHull(Either(c, d), row)
  {
    assert c in Either(c, d).children && d in Either(c, d).children;
  }

  lemma NotRightOutside(c: Constraint, arrays: bool, row: Row)
    requires c.Built() && c.NegationFree() && InHull(c, row) && !c.Sat(row)
    ensures !YesIsRight(c, arrays)
  {
    NegationFreeOnEach(c, c.Columns(), arrays);
    YesIsRightIff(c, arrays);
  }

  /** A disjunction of two conjunctions on the same columns. */
  lemma EitherMeaning(c: Constraint, d: Constraint, row: Row)
    requires c.Built() && d.Built() && c.Conjunction? && d.Conjunction?
    requires c.Columns() == d.Columns() && |c.Columns()| > 1
    ensures var e := Either(c, d);
      && e.Built() && (c.NegationFree() && d.NegationFree() ==> e.NegationFree()) && e.Columns() == c.Columns()
      && (e.Sat(row) <==> c.Sat(row) || d.Sat(row))
      && forall cols :: HoldsOn(c, cols, row) || HoldsOn(d, cols, row) ==> HoldsOn(e, cols, row)
  {
    var es := [c, d];
    assert c in es && d in es && forall e :: e in es <==> e == c || e == d;
    assert Either(c, d).children == es;
  }

  lemma BothMeaning(p: Interval, q: Interval, row: Row)
    requires p.Valid() && q.Valid() && p.col != q.col
    ensures var c := Both(p, q);
      && c.Built() && c.NegationFree() && c.Columns() == {p.col, q.col} && |c.Columns()| == 2
      && (c.Sat(row) <==> p.Has(row(p.col)) && q.Has(row(q.col)))
      && (HoldsOn(c, {p.col}, row) <==> p.Has(row(p.col)))
      && (HoldsOn(c, {q.col}, row) <==> q.Has(row(q.col)))
  {
    var cs := [Leaf(p), Leaf(q)];
    assert Leaf(p) in cs && Leaf(q) in cs && forall c :: c in cs <==> c == Leaf(p) || c == Leaf(q);
    assert Leaf(p).Columns() == {p.col} && Leaf(q).Columns() == {q.col};
  }

  // ----- Equality

  /** Each contains the other; a missing or unbounded argument only equals an unbounded constraint. */
  predicate Equals(c: Constraint, d: Option<Constraint>, arraysC: bool, arraysD: bool)
    requires c.Built() && (d.Some? ==> d.value.Built())
  {
    if d.None? || d.value.IsUnbounded() then c.IsUnbounded()
    else Contains(c, d, arraysC) && Contains(d.value, Some(c), arraysD)
  }

  /** Both are known to be unbounded, or neither is and column by column they allow the same. */
  ghost predicate SameHulls(c: Constraint, d: Constraint) {
    || (c.IsUnbounded() && d.IsUnbounded())
    || (!c.IsUnbounded() && !d.IsUnbounded() && HullIncludes(c, d) && HullIncludes(d, c))
  }

  lemma EqualsIff(c: Constraint, d: Constraint, arraysC: bool, arraysD: bool)
    requires c.Built() && d.Built() && Compared(c, d, arraysC) && Compared(d, c, arraysD)
    ensures Equals(c, Some(d), arraysC, arraysD) <==> SameHulls(c, d)
  {
    ContainsIff(c, d, arraysC);
    ContainsIff(d, c, arraysD);
  }

  /** The same rows satisfy both; a missing constraint is satisfied by all. */
  ghost predicate SameRows(c: Constraint, d: Option<Constraint>) {
    forall row: Row :: c.Sat(row) <==> SatOpt(d, row)
  }

  /** Exact column by column, and without negations. */
  ghost predicate PerColumn(c: Constraint) {
    c.NegationFree() && HullIsExact(c)
  }

  ghost predicate BothPerColumn(c: Constraint, d: Option<Constraint>) {
    PerColumn(c) && (d.Some? ==> PerColumn(d.value))
  }

  /** One interval in normal form per column in both, and not both contradictory. */
  ghost predicate Comparable(c: Constraint, d: Option<Constraint>) {
    && IntervalPerColumn(c) && (d.Some? ==> IntervalPerColumn(d.value))
    && !(c.IsContradiction() && d.Some? && d.value.IsContradiction())
  }

  lemma EqualsSound(c: Constraint, d: Option<Constraint>, arraysC: bool, arraysD: bool)
    requires c.Built() && (d.Some? ==> d.value.Built()) && BothPerColumn(c, d)
    requires Equals(c, d, arraysC, arraysD)
    ensures SameRows(c, d)
  {
    if d.None? || d.value.IsUnbounded() {
      forall row: Row ensures c.Sat(row) <==> SatOpt(d, row) {
        UnboundedAndContradictionSound(c, row);
        if d.Some? { UnboundedAndContradictionSound(d.value, row); }
      }
    } else {
      ContainsSubsumes(c, d.value, arraysC);
      ContainsSubsumes(d.value, c, arraysD);
    }
  }

  /**
   With one interval in normal form per column the answer is exactly whether the same rows
   satisfy both, unless both are contradictions.
   */
  lemma EqualsExact(c: Constraint, d: Option<Constraint>, arraysC: bool, arraysD: bool)
    requires c.Built() && (d.Some? ==> d.value.Built()) && Comparable(c, d)
    ensures Equals(c, d, arraysC, arraysD) <==> SameRows(c, d)
  {
    PerColumnIsSeparable(c);
    if d.Some? { PerColumnIsSeparable(d.value); }
    if Equals(c, d, arraysC, arraysD) {
      EqualsSound(c, d, arraysC, arraysD);
    } else if d.None? || d.value.IsUnbounded() {
      PerColumnIsKnown(c);
      var row := OtherRow(c);
      if d.Some? { UnboundedAndContradictionSound(d.value, row); }
    } else if SameRows(c, d) {
      SameRowsEquals(c, d.value, arraysC, arraysD);
    }
  }

  lemma SameRowsEquals(c: Constraint, d: Constraint, arraysC: bool, arraysD: bool)
    requires c.Built() && IntervalPerColumn(c) && d.Built() && IntervalPerColumn(d)
    requires !(c.IsContradiction() && d.IsContradiction()) && SameRows(c, Some(d))
    ensures Contains(c, Some(d), arraysC) && Contains(d, Some(c), arraysD)
  {
    assert Subsumes(c, d) && Subsumes(d, c) by {
      forall row: Row ensures c.Sat(row) <==> d.Sat(row) { assert SatOpt(Some(d), row) <==> d.Sat(row); }
    }
    if c.IsContradiction() {
      PerColumnIsKnown(d);
      var row := SomeRow(d);
      UnboundedAndContradictionSound(c, row);
    } else if d.IsContradiction() {
      PerColumnIsKnown(c);
      var row := SomeRow(c);
      UnboundedAndContradictionSound(d, row);
    }
    ContainsComplete(c, d, arraysC);
    ContainsComplete(d, c, arraysD);
  }

  // ----- Constraints as shared objects

  method CompareColumn(c: Constraint, d: Constraint, col: Col, arrays: bool) returns (contains: bool)
    requires c.Built() && d.Built()
    ensures contains == ContainsOnCol(c, d, col, arrays)
  {
    var mine := IntervalOn(c, col, arrays);
    var theirs := IntervalOn(d, col, arrays);
    contains := IntervalLoops.FContainsInterval(mine, theirs);
  }

  /** Column by column, until one is not contained. */
  method CompareColumns(c: Constraint, d: Constraint, arrays: bool) returns (contains: bool)
    requires c.Built() && d.Built()
    ensures contains <==> forall col | col in c.Columns() :: ContainsOnCol(c, d, col, arrays)
  {
    contains := true;
    var cols := c.Columns();
    var rest := cols;
    while contains && |rest| > 0
      invariant rest <= cols
      invariant contains <==> ContainsOnAll(c, d, cols - rest, arrays)
      decreases |rest|
    {
      var col := FirstColumn(rest);
      contains := CompareColumn(c, d, col, arrays);
      rest := rest - {col};
    }
  }

  ghost predicate ContainsOnAll(c: Constraint, d: Constraint, cols: set<Col>, arrays: bool)
    requires c.Built() && d.Built()
  {
    forall col | col in cols :: ContainsOnCol(c, d, col, arrays)
  }

  /** A constraint object, which remembers the containment queries it has answered. */
  class ConstraintNode {
    const value: Constraint
    const arrays: bool
    var memo: map<ConstraintNode, bool>

    constructor (value: Constraint, arrays: bool)
      requires value.Built()
      ensures Valid() && memo == map[] && this.value == value && this.arrays == arrays
    {
      this.value, this.arrays, memo := value, arrays, map[];
    }

    /** Every remembered answer is the one that would be computed. */
    ghost predicate Valid()
      reads this
    {
      && value.Built()
      && forall n | n in memo :: n.value.Built() && memo[n] == Contains(value, Some(n.value), arrays)
    }

    /** The answer, with or without the memo table: a bounded object always contains itself. */
    ghost predicate Answer(other: ConstraintNode?)
      requires value.Built() && (other != null ==> other.value.Built())
    {
      if other == null then Contains(value, None, arrays)
      else Contains(value, Some(other.value), arrays) || (other == this && !value.IsUnbounded())
    }

    /** What the answer says about the rows. */
    lemma AnswerMeaning(other: ConstraintNode?)
      requires value.Built() && (other != null ==> other.value.Built())
      ensures other == null ==> (Answer(other) <==> value.IsUnbounded())
      ensures other != null && Compared(value, other.value, arrays) ==>
        (Answer(other) <==> value.IsUnbounded() || (!other.value.IsUnbounded() && HullIncludes(value, other.value)))
      ensures Answer(other) && other != null && PerColumn(value) && other.value.NegationFree() ==>
        Subsumes(value, other.value)
    {
      if other != null {
        if PerColumn(value) && other.value.NegationFree() && Contains(value, Some(other.value), arrays) {
          ContainsSubsumes(value, other.value, arrays);
        }
        if Compared(value, other.value, arrays) {
          ContainsIff(value, other.value, arrays);
        }
      }
    }

    method FContains(other: ConstraintNode?) returns (contains: bool)
      requires Valid() && (other != null ==> other.value.Built())
      modifies this`memo
      ensures Valid() && contains == Answer(other)
      ensures other == null ==> (contains <==> value.IsUnbounded())
      ensures other != null && Compared(value, other.value, arrays) ==>
        (contains <==> value.IsUnbounded() || (!other.value.IsUnbounded() && HullIncludes(value, other.value)))
      ensures contains && other != null && PerColumn(value) && other.value.NegationFree() ==>
        Subsumes(value, other.value)
      ensures forall n | n in old(memo) :: n in memo && memo[n] == old(memo)[n]
      ensures forall n | n in memo && n !in old(memo) :: n == other
      ensures other != null && other != this && !value.IsUnbounded() && !other.value.IsUnbounded() ==> other in memo
    {
      AnswerMeaning(other);
      if value.IsUnbounded() {
        return true;
      }
      if other == null || other.value.IsUnbounded() {
        return false;
      }
      if this == other {
        return true;
      }
      if other in memo {
        return memo[other];
      }
      contains := CompareColumns(value, other.value, arrays);
      memo := memo[other := contains];
    }

    lemma EqualsMeaning(other: ConstraintNode?)
      requires value.Built() && (other != null ==> other.value.Built())
      ensures var d, equal := ValueOf(other),
          this == other || Equals(value, ValueOf(other), arrays, other == null || other.arrays);
        && (equal && BothPerColumn(value, d) ==> SameRows(value, d))
        && (Comparable(value, d) ==> (equal <==> SameRows(value, d)))
    {
      var d := ValueOf(other);
      var arraysD := other == null || other.arrays;
      if this == other {
        assert d == Some(value);
      } else {
        if Equals(value, d, arrays, arraysD) && BothPerColumn(value, d) { EqualsSound(value, d, arrays, arraysD); }
        if Comparable(value, d) { EqualsExact(value, d, arrays, arraysD); }
      }
    }

    static function ValueOf(other: ConstraintNode?): Option<Constraint> {
      if other == null then None else Some(other.value)
    }

    method FEquals(other: ConstraintNode?) returns (equal: bool)
      requires Valid() && (other != null ==> other.Valid())
      modifies this, if other == null then {} else {other}
      ensures Valid() && (other != null ==> other.Valid())
      ensures equal <==> this == other || Equals(value, ValueOf(other), arrays, other == null || other.arrays)
      ensures other != null && Compared(value, other.value, arrays) && Compared(other.value, value, other.arrays) ==>
        (equal <==> SameHulls(value, other.value))
      ensures equal && BothPerColumn(value, ValueOf(other)) ==> SameRows(value, ValueOf(other))
      ensures Comparable(value, ValueOf(other)) ==> (equal <==> SameRows(value, ValueOf(other)))
    {
      EqualsMeaning(other);
      if other != null && Compared(value, other.value, arrays) && Compared(other.value, value, other.arrays) {
        EqualsIff(value, other.value, arrays, other.arrays);
      }
      if other == null || other.value.IsUnbounded() {
        return value.IsUnbounded();
      }
      if this == other {
        return true;
      }
      equal := FContains(other);
      if equal {
        equal := other.FContains(this);
      }
    }
  }
}
