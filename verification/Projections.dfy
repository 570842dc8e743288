/**
 The part of a constraint that speaks of one column, or of a set of columns, and the
 same constraint for another column (the Pcnstr and PcnstrRemapForColumn families).
 */
module Projections {
  import opened Options
  import opened Intervals
  import opened Scalars
  import opened Printing
  import opened Constraints

  /** A constraint that may be missing; a missing one says nothing. */
  ghost predicate SatOpt(c: Option<Constraint>, row: Row) {
    c.Some? ==> c.value.Sat(row)
  }

  function UnboundedOn(col: Col): Constraint {
    Leaf(Unbounded(col, true))
  }

  lemma UnboundedOnCorrect(col: Col, row: Row)
    ensures UnboundedOn(col).Built() && UnboundedOn(col).Sat(row)
    ensures UnboundedOn(col).Columns() == {col} && UnboundedOn(col).NegationFree() && UnboundedOn(col).IsUnbounded()
  {
    UnboundedCorrect(col, true);
  }

  // ----- On one column

  /**
   The constraint on a column.  A conjunction collects what its children say about
   the column; a disjunction says nothing unless each of its children does.
   */
  function OnCol(c: Constraint, col: Col, arrays: bool): (p: Option<Constraint>)
    requires c.Built()
    ensures p.Some? ==> p.value.Built() && p.value.Columns() == {col}
    decreases c, 1
  {
    if col !in c.Columns() then None
    else
      match c
      case Leaf(_) => Some(c)
      case Conjunction(cs) =>
        ConjDisjOn(Bounded(PartsOn(cs, |cs|, col, arrays)), true, col, arrays)
      case Disjunction(cs) =>
        DisjunctionOn(|cs|, PartsOn(cs, |cs|, col, arrays), col, arrays)
      case Negation(d) =>
        var p := OnCol(d, col, arrays);
        // the code asserts that the child has a part on the column
        if p.None? then None else Some(Negation(p.value))
  }

  /** All parts are constructed constraints on just the column. */
  ghost predicate PartsOf(parts: seq<Constraint>, col: Col) {
    forall p | p in parts :: p.Built() && p.Columns() == {col}
  }

  /** The parts of the first `n` children that reference the column; a missing part counts as unbounded. */
  function PartsOn(cs: seq<Constraint>, n: nat, col: Col, arrays: bool): (parts: seq<Constraint>)
    requires AllBuilt(cs) && n <= |cs|
    ensures |parts| <= n && PartsOf(parts, col)
    decreases cs, 0, n
  {
    if n == 0 then []
    else
      var parts := PartsOn(cs, n - 1, col, arrays);
      if col !in cs[n - 1].Columns() then parts
      else
        var p := OnCol(cs[n - 1], col, arrays);
        if p.None? then (UnboundedOnCorrect(col, _ => Null); parts + [UnboundedOn(col)]) else parts + [p.value]
  }

  /** A disjunction of `n` children says nothing unless each has a part, and none is unbounded. */
  function DisjunctionOn(n: nat, parts: seq<Constraint>, col: Col, arrays: bool): (p: Option<Constraint>)
    requires PartsOf(parts, col)
    ensures p.Some? ==> p.value.Built() && p.value.Columns() == {col}
  {
    if |parts| != n then
      UnboundedOnCorrect(col, _ => Null);
      Some(UnboundedOn(col))
    else if exists p | p in parts :: p.IsUnbounded() then Some(FirstUnbounded(parts))
    else ConjDisjOn(parts, false, col, arrays)
  }

  lemma DisjunctionOnMeaning(n: nat, parts: seq<Constraint>, col: Col, arrays: bool, row: Row)
    requires PartsOf(parts, col)
    ensures |parts| != n || Holds(parts, false, row) ==> SatOpt(DisjunctionOn(n, parts, col, arrays), row)
    ensures |parts| == n > 0 ==> (SatOpt(DisjunctionOn(n, parts, col, arrays), row) <==> Holds(parts, false, row))
  {
    UnboundedOnCorrect(col, row);
    if |parts| == n {
      if exists p | p in parts :: p.IsUnbounded() {
        UnboundedAndContradictionSound(FirstUnbounded(parts), row);
      } else {
        ConjDisjOnMeaning(parts, false, col, arrays, row);
      }
    }
  }

  /** A conjunction skips the parts that are missing or unbounded. */
  function Bounded(parts: seq<Constraint>): (kept: seq<Constraint>)
    ensures forall p :: p in kept <==> p in parts && !p.IsUnbounded()
  {
    if |parts| == 0 then []
    else
      var front, last := parts[..|parts| - 1], parts[|parts| - 1];
      assert parts == front + [last];
      if last.IsUnbounded() then Bounded(front) else Bounded(front) + [last]
  }

  function FirstUnbounded(parts: seq<Constraint>): (p: Constraint)
    requires exists p | p in parts :: p.IsUnbounded()
    ensures p in parts && p.IsUnbounded()
  {
    if parts[0].IsUnbounded() then parts[0] else FirstUnbounded(parts[1..])
  }

  function ConjDisjOn(parts: seq<Constraint>, conj: bool, col: Col, arrays: bool): (p: Option<Constraint>)
    requires PartsOf(parts, col)
    ensures p.Some? ==> p.value.Built() && p.value.Columns() == {col}
    ensures p.None? <==> |parts| == 0
  {
    ConjDisjCorrect(parts, conj, arrays);
    assert |parts| > 0 ==> parts[0] in parts && parts[0].Columns() <= ColumnsOf(parts);
    assert ColumnsOf(parts) <= {col};
    ConjDisj(parts, conj, arrays)
  }

  lemma ConjDisjOnMeaning(parts: seq<Constraint>, conj: bool, col: Col, arrays: bool, row: Row)
    requires PartsOf(parts, col)
    ensures var p := ConjDisjOn(parts, conj, col, arrays);
            p.Some? ==> (p.value.Sat(row) <==> Holds(parts, conj, row))
  {
    ConjDisjCorrect(parts, conj, arrays);
  }

  lemma BoundedMeaning(parts: seq<Constraint>, row: Row)
    requires forall p | p in parts :: p.Built()
    ensures Holds(Bounded(parts), true, row) <==> Holds(parts, true, row)
  {
    forall p | p in parts && p.IsUnbounded() ensures p.Sat(row) { UnboundedAndContradictionSound(p, row); }
  }

  /** Each part came from a child that references the column, and every such child has a part. */
  lemma {:induction false} PartsFromChildren(cs: seq<Constraint>, n: nat, col: Col, arrays: bool)
    requires AllBuilt(cs) && n <= |cs|
    ensures forall p | p in PartsOn(cs, n, col, arrays) ::
              exists c :: c in cs[..n] && IsPartOf(p, c, col, arrays)
    ensures forall c | c in cs[..n] && col in c.Columns() ::
              exists p :: p in PartsOn(cs, n, col, arrays) && IsPartOf(p, c, col, arrays)
    ensures |PartsOn(cs, n, col, arrays)| == n ==> forall c | c in cs[..n] :: col in c.Columns()
    decreases n
  {
    if n > 0 {
      var last := cs[n - 1];
      PartsFromChildren(cs, n - 1, col, arrays);
      assert cs[..n] == cs[..n - 1] + [last];
      var before, now := PartsOn(cs, n - 1, col, arrays), PartsOn(cs, n, col, arrays);
      if col in last.Columns() {
        var q := now[|before|];
        assert now == before + [q] && IsPartOf(q, last, col, arrays);
        assert q in now && last in cs[..n];
      }
      forall c | c in cs[..n] && col in c.Columns()
        ensures exists p :: p in now && IsPartOf(p, c, col, arrays)
      {
        if c in cs[..n - 1] {
          var p :| p in before && IsPartOf(p, c, col, arrays);
          assert p in now;
        }
      }
    }
  }

  ghost predicate IsPartOf(p: Constraint, c: Constraint, col: Col, arrays: bool) {
    && c.Built() && col in c.Columns()
    && p == if OnCol(c, col, arrays).None? then UnboundedOn(col) else OnCol(c, col, arrays).value
  }

  lemma IsPartOfMeaning(p: Constraint, c: Constraint, col: Col, arrays: bool, row: Row)
    requires IsPartOf(p, c, col, arrays)
    ensures p.Sat(row) <==> SatOpt(OnCol(c, col, arrays), row)
  {
    UnboundedOnCorrect(col, row);
  }

  /**
   Does projecting to these columns widen the constraint, or narrow it?  Dropping what is said of
   other columns widens; NOT swaps the two.  Without negations a projection always widens.
   */
  ghost predicate WidensOn(c: Constraint, cols: set<Col>) {
    match c
    case Leaf(_) => true
    case Conjunction(cs) => forall d | d in cs :: WidensOn(d, cols)
    case Disjunction(cs) => forall d | d in cs :: WidensOn(d, cols)
    case Negation(d) => NarrowsOn(d, cols)
  }

  ghost predicate NarrowsOn(c: Constraint, cols: set<Col>) {
    match c
    case Leaf(p) => p.col in cols
    case Conjunction(cs) => forall d | d in cs :: NarrowsOn(d, cols)
    case Disjunction(cs) => forall d | d in cs :: NarrowsOn(d, cols)
    case Negation(d) => WidensOn(d, cols) && !(d.Columns() !! cols)
  }

  lemma {:induction false} NegationFreeWidens(c: Constraint, cols: set<Col>)
    requires c.NegationFree()
    ensures WidensOn(c, cols)
  {
    if !c.Leaf? {
      forall d | d in c.children ensures WidensOn(d, cols) { NegationFreeWidens(d, cols); }
    }
  }

  /** What narrows speaks of the columns. */
  lemma {:induction false} NarrowsMeets(c: Constraint, cols: set<Col>)
    requires c.Built() && NarrowsOn(c, cols)
    ensures !(c.Columns() !! cols)
  {
    match c
    case Leaf(p) => assert p.col in c.Columns();
    case Negation(d) => assert c.Columns() == d.Columns();
    case _ =>
      var d := c.children[0];
      assert d in c.children;
      NarrowsMeets(d, cols);
      assert d.Columns() <= c.Columns();
  }

  /**
   The constraint with all that does not mention the columns left out, as if it held.  This is
   what projection computes, also below a negation, where leaving out can take rows away.
   */
  ghost predicate HoldsOn(c: Constraint, cols: set<Col>, row: Row) {
    c.Columns() !! cols ||
    match c
    case Leaf(p) => p.Has(row(p.col))
    case Conjunction(cs) => forall d | d in cs :: HoldsOn(d, cols, row)
    case Disjunction(cs) => exists d | d in cs :: HoldsOn(d, cols, row)
    case Negation(d) => !HoldsOn(d, cols, row)
  }

  /** Where the projection widens it keeps every row, where it narrows it adds none. */
  lemma {:induction false} HoldsOnPolarity(c: Constraint, cols: set<Col>, row: Row)
    requires c.Built()
    ensures WidensOn(c, cols) && c.Sat(row) ==> HoldsOn(c, cols, row)
    ensures NarrowsOn(c, cols) && HoldsOn(c, cols, row) ==> c.Sat(row)
  {
    if NarrowsOn(c, cols) { NarrowsMeets(c, cols); }
    match c
    case Leaf(_) =>
    case Negation(d) => HoldsOnPolarity(d, cols, row);
    case _ =>
      forall d | d in c.children
        ensures WidensOn(d, cols) && d.Sat(row) ==> HoldsOn(d, cols, row)
        ensures NarrowsOn(d, cols) && HoldsOn(d, cols, row) ==> d.Sat(row)
      {
        HoldsOnPolarity(d, cols, row);
      }
  }

  /** Nothing is left out of a constraint on just these columns. */
  lemma {:induction false} WithinIsExact(c: Constraint, cols: set<Col>)
    requires c.Built() && c.Columns() <= cols
    ensures WidensOn(c, cols) && NarrowsOn(c, cols) && !(c.Columns() !! cols)
  {
    HasColumns(c);
    match c
    case Leaf(p) => assert p.col in c.Columns();
    case Negation(d) => WithinIsExact(d, cols);
    case _ =>
      forall d | d in c.children ensures WidensOn(d, cols) && NarrowsOn(d, cols) {
        assert d.Columns() <= c.Columns();
        WithinIsExact(d, cols);
      }
  }

  /** On a row, what a constraint says about the column is the constraint with the rest left out. */
  ghost predicate PartHolds(c: Constraint, col: Col, arrays: bool, row: Row)
    requires c.Built()
  {
    SatOpt(OnCol(c, col, arrays), row) <==> HoldsOn(c, {col}, row)
  }

  lemma {:induction false} OnColExact(c: Constraint, col: Col, arrays: bool, row: Row)
    requires c.Built() && Projects(c, col, arrays)
    ensures PartHolds(c, col, arrays, row)
    decreases c
  {
    if col in c.Columns() {
      match c
      case Leaf(_) =>
      case Negation(d) => OnColExact(d, col, arrays, row);
      case Conjunction(cs) =>
        forall d | d in cs ensures PartHolds(d, col, arrays, row) { OnColExact(d, col, arrays, row); }
        ConjunctionPart(cs, col, arrays, row);
      case Disjunction(cs) =>
        forall d | d in cs ensures PartHolds(d, col, arrays, row) { OnColExact(d, col, arrays, row); }
        DisjunctionPart(cs, col, arrays, row);
    }
  }

  /** The parts of the children that mention the column hold as those children do with the rest left out. */
  lemma PartsHold(cs: seq<Constraint>, col: Col, arrays: bool, row: Row)
    requires AllBuilt(cs) && forall d | d in cs :: PartHolds(d, col, arrays, row)
    ensures var parts := PartsOn(cs, |cs|, col, arrays);
      && (Holds(parts, true, row) <==> forall d | d in cs && col in d.Columns() :: HoldsOn(d, {col}, row))
      && (Holds(parts, false, row) <==> exists d | d in cs && col in d.Columns() :: HoldsOn(d, {col}, row))
  {
    var parts := PartsOn(cs, |cs|, col, arrays);
    PartsFromChildren(cs, |cs|, col, arrays);
    assert cs[..|cs|] == cs;
    forall p, d | d in cs && IsPartOf(p, d, col, arrays) ensures p.Sat(row) <==> HoldsOn(d, {col}, row) {
      IsPartOfMeaning(p, d, col, arrays, row);
    }
  }

  lemma ConjunctionPart(cs: seq<Constraint>, col: Col, arrays: bool, row: Row)
    requires Conjunction(cs).Built() && col in Conjunction(cs).Columns()
    requires forall d | d in cs :: PartHolds(d, col, arrays, row)
    ensures PartHolds(Conjunction(cs), col, arrays, row)
  {
    var parts := PartsOn(cs, |cs|, col, arrays);
    PartsHold(cs, col, arrays, row);
    BoundedMeaning(parts, row);
    ConjDisjOnMeaning(Bounded(parts), true, col, arrays, row);
  }

  lemma DisjunctionPart(cs: seq<Constraint>, col: Col, arrays: bool, row: Row)
    requires Disjunction(cs).Built() && col in Disjunction(cs).Columns()
    requires forall d | d in cs :: PartHolds(d, col, arrays, row)
    ensures PartHolds(Disjunction(cs), col, arrays, row)
  {
    var parts := PartsOn(cs, |cs|, col, arrays);
    DisjunctionOnMeaning(|cs|, parts, col, arrays, row);
    if d :| d in cs && col !in d.Columns() {
      assert cs[..|cs|] == cs && HoldsOn(d, {col}, row);
      NotAllHaveParts(cs, |cs|, col, arrays);
    } else {
      AllPartsHold(cs, col, arrays, row);
    }
  }

  /** With a part for every child, the parts hold as the disjunction does with the rest left out. */
  lemma AllPartsHold(cs: seq<Constraint>, col: Col, arrays: bool, row: Row)
    requires Disjunction(cs).Built() && forall d | d in cs :: col in d.Columns() && PartHolds(d, col, arrays, row)
    ensures |PartsOn(cs, |cs|, col, arrays)| == |cs|
    ensures Holds(PartsOn(cs, |cs|, col, arrays), false, row) <==> HoldsOn(Disjunction(cs), {col}, row)
  {
    AllHaveParts(cs, |cs|, col, arrays);
    PartsHold(cs, col, arrays, row);
    assert cs[0] in cs && col in Disjunction(cs).Columns();
  }

  /**
   What is there at all: a conjunction says something of a column it mentions exactly if some child does
   that is not unbounded there.
   */
  lemma ConjunctionSays(cs: seq<Constraint>, col: Col, arrays: bool)
    requires Conjunction(cs).Built() && col in Conjunction(cs).Columns()
    ensures OnCol(Conjunction(cs), col, arrays).Some? <==> exists d | d in cs :: BoundedOn(d, col, arrays)
  {
    BoundedParts(cs, col, arrays);
  }

  lemma BoundedParts(cs: seq<Constraint>, col: Col, arrays: bool)
    requires AllBuilt(cs)
    ensures |Bounded(PartsOn(cs, |cs|, col, arrays))| > 0 <==> exists d | d in cs :: BoundedOn(d, col, arrays)
  {
    var parts := PartsOn(cs, |cs|, col, arrays);
    UnboundedOnCorrect(col, _ => Null);
    PartsFromChildren(cs, |cs|, col, arrays);
    assert cs[..|cs|] == cs;
    if d :| d in cs && BoundedOn(d, col, arrays) {
      assert OnCol(d, col, arrays).value in Bounded(parts);
    }
    if |Bounded(parts)| > 0 {
      var p := Bounded(parts)[0];
      assert p in Bounded(parts);
      var d :| d in cs && IsPartOf(p, d, col, arrays);
      assert BoundedOn(d, col, arrays);
    }
  }

  /** A disjunction always says something of a column it mentions, if only that it is unbounded. */
  lemma DisjunctionSays(cs: seq<Constraint>, col: Col, arrays: bool)
    requires Disjunction(cs).Built() && col in Disjunction(cs).Columns()
    ensures OnCol(Disjunction(cs), col, arrays).Some?
    ensures (exists d | d in cs :: col !in d.Columns()) ==>
      OnCol(Disjunction(cs), col, arrays) == Some(UnboundedOn(col))
  {
    if exists d | d in cs :: col !in d.Columns() {
      assert cs[..|cs|] == cs;
      NotAllHaveParts(cs, |cs|, col, arrays);
    } else {
      AllHaveParts(cs, |cs|, col, arrays);
      assert cs[0] in cs;
    }
  }

  ghost predicate BoundedOn(c: Constraint, col: Col, arrays: bool)
    requires c.Built()
  {
    OnCol(c, col, arrays).Some? && !OnCol(c, col, arrays).value.IsUnbounded()
  }

  /** A row that satisfies the constraint satisfies what it says about a column, where that widens. */
  lemma OnColOverApproximates(c: Constraint, col: Col, arrays: bool, row: Row)
    requires c.Built() && Projects(c, col, arrays) && WidensOn(c, {col}) && c.Sat(row)
    ensures SatOpt(OnCol(c, col, arrays), row)
  {
    OnColExact(c, col, arrays, row);
    HoldsOnPolarity(c, {col}, row);
  }

  /** Where the code's assertions hold: below every negation there is a part on the column. */
  ghost predicate Projects(c: Constraint, col: Col, arrays: bool)
    requires c.Built()
  {
    match c
    case Leaf(_) => true
    case Conjunction(cs) => forall d | d in cs :: Projects(d, col, arrays)
    case Disjunction(cs) => forall d | d in cs :: Projects(d, col, arrays)
    case Negation(d) => Projects(d, col, arrays) && OnCol(d, col, arrays).Some?
  }

  lemma {:induction false} NegationFreeProjects(c: Constraint, col: Col, arrays: bool)
    requires c.Built() && c.NegationFree()
    ensures Projects(c, col, arrays)
  {
    if !c.Leaf? {
      forall d | d in c.children ensures Projects(d, col, arrays) { NegationFreeProjects(d, col, arrays); }
    }
  }

  /** A constraint on one column is what it says about that column. */
  lemma OnOwnColExact(c: Constraint, col: Col, arrays: bool, row: Row)
    requires c.Built() && c.Columns() == {col} && Projects(c, col, arrays)
    ensures SatOpt(OnCol(c, col, arrays), row) <==> c.Sat(row)
  {
    OnColExact(c, col, arrays, row);
    WithinIsExact(c, {col});
    HoldsOnPolarity(c, {col}, row);
  }

  lemma {:induction false} AllHaveParts(cs: seq<Constraint>, n: nat, col: Col, arrays: bool)
    requires AllBuilt(cs) && n <= |cs| && forall d | d in cs :: col in d.Columns()
    ensures |PartsOn(cs, n, col, arrays)| == n
    decreases n
  {
    if n > 0 {
      AllHaveParts(cs, n - 1, col, arrays);
      assert cs[n - 1] in cs;
    }
  }

  lemma {:induction false} NotAllHaveParts(cs: seq<Constraint>, n: nat, col: Col, arrays: bool)
    requires AllBuilt(cs) && n <= |cs| && exists d | d in cs[..n] :: col !in d.Columns()
    ensures |PartsOn(cs, n, col, arrays)| < n
    decreases n
  {
    assert cs[..n] == cs[..n - 1] + [cs[n - 1]];
    if col in cs[n - 1].Columns() {
      NotAllHaveParts(cs, n - 1, col, arrays);
    }
  }

  /** What a constraint with normal forms says about a column has only normal forms. */
  lemma {:induction false} OnColNormalLeaves(c: Constraint, col: Col, arrays: bool)
    requires c.Built() && c.NormalLeaves() && OnCol(c, col, arrays).Some?
    ensures OnCol(c, col, arrays).value.NormalLeaves()
    decreases c, 1
  {
    UnboundedCorrect(col, true);
    match c
    case Leaf(_) =>
    case Negation(d) => OnColNormalLeaves(d, col, arrays);
    case Conjunction(cs) =>
      PartsNormalLeaves(cs, col, arrays);
      ConjDisjNormalLeaves(Bounded(PartsOn(cs, |cs|, col, arrays)), true, col, arrays);
    case Disjunction(cs) =>
      PartsNormalLeaves(cs, col, arrays);
      ConjDisjNormalLeaves(PartsOn(cs, |cs|, col, arrays), false, col, arrays);
  }

  lemma PartsNormalLeaves(cs: seq<Constraint>, col: Col, arrays: bool)
    requires AllBuilt(cs) && forall d | d in cs :: d.NormalLeaves()
    ensures forall p | p in PartsOn(cs, |cs|, col, arrays) :: p.NormalLeaves()
    decreases cs, 0
  {
    UnboundedCorrect(col, true);
    PartsFromChildren(cs, |cs|, col, arrays);
    assert cs[..|cs|] == cs;
    forall p | p in PartsOn(cs, |cs|, col, arrays) ensures p.NormalLeaves() {
      var d :| d in cs && IsPartOf(p, d, col, arrays);
      if OnCol(d, col, arrays).Some? { OnColNormalLeaves(d, col, arrays); }
    }
  }

  lemma ConjDisjNormalLeaves(parts: seq<Constraint>, conj: bool, col: Col, arrays: bool)
    requires PartsOf(parts, col) && forall p | p in parts :: p.NormalLeaves()
    ensures ConjDisjOn(parts, conj, col, arrays).Some? ==> ConjDisjOn(parts, conj, col, arrays).value.NormalLeaves()
  {
    if |parts| > 0 { assert parts[0] in parts; }
    if |parts| > 1 { MakeNormalLeaves(parts, conj, arrays); }
  }

  // ----- On a set of columns

  /** The constraint on a set of columns; nothing when the constraint has none of them. */
  function OnCols(c: Constraint, cols: set<Col>, arrays: bool): (p: Option<Constraint>)
    requires c.Built()
    ensures p.Some? ==> p.value.Built() && p.value.Columns() <= cols
    decreases c, 1
  {
    match c
    case Leaf(q) => if q.col in cols then Some(c) else None
    case Conjunction(cs) => ConjDisjOnCols(Present(PartsOnCols(cs, |cs|, cols, arrays)), true, cols, arrays)
    case Disjunction(cs) =>
      var parts := PartsOnCols(cs, |cs|, cols, arrays);
      // there is no unbounded constraint on no column
      if |cols| == 0 then None
      // a child has none of these columns
      else if exists d | d in cs :: d.Columns() !! cols then
        UnboundedOnCorrect(FirstColumn(cols), _ => Null);
        Some(UnboundedOn(FirstColumn(cols)))
      else ConjDisjOnCols(Defaulted(parts, FirstColumn(cols)), false, cols, arrays)
    case Negation(d) =>
      if c.Columns() !! cols then None
      else
        var p := OnCols(d, cols, arrays);
        // the code asserts that the child has a part on the columns
        if p.None? then None else Some(Negation(p.value))
  }

  ghost predicate OptPartsOf(parts: seq<Option<Constraint>>, cols: set<Col>) {
    forall p | p in parts && p.Some? :: p.value.Built() && p.value.Columns() <= cols
  }

  /** What each of the first `n` children says about the columns. */
  function PartsOnCols(cs: seq<Constraint>, n: nat, cols: set<Col>, arrays: bool): (parts: seq<Option<Constraint>>)
    requires AllBuilt(cs) && n <= |cs|
    ensures |parts| == n && OptPartsOf(parts, cols)
    ensures forall k :: 0 <= k < n ==> parts[k] == PartOnCols(cs[k], cols, arrays)
    decreases cs, 0, n
  {
    if n == 0 then [] else PartsOnCols(cs, n - 1, cols, arrays) + [PartOnCols(cs[n - 1], cols, arrays)]
  }

  /** A child that has none of the columns is not asked. */
  function PartOnCols(c: Constraint, cols: set<Col>, arrays: bool): (p: Option<Constraint>)
    requires c.Built()
    ensures p.Some? ==> p.value.Built() && p.value.Columns() <= cols
    decreases c, 2
  {
    if c.Columns() !! cols then None else OnCols(c, cols, arrays)
  }

  /** A conjunction keeps the parts that are there. */
  function Present(parts: seq<Option<Constraint>>): (kept: seq<Constraint>)
    ensures forall p :: p in kept <==> Some(p) in parts
  {
    if |parts| == 0 then []
    else
      var front, last := parts[..|parts| - 1], parts[|parts| - 1];
      assert parts == front + [last];
      if last.None? then Present(front) else Present(front) + [last.value]
  }

  /** A disjunction takes an unbounded constraint for a part that is not there. */
  function Defaulted(parts: seq<Option<Constraint>>, col: Col): (all: seq<Constraint>)
    ensures |all| == |parts|
    ensures forall p :: p in all <==> Some(p) in parts || (p == UnboundedOn(col) && None in parts)
  {
    if |parts| == 0 then []
    else
      var front, last := parts[..|parts| - 1], parts[|parts| - 1];
      assert parts == front + [last];
      Defaulted(front, col) + [if last.None? then UnboundedOn(col) else last.value]
  }

  function ConjDisjOnCols(parts: seq<Constraint>, conj: bool, cols: set<Col>, arrays: bool): (p: Option<Constraint>)
    requires forall q | q in parts ::
      (q.Built() && q.Columns() <= cols) || exists col :: col in cols && q == UnboundedOn(col)
    ensures p.Some? ==> p.value.Built() && p.value.Columns() <= cols
    ensures p.None? <==> |parts| == 0
    ensures p.Some? ==> forall row: Row :: p.value.Sat(row) <==> Holds(parts, conj, row)
  {
    assert forall q | q in parts :: q.Built() && q.Columns() <= cols by {
      forall q | q in parts ensures q.Built() && q.Columns() <= cols {
        if col :| col in cols && q == UnboundedOn(col) { UnboundedOnCorrect(col, _ => Null); }
      }
    }
    ConjDisjCorrect(parts, conj, arrays);
    assert ColumnsOf(parts) <= cols;
    ConjDisj(parts, conj, arrays)
  }

  /** Nothing is missing of a constraint that speaks of the columns. */
  lemma {:induction false} OnColsPresent(c: Constraint, cols: set<Col>, arrays: bool)
    requires c.Built() && !(c.Columns() !! cols)
    ensures OnCols(c, cols, arrays).Some?
    decreases c
  {
    match c
    case Leaf(_) =>
    case Negation(d) => OnColsPresent(d, cols, arrays);
    case Conjunction(cs) =>
      var k :| 0 <= k < |cs| && !(cs[k].Columns() !! cols);
      assert cs[k] in cs;
      OnColsPresent(cs[k], cols, arrays);
      var parts := PartsOnCols(cs, |cs|, cols, arrays);
      assert parts[k] in parts;
    case Disjunction(cs) =>
  }

  ghost predicate PartHoldsOnCols(c: Constraint, cols: set<Col>, arrays: bool, row: Row)
    requires c.Built()
  {
    SatOpt(OnCols(c, cols, arrays), row) <==> HoldsOn(c, cols, row)
  }

  /** What every constraint says about a set of columns: itself, with the rest left out. */
  lemma {:induction false} OnColsExact(c: Constraint, cols: set<Col>, arrays: bool, row: Row)
    requires c.Built()
    ensures PartHoldsOnCols(c, cols, arrays, row)
    decreases c
  {
    match c
    case Leaf(p) => assert c.Columns() == {p.col};
    case Negation(d) =>
      OnColsExact(d, cols, arrays, row);
      if !(d.Columns() !! cols) { OnColsPresent(d, cols, arrays); }
    case Conjunction(cs) =>
      forall d | d in cs ensures PartHoldsOnCols(d, cols, arrays, row) { OnColsExact(d, cols, arrays, row); }
      ConjunctionPartOnCols(cs, cols, arrays, row);
    case Disjunction(cs) =>
      forall d | d in cs ensures PartHoldsOnCols(d, cols, arrays, row) { OnColsExact(d, cols, arrays, row); }
      DisjunctionPartOnCols(cs, cols, arrays, row);
  }

  lemma ConjunctionPartOnCols(cs: seq<Constraint>, cols: set<Col>, arrays: bool, row: Row)
    requires Conjunction(cs).Built() && forall d | d in cs :: PartHoldsOnCols(d, cols, arrays, row)
    ensures PartHoldsOnCols(Conjunction(cs), cols, arrays, row)
  {
    var parts := PartsOnCols(cs, |cs|, cols, arrays);
    PartsOnColsHold(cs, cols, arrays, row);
    forall p | p in Present(parts) ensures exists d :: d in cs && (p.Sat(row) <==> HoldsOn(d, cols, row)) {
      var k :| 0 <= k < |cs| && parts[k] == Some(p);
      assert cs[k] in cs;
    }
    forall d | d in cs && Holds(Present(parts), true, row) ensures HoldsOn(d, cols, row) {
      var k :| 0 <= k < |cs| && cs[k] == d;
      assert parts[k] in parts;
    }
  }

  /** Each part that is there holds as its child does with the rest left out; a missing part leaves all of it out. */
  lemma PartsOnColsHold(cs: seq<Constraint>, cols: set<Col>, arrays: bool, row: Row)
    requires AllBuilt(cs) && forall d | d in cs :: PartHoldsOnCols(d, cols, arrays, row)
    ensures forall k :: 0 <= k < |cs| ==>
      (SatOpt(PartsOnCols(cs, |cs|, cols, arrays)[k], row) <==> HoldsOn(cs[k], cols, row))
  {
    forall k | 0 <= k < |cs|
      ensures SatOpt(PartsOnCols(cs, |cs|, cols, arrays)[k], row) <==> HoldsOn(cs[k], cols, row)
    {
      assert cs[k] in cs;
    }
  }

  lemma DisjunctionPartOnCols(cs: seq<Constraint>, cols: set<Col>, arrays: bool, row: Row)
    requires Disjunction(cs).Built() && forall d | d in cs :: PartHoldsOnCols(d, cols, arrays, row)
    ensures PartHoldsOnCols(Disjunction(cs), cols, arrays, row)
  {
    assert cs[0] in cs;
    if d :| d in cs && d.Columns() !! cols {
      MissingHolds(cs, d, cols, arrays, row);
    } else {
      DefaultedHolds(cs, cols, arrays, row);
    }
  }

  /** A child with none of the columns leaves nothing of a disjunction. */
  lemma MissingHolds(cs: seq<Constraint>, d: Constraint, cols: set<Col>, arrays: bool, row: Row)
    requires Disjunction(cs).Built() && d in cs && d.Columns() !! cols
    ensures SatOpt(OnCols(Disjunction(cs), cols, arrays), row) && HoldsOn(Disjunction(cs), cols, row)
  {
    assert HoldsOn(d, cols, row);
    if |cols| > 0 { UnboundedOnCorrect(FirstColumn(cols), row); }
  }

  lemma DefaultedHolds(cs: seq<Constraint>, cols: set<Col>, arrays: bool, row: Row)
    requires AllBuilt(cs) && |cols| > 0 && forall d | d in cs :: PartHoldsOnCols(d, cols, arrays, row)
    ensures Holds(Defaulted(PartsOnCols(cs, |cs|, cols, arrays), FirstColumn(cols)), false, row) <==>
      exists d | d in cs :: HoldsOn(d, cols, row)
  {
    var parts := PartsOnCols(cs, |cs|, cols, arrays);
    var all := Defaulted(parts, FirstColumn(cols));
    PartsOnColsHold(cs, cols, arrays, row);
    UnboundedOnCorrect(FirstColumn(cols), row);
    forall k | 0 <= k < |cs| ensures all[k].Sat(row) <==> HoldsOn(cs[k], cols, row) {
      DefaultedAt(parts, FirstColumn(cols), k);
    }
    SameTruths(all, cs, cols, row);
  }

  lemma SameTruths(all: seq<Constraint>, cs: seq<Constraint>, cols: set<Col>, row: Row)
    requires |all| == |cs| && forall k :: 0 <= k < |cs| ==> (all[k].Sat(row) <==> HoldsOn(cs[k], cols, row))
    ensures Holds(all, false, row) <==> exists d | d in cs :: HoldsOn(d, cols, row)
  {
    if d :| d in cs && HoldsOn(d, cols, row) {
      var k :| 0 <= k < |cs| && cs[k] == d;
      assert all[k] in all;
    }
    if p :| p in all && p.Sat(row) {
      var k :| 0 <= k < |all| && all[k] == p;
      assert cs[k] in cs;
    }
  }

  lemma {:induction false} DefaultedAt(parts: seq<Option<Constraint>>, col: Col, k: nat)
    requires k < |parts|
    ensures Defaulted(parts, col)[k] == OrUnbounded(parts[k], col)
  {
    if k < |parts| - 1 { DefaultedAt(parts[..|parts| - 1], col, k); }
  }

  function OrUnbounded(part: Option<Constraint>, col: Col): Constraint {
    if part.None? then UnboundedOn(col) else part.value
  }

  /** The projection to a set of columns only widens, too, where it does. */
  lemma OnColsOverApproximates(c: Constraint, cols: set<Col>, arrays: bool, row: Row)
    requires c.Built() && WidensOn(c, cols) && c.Sat(row)
    ensures SatOpt(OnCols(c, cols, arrays), row)
  {
    OnColsExact(c, cols, arrays, row);
    HoldsOnPolarity(c, cols, row);
  }

  // ----- For another column

  /** The same constraint, with every column replaced by `col`. */
  function Remap(c: Constraint, col: Col, arrays: bool): (d: Constraint)
    requires c.Built()
    ensures d.Built() && d.Columns() == {col}
    decreases c, 1
  {
    match c
    case Leaf(p) => Leaf(p.(col := col))
    case Conjunction(cs) => RemapNode(cs, true, col, arrays)
    case Disjunction(cs) => RemapNode(cs, false, col, arrays)
    case Negation(d) => Negation(Remap(d, col, arrays))
  }

  function RemapNode(cs: seq<Constraint>, conj: bool, col: Col, arrays: bool): (d: Constraint)
    requires AllBuilt(cs) && |cs| > 0
    ensures d.Built() && d.Columns() == {col}
    decreases cs, 1
  {
    ConjDisjOn(RemapEach(cs, |cs|, col, arrays), conj, col, arrays).value
  }

  function RemapEach(cs: seq<Constraint>, n: nat, col: Col, arrays: bool): (ds: seq<Constraint>)
    requires AllBuilt(cs) && n <= |cs|
    ensures |ds| == n && PartsOf(ds, col)
    ensures forall k :: 0 <= k < n ==> ds[k] == Remap(cs[k], col, arrays)
    decreases cs, 0, n
  {
    if n == 0 then [] else RemapEach(cs, n - 1, col, arrays) + [Remap(cs[n - 1], col, arrays)]
  }

  /** On a row that has the target column's datum in all of the constraint's columns, nothing changes. */
  lemma {:induction false} RemapExact(c: Constraint, col: Col, arrays: bool, row: Row)
    requires c.Built() && forall k | k in c.Columns() :: row(k) == row(col)
    ensures Remap(c, col, arrays).Sat(row) <==> c.Sat(row)
    decreases c
  {
    match c
    case Leaf(p) => assert p.col in c.Columns();
    case Negation(d) => RemapExact(d, col, arrays, row);
    case Conjunction(cs) =>
      forall d | d in cs ensures Remap(d, col, arrays).Sat(row) <==> d.Sat(row) { RemapExact(d, col, arrays, row); }
      RemapNodeMeaning(cs, true, col, arrays, row);
    case Disjunction(cs) =>
      forall d | d in cs ensures Remap(d, col, arrays).Sat(row) <==> d.Sat(row) { RemapExact(d, col, arrays, row); }
      RemapNodeMeaning(cs, false, col, arrays, row);
  }

  lemma RemapNodeMeaning(cs: seq<Constraint>, conj: bool, col: Col, arrays: bool, row: Row)
    requires AllBuilt(cs) && |cs| > 0
    requires forall d | d in cs :: Remap(d, col, arrays).Sat(row) <==> d.Sat(row)
    ensures RemapNode(cs, conj, col, arrays).Sat(row) <==> Holds(cs, conj, row)
  {
    var ds := RemapEach(cs, |cs|, col, arrays);
    ConjDisjOnMeaning(ds, conj, col, arrays, row);
    forall d | d in cs ensures Remap(d, col, arrays) in ds {
      var k :| 0 <= k < |cs| && cs[k] == d;
      assert ds[k] == Remap(d, col, arrays);
    }
  }

  // ----- Negations

  /** Projection to columns adds no negation. */
  lemma {:induction false} OnColsNegationFree(c: Constraint, cols: set<Col>, arrays: bool)
    requires c.Built() && c.NegationFree() && OnCols(c, cols, arrays).Some?
    ensures OnCols(c, cols, arrays).value.NegationFree()
    decreases c, 1
  {
    match c
    case Leaf(_) =>
    case Conjunction(cs) =>
      PartsNegationFree(cs, cols, arrays);
      PresentNegationFree(cs, cols, arrays);
    case Disjunction(cs) =>
      PartsNegationFree(cs, cols, arrays);
      DefaultedNegationFree(cs, cols, arrays);
  }

  lemma PresentNegationFree(cs: seq<Constraint>, cols: set<Col>, arrays: bool)
    requires AllBuilt(cs) && |Present(PartsOnCols(cs, |cs|, cols, arrays))| > 0
    requires forall p | p in PartsOnCols(cs, |cs|, cols, arrays) && p.Some? :: p.value.NegationFree()
    ensures ConjDisjOnCols(Present(PartsOnCols(cs, |cs|, cols, arrays)), true, cols, arrays).value.NegationFree()
  {
    ConjDisjNegationFree(Present(PartsOnCols(cs, |cs|, cols, arrays)), true, cols, arrays);
  }

  lemma DefaultedNegationFree(cs: seq<Constraint>, cols: set<Col>, arrays: bool)
    requires AllBuilt(cs) && |cs| > 0 && |cols| > 0
    requires forall p | p in PartsOnCols(cs, |cs|, cols, arrays) && p.Some? :: p.value.NegationFree()
    ensures UnboundedOn(FirstColumn(cols)).NegationFree()
    ensures var all := Defaulted(PartsOnCols(cs, |cs|, cols, arrays), FirstColumn(cols));
      ConjDisjOnCols(all, false, cols, arrays).value.NegationFree()
  {
    UnboundedOnCorrect(FirstColumn(cols), _ => Null);
    ConjDisjNegationFree(Defaulted(PartsOnCols(cs, |cs|, cols, arrays), FirstColumn(cols)), false, cols, arrays);
  }

  lemma PartsNegationFree(cs: seq<Constraint>, cols: set<Col>, arrays: bool)
    requires AllBuilt(cs) && forall d | d in cs :: d.NegationFree()
    ensures forall p | p in PartsOnCols(cs, |cs|, cols, arrays) && p.Some? :: p.value.NegationFree()
    decreases cs, 0
  {
    var parts := PartsOnCols(cs, |cs|, cols, arrays);
    forall p | p in parts && p.Some? ensures p.value.NegationFree() {
      var k :| 0 <= k < |cs| && parts[k] == p;
      assert cs[k] in cs;
      OnColsNegationFree(cs[k], cols, arrays);
    }
  }

  lemma ConjDisjNegationFree(parts: seq<Constraint>, conj: bool, cols: set<Col>, arrays: bool)
    requires |parts| > 0 && forall q | q in parts :: q.Built() && q.NegationFree()
    requires forall q | q in parts :: q.Columns() <= cols || exists col :: col in cols && q == UnboundedOn(col)
    ensures ConjDisjOnCols(parts, conj, cols, arrays).value.NegationFree()
  {
    assert parts[0] in parts;
    if |parts| > 1 { MakeNegationFree(parts, conj, arrays); }
  }

  /** The one interval of a constraint that is an interval, or a node around one. */
  function OnlyInterval(c: Constraint): Option<Interval> {
    match c
    case Leaf(q) => Some(q)
    case Negation(_) => None
    case _ => if |c.children| == 1 && c.children[0].Leaf? then Some(c.children[0].interval) else None
  }

  /** Without negations, all of a constraint moved to one column is one interval on it. */
  lemma {:induction false} RemapIsInterval(c: Constraint, col: Col, arrays: bool)
    requires c.Built() && c.NegationFree()
    ensures var q := OnlyInterval(Remap(c, col, arrays)); q.Some? && q.value.Valid() && q.value.col == col
    decreases c
  {
    match c
    case Leaf(_) =>
    case Conjunction(cs) =>
      if |cs| == 1 { RemapIsInterval(cs[0], col, arrays); }
      RemapNodeIsInterval(cs, true, col, arrays);
    case Disjunction(cs) =>
      if |cs| == 1 { RemapIsInterval(cs[0], col, arrays); }
      RemapNodeIsInterval(cs, false, col, arrays);
  }

  lemma RemapNodeIsInterval(cs: seq<Constraint>, conj: bool, col: Col, arrays: bool)
    requires AllBuilt(cs) && |cs| > 0
    requires |cs| == 1 ==>
      var q := OnlyInterval(Remap(cs[0], col, arrays)); q.Some? && q.value.Valid() && q.value.col == col
    ensures var q := OnlyInterval(RemapNode(cs, conj, col, arrays)); q.Some? && q.value.Valid() && q.value.col == col
  {
    var ds := RemapEach(cs, |cs|, col, arrays);
    if |ds| > 1 {
      var q := MakeOnOneColumn(ds, conj, col, arrays);
    }
  }

  /** Its expression is the printed interval. */
  lemma OnlyIntervalPrints(c: Constraint, arrays: bool)
    requires OnlyInterval(c).Some?
    ensures Scalar(c, arrays) == Print(OnlyInterval(c).value, arrays)
  {
    if !c.Leaf? {
      var q := OnlyInterval(c).value;
      assert c == Node([Leaf(q)], c.Conjunction?) by { assert c.children == [Leaf(q)]; }
      NodeOfOnePrints(q, c.Conjunction?, arrays);
    }
  }

  lemma NodeOfOnePrints(q: Interval, conj: bool, arrays: bool)
    ensures Scalar(Node([Leaf(q)], conj), arrays) == Print(q, arrays)
  {
    var cs := [Leaf(q)];
    assert cs[0] == Leaf(q) && cs[..0] == [];
    assert ScalarsOf(cs, arrays) == [Print(q, arrays)];
    MakeOne(Print(q, arrays), conj);
    assert cs[0].IsContradiction() == q.IsContradiction() && forall c :: c in cs <==> c == cs[0];
    assert Node(cs, conj).IsContradiction() == q.IsContradiction();
  }
}
