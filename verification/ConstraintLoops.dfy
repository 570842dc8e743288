/**
 The loops behind the constructors of conjunctions and disjunctions, and the two ways
 to look up the one-column constraints of a column (CConstraint.cpp,
 CColConstraintsHashMapper.cpp, CColConstraintsArrayMapper.cpp).
 */
module ConstraintLoops {
  import opened Options
  import opened Intervals
  import opened Scalars
  import opened DerivationLoops
  import opened Constraints

  /** The constraints that reference the column, in their order. */
  method PdrgpcnstrOnColumn(cs: seq<Constraint>, col: Col, exclusive: bool) returns (sub: seq<Constraint>)
    ensures sub == OnColumn(cs, col, exclusive)
    ensures forall c :: c in sub <==> c in cs && col in c.Columns() && (exclusive ==> c.Columns() == {col})
  {
    sub := [];
    for k := 0 to |cs|
      invariant sub == OnColumn(cs[..k], col, exclusive)
    {
      assert cs[..k + 1][..k] == cs[..k];
      if col in cs[k].Columns() && (!exclusive || cs[k].OnOneColumn()) {
        sub := sub + [cs[k]];
      }
    }
    assert cs[..|cs|] == cs;
    if exclusive {
      forall c | c in sub ensures c.Columns() == {col} { OneColumnIsFirst(c.Columns(), col); }
    }
  }

  /** Child by child, until the answer is known. */
  method FContradiction(c: Constraint) returns (contradiction: bool)
    ensures contradiction == c.IsContradiction()
    ensures c.Built() && contradiction ==> HoldsNowhere(c)
    ensures c.Built() && EmptyIsKnown(c) ==> (contradiction <==> HoldsNowhere(c))
    decreases c, 1
  {
    match c {
      case Leaf(p) => contradiction := p.IsContradiction();
      case Conjunction(cs) =>
        contradiction := false;
        var k := 0;
        while !contradiction && k < |cs|
          invariant k <= |cs| && (contradiction <==> exists d | d in cs[..k] :: d.IsContradiction())
        {
          assert cs[..k + 1] == cs[..k] + [cs[k]];
          contradiction := FContradiction(cs[k]);
          k := k + 1;
        }
        assert k == |cs| ==> cs[..k] == cs;
      case Disjunction(cs) =>
        contradiction := true;
        var k := 0;
        while contradiction && k < |cs|
          invariant k <= |cs| && (contradiction <==> forall d | d in cs[..k] :: d.IsContradiction())
        {
          assert cs[..k + 1] == cs[..k] + [cs[k]];
          contradiction := FContradiction(cs[k]);
          k := k + 1;
        }
        assert k == |cs| ==> cs[..k] == cs;
      case Negation(d) => contradiction := FUnbounded(d);
    }
    ContradictionMeaning(c);
  }

  method FUnbounded(c: Constraint) returns (unbounded: bool)
    ensures unbounded == c.IsUnbounded()
    ensures c.Built() && unbounded ==> HoldsEverywhere(c)
    ensures c.Built() && FullIsKnown(c) ==> (unbounded <==> HoldsEverywhere(c))
    decreases c, 1
  {
    match c {
      case Leaf(p) => unbounded := p.IsUnbounded();
      case Negation(d) => unbounded := FContradiction(d);
      case _ => unbounded := false;
    }
    ContradictionMeaning(c);
  }

  lemma ContradictionMeaning(c: Constraint)
    ensures c.Built() && c.IsContradiction() ==> HoldsNowhere(c)
    ensures c.Built() && EmptyIsKnown(c) ==> (c.IsContradiction() <==> HoldsNowhere(c))
    ensures c.Built() && c.IsUnbounded() ==> HoldsEverywhere(c)
    ensures c.Built() && FullIsKnown(c) ==> (c.IsUnbounded() <==> HoldsEverywhere(c))
  {
    if c.Built() {
      KnownIsExact(c);
      forall row: Row
        ensures c.IsContradiction() ==> !c.Sat(row)
        ensures c.IsUnbounded() ==> c.Sat(row)
      {
        UnboundedAndContradictionSound(c, row);
      }
    }
  }

  /** The hash-based lookup: one table entry for every column that has a one-column constraint. */
  class HashMapper {
    ghost const source: seq<Constraint>
    var table: map<Col, seq<Constraint>>

    /** The table holds exactly what a scan of the array would find. */
    ghost predicate Valid()
      reads this
    {
      TableOf(table, source)
    }

    constructor (cs: seq<Constraint>)
      requires forall c | c in cs :: |c.Columns()| > 0
      ensures Valid() && source == cs
    {
      source := cs;
      table := map[];
      new;
      for k := 0 to |cs|
        invariant TableOf(table, cs[..k])
      {
        assert cs[..k + 1][..k] == cs[..k];
        if cs[k].OnOneColumn() {
          var col := FirstColumn(cs[k].Columns());
          OneColumnIsFirst(cs[k].Columns(), col);
          if col !in table {
            table := table[col := []];
          }
          table := table[col := table[col] + [cs[k]]];
        }
        TableStep(cs, k);
      }
      assert cs[..|cs|] == cs;
    }

    /** The same list, in the same order, as the array-based lookup. */
    method PdrgPcnstrLookup(col: Col) returns (sub: seq<Constraint>)
      requires Valid() && exists c :: c in source && c.Columns() == {col}
      ensures sub == OnColumn(source, col, true)
    {
      assert |OnColumn(source, col, true)| > 0 by {
        var c :| c in source && c.Columns() == {col};
        assert c in OnColumn(source, col, true);
      }
      sub := table[col];
    }
  }

  ghost predicate TableOf(table: map<Col, seq<Constraint>>, cs: seq<Constraint>) {
    && (forall col :: col in table <==> |OnColumn(cs, col, true)| > 0)
    && (forall col | col in table :: table[col] == OnColumn(cs, col, true))
  }

  /** One more constraint adds to the list of its only column, and to no other list. */
  lemma TableStep(cs: seq<Constraint>, k: nat)
    requires k < |cs|
    ensures forall col: Col ::
              OnColumn(cs[..k + 1], col, true) ==
              if cs[k].Columns() == {col} then OnColumn(cs[..k], col, true) + [cs[k]] else OnColumn(cs[..k], col, true)
  {
    assert cs[..k + 1][..k] == cs[..k];
    forall col: Col
      ensures OnColumn(cs[..k + 1], col, true) ==
              if cs[k].Columns() == {col} then OnColumn(cs[..k], col, true) + [cs[k]] else OnColumn(cs[..k], col, true)
    {
      if col in cs[k].Columns() && cs[k].OnOneColumn() { OneColumnIsFirst(cs[k].Columns(), col); }
    }
  }

  method PdrgpcnstrFlatten(cs: seq<Constraint>, conj: bool) returns (flat: seq<Constraint>)
    ensures flat == Flatten(cs, conj)
    ensures forall row: Row :: Holds(flat, conj, row) <==> Holds(cs, conj, row)
  {
    flat := [];
    for k := 0 to |cs|
      invariant flat == Flatten(cs[..k], conj)
    {
      assert cs[..k + 1][..k] == cs[..k];
      if cs[k].IsKind(conj) {
        flat := flat + cs[k].children;
      } else {
        flat := flat + [cs[k]];
      }
    }
    assert cs[..|cs|] == cs;
    forall row: Row ensures Holds(flat, conj, row) <==> Holds(cs, conj, row) { FlattenMeaning(cs, conj, row); }
  }

  /** Combine one-column constraints on `col`: the expression, and the interval derived from it. */
  method CombineOnColumn(sub: seq<Constraint>, conj: bool, col: Col, arrays: bool) returns (p: Interval)
    requires forall c | c in sub :: c.Built() && c.Columns() == {col}
    ensures Combine(sub, conj, col, arrays) == Some(p)
    ensures p.Normal() && p.col == col && forall row: Row :: p.Has(row(col)) <==> Holds(sub, conj, row)
  {
    var es: seq<Expr> := [];
    for k := 0 to |sub|
      invariant es == ScalarsOf(sub[..k], arrays)
    {
      assert sub[..k + 1][..k] == sub[..k];
      es := es + [Scalar(sub[k], arrays)];
    }
    assert sub[..|sub|] == sub;
    var e := BuildConjDisj(es, conj);
    forall row: Row ensures Combine(sub, conj, col, arrays).Some? &&
        (Combine(sub, conj, col, arrays).value.Has(row(col)) <==> Holds(sub, conj, row)) {
      CombineExact(sub, conj, col, arrays, row);
    }
    CombineExact(sub, conj, col, arrays, _ => Null);
    forall c | c in sub ensures Expresses(Scalar(c, arrays), c, _ => Null, arrays) {
      ScalarExact(c, _ => Null, arrays);
    }
    ScalarConjDisjMeaning(sub, conj, _ => Null, arrays);
    assert ColumnsOf(sub) <= {col};
    var found := PciIntervalFromScalarExpr(e, col, arrays);
    p := found.value;
  }

  /** Look the column up by hash when there are five constraints or more, and by scan otherwise. */
  method Lookup(cs: seq<Constraint>, mapper: HashMapper?, col: Col) returns (sub: seq<Constraint>)
    requires mapper != null ==> mapper.Valid() && mapper.source == cs
    requires exists c :: c in cs && c.Columns() == {col}
    ensures sub == OnColumn(cs, col, true)
  {
    if mapper != null {
      sub := mapper.PdrgPcnstrLookup(col);
    } else {
      sub := PdrgpcnstrOnColumn(cs, col, true);
    }
  }

  method PdrgpcnstrDeduplicate(cs: seq<Constraint>, conj: bool, arrays: bool) returns (res: seq<Constraint>)
    requires AllBuilt(cs) && forall c | c in cs :: |c.Columns()| > 0
    ensures res == DedupFrom(cs, conj, arrays, Dedup(0, {}, []))
  {
    var mapper: HashMapper? := null;
    if |cs| >= 5 {
      mapper := new HashMapper(cs);
    }
    var combined: set<Col> := {};
    res := [];
    for k := 0 to |cs|
      invariant mapper != null ==> mapper.Valid() && mapper.source == cs
      invariant DedupFrom(cs, conj, arrays, Dedup(k, combined, res)) == DedupFrom(cs, conj, arrays, Dedup(0, {}, []))
    {
      combined, res := DeduplicateOne(cs, mapper, conj, arrays, k, combined, res);
    }
  }

  /** One turn of the loop. */
  method DeduplicateOne(cs: seq<Constraint>, mapper: HashMapper?, conj: bool, arrays: bool,
    k: nat, combined: set<Col>, res: seq<Constraint>) returns (combined': set<Col>, res': seq<Constraint>)
    requires AllBuilt(cs) && k < |cs| && |cs[k].Columns()| > 0
    requires mapper != null ==> mapper.Valid() && mapper.source == cs
    ensures Dedup(k + 1, combined', res') == DedupTurn(cs, conj, arrays, Dedup(k, combined, res))
  {
    combined', res' := combined, res;
    assert cs[k] in cs;
    if !cs[k].OnOneColumn() {
      res' := res + [cs[k]];
      return;
    }
    ghost var only := OneColumnChild(cs, k);
    var col := FirstColumn(cs[k].Columns());
    if col in combined {
      return;
    }
    var sub := Lookup(cs, mapper, col);
    if |sub| == 1 {
      res' := res + [cs[k]];
      return;
    }
    var p := CombineOnColumn(sub, conj, col, arrays);
    res' := res + [Leaf(p)];
    combined' := combined + {col};
  }

  /** The constructor of a conjunction or disjunction. */
  method NewNode(cs: seq<Constraint>, conj: bool, arrays: bool) returns (c: Constraint)
    requires AllBuilt(cs) && |cs| > 0
    ensures c == Make(cs, conj, arrays)
    ensures c.Built() && c.Columns() == ColumnsOf(cs)
    ensures forall row: Row :: c.Sat(row) <==> Holds(cs, conj, row)
  {
    MakeCorrect(cs, conj, arrays);
    ChildrenOfBuilt(cs, conj);
    FlattenBuilt(cs, conj);
    var flat := PdrgpcnstrFlatten(cs, conj);
    var children := PdrgpcnstrDeduplicate(flat, conj, arrays);
    c := Node(children, conj);
  }
}
