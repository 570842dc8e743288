/**
 Splitting a predicate over the levels of a partitioned table
 (CPartitionPropagationSpec.cpp, with the helpers of CPredicateUtils.cpp).
 */
module PartPredicates {
  import opened Options
  import opened Intervals
  import opened Scalars

  // ----- Conjuncts

  function Conjuncts(e: Expr): seq<Expr>
    decreases e
  {
    if e.And? then ConjunctsOf(e.args, |e.args|) else [e]
  }

  /** The conjuncts of the first `n` children. */
  function ConjunctsOf(es: seq<Expr>, n: nat): seq<Expr>
    requires n <= |es|
    decreases es, n
  {
    if n == 0 then [] else ConjunctsOf(es, n - 1) + Conjuncts(es[n - 1])
  }

  ghost predicate AllTrue(es: seq<Expr>, row: Row, env: Env) {
    forall e | e in es :: Eval(e, row, env).True?
  }

  ghost predicate SomeFalse(es: seq<Expr>, row: Row, env: Env) {
    exists e | e in es :: Eval(e, row, env).False?
  }

  /** A predicate means the conjunction of its conjuncts. */
  lemma {:induction false} ConjunctsMeaning(e: Expr, row: Row, env: Env)
    ensures Eval(e, row, env).True? <==> AllTrue(Conjuncts(e), row, env)
    ensures Eval(e, row, env).False? <==> SomeFalse(Conjuncts(e), row, env)
    decreases e
  {
    if e.And? {
      ConjunctsOfMeaning(e.args, |e.args|, row, env);
      assert e.args[..|e.args|] == e.args;
    } else {
      assert Conjuncts(e)[0] == e;
    }
  }

  lemma {:induction false} ConjunctsOfMeaning(es: seq<Expr>, n: nat, row: Row, env: Env)
    requires n <= |es|
    ensures AllTrue(es[..n], row, env) <==> AllTrue(ConjunctsOf(es, n), row, env)
    ensures SomeFalse(es[..n], row, env) <==> SomeFalse(ConjunctsOf(es, n), row, env)
    decreases es, n
  {
    if n > 0 {
      ConjunctsMeaning(es[n - 1], row, env);
      ConjunctsOfMeaning(es, n - 1, row, env);
      assert es[..n] == es[..n - 1] + [es[n - 1]];
      assert [es[n - 1]][0] == es[n - 1];
    }
  }

  /** Appends the conjuncts to the list. */
  method CollectConjuncts(e: Expr, list: seq<Expr>) returns (list': seq<Expr>)
    ensures list' == list + Conjuncts(e)
    decreases e
  {
    list' := list;
    if e.And? {
      for k := 0 to |e.args|
        invariant list' == list + ConjunctsOf(e.args, k)
      {
        list' := CollectConjuncts(e.args[k], list');
      }
    } else {
      list' := list' + [e];
    }
  }

  // ----- Comparisons with a key

  predicate IsComparison(e: Expr) {
    (e.Cmp? || e.TermCmp?) && !e.op.IsDistinct?
  }

  predicate IsEquality(e: Expr) {
    IsComparison(e) && e.op.Eq?
  }

  /** The column itself, or the column under one cast that keeps the value. */
  predicate IsKey(t: Term, key: Col) {
    t == Ident(key) || t == Cast(Ident(key))
  }

  /** The key stands plainly on one side of the comparison. */
  predicate KeyIsPlain(e: Expr, key: Col) {
    match e
    case Cmp(c, _, _) => c == key
    case TermCmp(l, _, r) => IsKey(l, key) || IsKey(r, key)
    case _ => false
  }

  function Reverse(op: CmpType): CmpType
    requires !op.IsDistinct?
  {
    match op
    case Eq => Eq
    case NEq => NEq
    case Less => Greater
    case Greater => Less
    case LessEq => GreaterEq
    case GreaterEq => LessEq
  }

  /** The other side, and the comparison with the key on the left. */
  function ExtractComponents(e: Expr, key: Col): (r: (Term, CmpType))
    requires IsComparison(e) && KeyIsPlain(e, key)
  {
    match e
    case Cmp(_, op, v) => (Literal(Val(v)), op)
    case TermCmp(l, op, r) => if IsKey(l, key) then (r, op) else (l, Reverse(op))
  }

  /** Turning a comparison around to have the key on the left keeps its meaning. */
  lemma ExtractComponentsMeaning(e: Expr, key: Col, row: Row, env: Env)
    requires IsComparison(e) && KeyIsPlain(e, key)
    ensures var (other, op) := ExtractComponents(e, key);
      Eval(e, row, env) == CompareDatums(op, row(key), TermValue(other, row, env))
  {
    assert TermValue(Cast(Ident(key)), row, env) == TermValue(Ident(key), row, env);
  }

  // ----- Levels

  function KeySet(keys: seq<Col>): set<Col> {
    set c | c in keys
  }

  /** The first level whose key is the only key the conjunct uses, from `level` on; past the end if there is none. */
  function LevelFrom(e: Expr, keys: seq<Col>, level: nat): (l: nat)
    requires level <= |keys|
    ensures level <= l <= |keys|
    ensures l < |keys| ==> e.Columns() * KeySet(keys) == {keys[l]}
    ensures forall j :: level <= j < l ==> e.Columns() * KeySet(keys) != {keys[j]}
    decreases |keys| - level
  {
    if level == |keys| || e.Columns() * KeySet(keys) == {keys[level]} then level
    else LevelFrom(e, keys, level + 1)
  }

  function LevelOf(e: Expr, keys: seq<Col>): (l: nat)
    ensures l <= |keys|
  {
    LevelFrom(e, keys, 0)
  }

  /** The conjuncts of a level, in order; those of level |keys| are left for the residual. */
  function AtLevel(es: seq<Expr>, keys: seq<Col>, l: nat): seq<Expr> {
    if es == [] then []
    else
      var rest := AtLevel(es[..|es| - 1], keys, l);
      if LevelOf(es[|es| - 1], keys) == l then rest + [es[|es| - 1]] else rest
  }

  /** The conjuncts of a level keep their order. */
  lemma {:induction false} AtLevelSplit(front: seq<Expr>, back: seq<Expr>, keys: seq<Col>, l: nat)
    ensures AtLevel(front + back, keys, l) == AtLevel(front, keys, l) + AtLevel(back, keys, l)
  {
    if back == [] {
      assert front + back == front;
    } else {
      var rest, e := back[..|back| - 1], back[|back| - 1];
      assert front + back == front + rest + [e] && back == rest + [e];
      AtLevelSplit(front, rest, keys, l);
      AtLevelLast(front + rest, e, keys, l);
      AtLevelLast(rest, e, keys, l);
      AppendAssociates(AtLevel(front, keys, l), AtLevel(rest, keys, l), if LevelOf(e, keys) == l then [e] else []);
    }
  }

  lemma AtLevelLast(es: seq<Expr>, e: Expr, keys: seq<Col>, l: nat)
    ensures AtLevel(es + [e], keys, l) == AtLevel(es, keys, l) + if LevelOf(e, keys) == l then [e] else []
  {
    assert (es + [e])[..|es|] == es;
  }

  /** Every occurrence of a conjunct goes to exactly one level. */
  lemma {:induction false} AtLevelCounts(es: seq<Expr>, keys: seq<Col>, l: nat, e: Expr)
    ensures multiset(AtLevel(es, keys, l))[e] == if LevelOf(e, keys) == l then multiset(es)[e] else 0
  {
    if es != [] {
      var front, last := es[..|es| - 1], es[|es| - 1];
      AtLevelCounts(front, keys, l, e);
      assert es == front + [last];
    }
  }

  lemma {:induction false} AtLevelMembers(es: seq<Expr>, keys: seq<Col>, l: nat)
    ensures forall e :: e in AtLevel(es, keys, l) <==> e in es && LevelOf(e, keys) == l
  {
    if es != [] {
      AtLevelMembers(es[..|es| - 1], keys, l);
      assert es == es[..|es| - 1] + [es[|es| - 1]];
    }
  }

  /** A level whose one conjunct is an equality gets an equality filter. */
  predicate HasEqFilter(es: seq<Expr>, keys: seq<Col>, l: nat) {
    l < |keys| && |AtLevel(es, keys, l)| == 1 && IsEquality(AtLevel(es, keys, l)[0])
  }

  predicate HasFilter(es: seq<Expr>, keys: seq<Col>, l: nat) {
    l < |keys| && |AtLevel(es, keys, l)| > 0 && !HasEqFilter(es, keys, l)
  }

  /** What extracting the other side of an equality relies on. */
  predicate KeysArePlain(es: seq<Expr>, keys: seq<Col>) {
    forall l | 0 <= l < |keys| && HasEqFilter(es, keys, l) :: KeyIsPlain(AtLevel(es, keys, l)[0], keys[l])
  }

  datatype Split = Split(eqFilters: map<nat, Term>, filters: map<nat, Expr>, residual: Option<Expr>)

  function EqFilterAt(es: seq<Expr>, keys: seq<Col>): nat -> Option<Term>
    requires KeysArePlain(es, keys)
  {
    (l: nat) => if HasEqFilter(es, keys, l) && KeyIsPlain(AtLevel(es, keys, l)[0], keys[l])
      then Some(ExtractComponents(AtLevel(es, keys, l)[0], keys[l]).0) else None
  }

  function FilterAt(es: seq<Expr>, keys: seq<Col>): nat -> Option<Expr> {
    (l: nat) => if HasFilter(es, keys, l) then Some(MakeConjDisj(AtLevel(es, keys, l), true)) else None
  }

  /** The map has exactly the entries wanted for the levels below `l`. */
  ghost predicate Filled<T(!new)>(m: map<nat, T>, wanted: nat -> Option<T>, l: nat) {
    && (forall j: nat :: j in m <==> j < l && wanted(j).Some?)
    && (forall j: nat | j in m :: Some(m[j]) == wanted(j))
  }

  lemma FilledNext<T(!new)>(m: map<nat, T>, wanted: nat -> Option<T>, l: nat)
    requires Filled(m, wanted, l)
    ensures Filled(if wanted(l).Some? then m[l := wanted(l).value] else m, wanted, l + 1)
  {
  }

  function Residual(es: seq<Expr>): Option<Expr> {
    var e := MakeConjDisj(es, true);
    if e == Const(True) then None else Some(e)
  }

  ghost predicate IsSplit(s: Split, es: seq<Expr>, keys: seq<Col>) {
    && KeysArePlain(es, keys)
    && Filled(s.eqFilters, EqFilterAt(es, keys), |keys|) && Filled(s.filters, FilterAt(es, keys), |keys|)
    && s.residual == Residual(AtLevel(es, keys, |keys|))
  }

  /**
   Where the conjuncts of a level go: a single equality becomes the level's equality filter, anything
   else its other filter, and a level without conjuncts gets none.
   */
  lemma SplitShape(s: Split, es: seq<Expr>, keys: seq<Col>, l: nat)
    requires IsSplit(s, es, keys)
    ensures l in s.eqFilters <==>
      l < |keys| && exists e :: AtLevel(es, keys, l) == [e] && (e.Cmp? || e.TermCmp?) && e.op.Eq?
    ensures l in s.filters <==> l < |keys| && AtLevel(es, keys, l) != [] && l !in s.eqFilters
  {
    var at := AtLevel(es, keys, l);
    if |at| == 1 {
      assert at == [at[0]];
    }
  }

  /** There is a residual unless every conjunct left for it is the constant TRUE, and it is never just that. */
  lemma ResidualShape(s: Split, es: seq<Expr>, keys: seq<Col>)
    requires IsSplit(s, es, keys)
    ensures s.residual.None? <==> OnlyTrue(AtLevel(es, keys, |keys|))
    ensures s.residual != Some(Const(True))
  {
    ConjunctionIsTrue(AtLevel(es, keys, |keys|));
  }

  ghost predicate OnlyTrue(es: seq<Expr>) {
    forall e | e in es :: e == Const(True)
  }

  lemma ConjunctionIsTrue(es: seq<Expr>)
    ensures MakeConjDisj(es, true) == Const(True) <==> OnlyTrue(es)
  {
    var final := Unskipped(es, true);
    if |final| > 0 { assert final[0] in final; }
    if e :| e in es && e != Const(True) { assert e in final; }
  }

  /** A conjunct goes to the one level whose key is its only key, and is left for the residual if there is none. */
  lemma LevelOfIs(e: Expr, keys: seq<Col>, l: nat)
    requires forall j, k :: 0 <= j < k < |keys| ==> keys[j] != keys[k]
    ensures l < |keys| ==> (LevelOf(e, keys) == l <==> e.Columns() * KeySet(keys) == {keys[l]})
    ensures LevelOf(e, keys) == |keys| <==> |e.Columns() * KeySet(keys)| != 1
  {
    var used := e.Columns() * KeySet(keys);
    if |used| == 1 {
      var c :| c in used;
      SingletonIs(used, c);
      var k :| 0 <= k < |keys| && keys[k] == c;
    }
  }

  /** A conjunct is never an AND itself: all of them are split. */
  lemma {:induction false} ConjunctsAreFlat(e: Expr)
    ensures forall c | c in Conjuncts(e) :: !c.And?
  {
    if e.And? { ConjunctsOfAreFlat(e.args, |e.args|); }
  }

  lemma {:induction false} ConjunctsOfAreFlat(es: seq<Expr>, n: nat)
    requires n <= |es|
    ensures forall c | c in ConjunctsOf(es, n) :: !c.And?
    decreases es, n
  {
    if n > 0 {
      ConjunctsOfAreFlat(es, n - 1);
      ConjunctsAreFlat(es[n - 1]);
    }
  }

  // ----- Meaning

  function EqTruth(s: Split, keys: seq<Col>, l: nat, row: Row, env: Env): Truth
    requires l in s.eqFilters && l < |keys|
  {
    CompareDatums(Eq, row(keys[l]), TermValue(s.eqFilters[l], row, env))
  }

  /** Both kinds of filter of one level hold. */
  ghost predicate LevelTrue(s: Split, keys: seq<Col>, l: nat, row: Row, env: Env)
    requires l < |keys|
  {
    && (l in s.eqFilters ==> EqTruth(s, keys, l, row, env).True?)
    && (l in s.filters ==> Eval(s.filters[l], row, env).True?)
  }

  ghost predicate LevelFalse(s: Split, keys: seq<Col>, l: nat, row: Row, env: Env)
    requires l < |keys|
  {
    || (l in s.eqFilters && EqTruth(s, keys, l, row, env).False?)
    || (l in s.filters && Eval(s.filters[l], row, env).False?)
  }

  /**
   The partition selector's filters all hold: key = value at the equality levels, the other
   filters, and the residual.
   */
  ghost predicate SplitTrue(s: Split, keys: seq<Col>, row: Row, env: Env) {
    && (forall l: nat | l < |keys| :: LevelTrue(s, keys, l, row, env))
    && (s.residual.Some? ==> Eval(s.residual.value, row, env).True?)
  }

  ghost predicate SplitFalse(s: Split, keys: seq<Col>, row: Row, env: Env) {
    || (exists l: nat | l < |keys| :: LevelFalse(s, keys, l, row, env))
    || (s.residual.Some? && Eval(s.residual.value, row, env).False?)
  }

  ghost predicate LevelAllTrue(es: seq<Expr>, keys: seq<Col>, l: nat, row: Row, env: Env) {
    AllTrue(AtLevel(es, keys, l), row, env)
  }

  ghost predicate LevelSomeFalse(es: seq<Expr>, keys: seq<Col>, l: nat, row: Row, env: Env) {
    SomeFalse(AtLevel(es, keys, l), row, env)
  }

  /** One level of the split means the conjunction of the conjuncts that went there. */
  lemma LevelMeaning(s: Split, es: seq<Expr>, keys: seq<Col>, l: nat, row: Row, env: Env)
    requires IsSplit(s, es, keys) && l < |keys|
    ensures LevelTrue(s, keys, l, row, env) <==> LevelAllTrue(es, keys, l, row, env)
    ensures LevelFalse(s, keys, l, row, env) <==> LevelSomeFalse(es, keys, l, row, env)
  {
    var at := AtLevel(es, keys, l);
    if HasEqFilter(es, keys, l) {
      assert l in s.eqFilters && l !in s.filters;
      EqLevelMeaning(s, at[0], keys, l, row, env);
      assert at == [at[0]];
    } else if |at| > 0 {
      assert l !in s.eqFilters && l in s.filters;
      ConjunctionMeaning(at, row, env);
    }
  }

  lemma EqLevelMeaning(s: Split, e: Expr, keys: seq<Col>, l: nat, row: Row, env: Env)
    requires l < |keys| && l in s.eqFilters && IsEquality(e) && KeyIsPlain(e, keys[l])
    requires s.eqFilters[l] == ExtractComponents(e, keys[l]).0
    ensures EqTruth(s, keys, l, row, env) == Eval(e, row, env)
  {
    ExtractComponentsMeaning(e, keys[l], row, env);
  }

  lemma ConjunctionMeaning(es: seq<Expr>, row: Row, env: Env)
    ensures Eval(MakeConjDisj(es, true), row, env).True? <==> AllTrue(es, row, env)
    ensures Eval(MakeConjDisj(es, true), row, env).False? <==> SomeFalse(es, row, env)
  {
    MakeConjDisjMeaning(es, true, row, env, false);
  }

  /**
   The split keeps the meaning in three-valued logic, for any number of levels and conjuncts:
   the filters and the residual together are TRUE, FALSE or NULL exactly when the predicate is.
   */
  lemma SplitKeepsMeaning(s: Split, e: Expr, keys: seq<Col>, row: Row, env: Env)
    requires IsSplit(s, Conjuncts(e), keys)
    ensures SplitTrue(s, keys, row, env) <==> Eval(e, row, env).True?
    ensures SplitFalse(s, keys, row, env) <==> Eval(e, row, env).False?
  {
    var es := Conjuncts(e);
    ConjunctsMeaning(e, row, env);
    SplitAllTrue(s, es, keys, row, env);
    SplitSomeFalse(s, es, keys, row, env);
  }

  lemma SplitAllTrue(s: Split, es: seq<Expr>, keys: seq<Col>, row: Row, env: Env)
    requires IsSplit(s, es, keys)
    ensures SplitTrue(s, keys, row, env) <==> AllTrue(es, row, env)
  {
    LevelsAllTrue(es, keys, row, env);
    assert LevelAllTrue(es, keys, |keys|, row, env) <==> AllTrue(AtLevel(es, keys, |keys|), row, env);
    forall l: nat | l < |keys| ensures LevelTrue(s, keys, l, row, env) <==> LevelAllTrue(es, keys, l, row, env) {
      LevelMeaning(s, es, keys, l, row, env);
    }
  }

  lemma SplitSomeFalse(s: Split, es: seq<Expr>, keys: seq<Col>, row: Row, env: Env)
    requires IsSplit(s, es, keys)
    ensures SplitFalse(s, keys, row, env) <==> SomeFalse(es, row, env)
  {
    LevelsSomeFalse(es, keys, row, env);
    assert LevelSomeFalse(es, keys, |keys|, row, env) <==> SomeFalse(AtLevel(es, keys, |keys|), row, env);
    forall l: nat | l < |keys| ensures LevelFalse(s, keys, l, row, env) <==> LevelSomeFalse(es, keys, l, row, env) {
      LevelMeaning(s, es, keys, l, row, env);
    }
  }

  /** All conjuncts hold iff those of every level and those of the residual hold. */
  lemma LevelsAllTrue(es: seq<Expr>, keys: seq<Col>, row: Row, env: Env)
    ensures AllTrue(es, row, env) <==> forall l: nat | l <= |keys| :: LevelAllTrue(es, keys, l, row, env)
  {
    forall l: nat ensures AllTrue(es, row, env) ==> LevelAllTrue(es, keys, l, row, env) {
      AtLevelMembers(es, keys, l);
    }
    if forall l: nat | l <= |keys| :: LevelAllTrue(es, keys, l, row, env) {
      forall e | e in es ensures Eval(e, row, env).True? {
        AtLevelMembers(es, keys, LevelOf(e, keys));
        assert LevelAllTrue(es, keys, LevelOf(e, keys), row, env);
      }
    }
  }

  lemma LevelsSomeFalse(es: seq<Expr>, keys: seq<Col>, row: Row, env: Env)
    ensures SomeFalse(es, row, env) <==> exists l: nat | l <= |keys| :: LevelSomeFalse(es, keys, l, row, env)
  {
    forall l: nat ensures LevelSomeFalse(es, keys, l, row, env) ==> SomeFalse(es, row, env) {
      AtLevelMembers(es, keys, l);
    }
    if e :| e in es && Eval(e, row, env).False? {
      AtLevelMembers(es, keys, LevelOf(e, keys));
      assert LevelSomeFalse(es, keys, LevelOf(e, keys), row, env);
    }
  }

  // ----- The loops

  /** The positions of the conjuncts of the levels below `l`. */
  function UsedBelow(es: seq<Expr>, keys: seq<Col>, l: nat): set<nat> {
    set i: nat | i < |es| && LevelOf(es[i], keys) < l
  }

  method PcrsKeys(keys: seq<Col>) returns (pcrs: set<Col>)
    ensures pcrs == KeySet(keys)
  {
    pcrs := {};
    for l := 0 to |keys|
      invariant pcrs == KeySet(keys[..l])
    {
      pcrs := pcrs + {keys[l]};
    }
    assert keys[..|keys|] == keys;
  }

  /**
   The conjuncts whose only key is this level's, skipping positions whose bit is set; sets the
   bits of those found.
   */
  method PdrgpexprPredicatesOnKey(
    es: seq<Expr>, key: Col, pcrsKeys: set<Col>, used: set<nat>, ghost keys: seq<Col>, ghost l: nat)
    returns (found: seq<Expr>, used': set<nat>)
    requires l < |keys| && key == keys[l] && pcrsKeys == KeySet(keys) && used == UsedBelow(es, keys, l)
    ensures found == AtLevel(es, keys, l) && used' == UsedBelow(es, keys, l + 1)
  {
    found, used' := [], used;
    for k := 0 to |es|
      invariant found == AtLevel(es[..k], keys, l)
      invariant used' == used + UsedBelow(es[..k], keys, l + 1)
    {
      UsedBelowNext(es, keys, l, k);
      if k in used' {
        continue;
      }
      if |es[k].Columns() * pcrsKeys| == 1 && key in es[k].Columns() * pcrsKeys {
        SingletonIs(es[k].Columns() * pcrsKeys, key);
        found := found + [es[k]];
        used' := used' + {k};
      }
    }
    assert es[..|es|] == es;
  }

  /** One more conjunct: its position is used if its level is below, and it is found if it is at this level. */
  lemma UsedBelowNext(es: seq<Expr>, keys: seq<Col>, l: nat, k: nat)
    requires k < |es|
    ensures var used := UsedBelow(es, keys, l) + UsedBelow(es[..k], keys, l + 1);
      && (k in used <==> LevelOf(es[k], keys) < l)
      && UsedBelow(es, keys, l) + UsedBelow(es[..k + 1], keys, l + 1)
        == if LevelOf(es[k], keys) == l then used + {k} else used
    ensures AtLevel(es[..k + 1], keys, l)
      == AtLevel(es[..k], keys, l) + if LevelOf(es[k], keys) == l then [es[k]] else []
  {
    assert es[..k + 1][..k] == es[..k];
    assert UsedBelow(es[..k + 1], keys, l + 1)
      == UsedBelow(es[..k], keys, l + 1) + if LevelOf(es[k], keys) <= l then {k} else {};
  }

  lemma SingletonIs(s: set<Col>, c: Col)
    requires |s| == 1 && c in s
    ensures s == {c}
  {
    assert |s - {c}| == 0;
  }

  /** The conjunction of what has no bit set; none if that is TRUE. */
  method PexprResidualFilter(es: seq<Expr>, used: set<nat>, ghost keys: seq<Col>) returns (residual: Option<Expr>)
    requires used == UsedBelow(es, keys, |keys|)
    ensures residual == Residual(AtLevel(es, keys, |keys|))
  {
    var unused: seq<Expr> := [];
    for k := 0 to |es|
      invariant unused == AtLevel(es[..k], keys, |keys|)
    {
      assert es[..k + 1] == es[..k] + [es[k]] && es[..k + 1][..k] == es[..k];
      if k in used {
        continue;
      }
      unused := unused + [es[k]];
    }
    assert es[..|es|] == es;
    var e := BuildConjDisj(unused, true);
    residual := if e == Const(True) then None else Some(e);
  }

  /** Splits the predicate into equality filters, other filters and a residual. */
  method SplitPartPredicates(e: Expr, keys: seq<Col>) returns (s: Split)
    requires KeysArePlain(Conjuncts(e), keys)
    ensures IsSplit(s, Conjuncts(e), keys)
  {
    var es := CollectConjuncts(e, []);
    var used: set<nat> := {};
    var pcrsKeys := PcrsKeys(keys);
    var eqFilters: map<nat, Term>, filters: map<nat, Expr> := map[], map[];
    for l := 0 to |keys|
      invariant es == Conjuncts(e) && used == UsedBelow(es, keys, l)
      invariant Filled(eqFilters, EqFilterAt(es, keys), l) && Filled(filters, FilterAt(es, keys), l)
    {
      FilledNext(eqFilters, EqFilterAt(es, keys), l);
      FilledNext(filters, FilterAt(es, keys), l);
      var found: seq<Expr>;
      found, used := PdrgpexprPredicatesOnKey(es, keys[l], pcrsKeys, used, keys, l);
      if |found| == 0 {
        assert !HasEqFilter(es, keys, l) && !HasFilter(es, keys, l);
        continue;
      }
      if 1 < |found| || !IsEquality(found[0]) {
        assert HasFilter(es, keys, l);
        var filter := BuildConjDisj(found, true);
        filters := filters[l := filter];
        continue;
      }
      assert HasEqFilter(es, keys, l);
      var (other, _) := ExtractComponents(found[0], keys[l]);
      eqFilters := eqFilters[l := other];
    }
    var residual := PexprResidualFilter(es, used, keys);
    s := Split(eqFilters, filters, residual);
  }
}
