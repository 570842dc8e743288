/**
 Scalar expressions, their SQL meaning in three-valued logic, and the constructor of
 conjunctions and disjunctions (CPredicateUtils.cpp).
 */
module Scalars {
  import opened Options
  import opened Intervals

  datatype Truth = True | False | Unknown

  datatype CmpType = Eq | NEq | Less | LessEq | Greater | GreaterEq | IsDistinct

  datatype Quantifier = AnyOf | AllOf

  /** A value expression; a `Cast` is one that keeps the value. */
  datatype Term =
    | Ident(col: Col)
    | Literal(value: Datum)
    | Cast(arg: Term)
    | Call(id: nat, cols: set<Col>)
  {
    function Columns(): set<Col> {
      match this
      case Ident(c) => {c}
      case Literal(_) => {}
      case Cast(t) => t.Columns()
      case Call(_, cs) => cs
    }
  }

  /**
   `Cmp` compares a column with a constant that is not NULL; the interval code recognises
   neither the other comparisons, `TermCmp`, nor any other expression, `Opaque`.  IS DISTINCT
   FROM is an operator of its own, which the interval code does not recognise either.
   */
  datatype Expr =
    | Const(value: Truth)
    | Cmp(col: Col, op: CmpType, const_: real)
    | TermCmp(left: Term, op: CmpType, right: Term)
    | IsNull(col: Col)
    | ArrayCmp(col: Col, quantifier: Quantifier, op: CmpType, consts: seq<Datum>)
    | And(args: seq<Expr>)
    | Or(args: seq<Expr>)
    | Not(arg: Expr)
    | Opaque(id: nat, cols: set<Col>)
  {
    function Columns(): set<Col> {
      match this
      case Const(_) => {}
      case Cmp(c, _, _) => {c}
      case TermCmp(l, _, r) => l.Columns() + r.Columns()
      case IsNull(c) => {c}
      case ArrayCmp(c, _, _, _) => {c}
      case And(es) => set e, c | e in es && c in e.Columns() :: c
      case Or(es) => set e, c | e in es && c in e.Columns() :: c
      case Not(e) => e.Columns()
      case Opaque(_, cs) => cs
    }

    /**
     AND and OR have children, an array has a constant that is not NULL, and a comparison of
     a column with a constant is a `Cmp`.
     */
    ghost predicate WellFormed() {
      match this
      case TermCmp(Ident(_), op, Literal(d)) => op.IsDistinct? && d.Null?
      case And(es) => |es| > 0 && forall e | e in es :: e.WellFormed()
      case Or(es) => |es| > 0 && forall e | e in es :: e.WellFormed()
      case Not(e) => e.WellFormed()
      case ArrayCmp(_, _, op, consts) => !op.IsDistinct? && (|consts| > 0 ==> exists v :: Val(v) in consts)
      case _ => true
    }
  }

  /** A row gives every column a datum. */
  type Row = Col -> Datum

  /** The values, at the row considered, of the expressions that are not looked into. */
  datatype Env = Env(truth: nat -> Truth, call: nat -> Datum)

  // ----- SQL semantics

  predicate Compare(op: CmpType, x: real, y: real) {
    match op
    case Eq => x == y
    case NEq => x != y
    case Less => x < y
    case LessEq => x <= y
    case Greater => x > y
    case GreaterEq => x >= y
    case IsDistinct => x != y
  }

  function FromBool(b: bool): Truth { if b then True else False }

  function CompareDatums(op: CmpType, d: Datum, e: Datum): Truth {
    if op.IsDistinct? then FromBool(d != e)
    else if d.Null? || e.Null? then Unknown
    else FromBool(Compare(op, d.v, e.v))
  }

  function Negate(t: Truth): Truth {
    match t
    case True => False
    case False => True
    case Unknown => Unknown
  }

  function TermValue(t: Term, row: Row, env: Env): Datum {
    match t
    case Ident(c) => row(c)
    case Literal(d) => d
    case Cast(a) => TermValue(a, row, env)
    case Call(id, _) => env.call(id)
  }

  ghost function Eval(e: Expr, row: Row, env: Env): Truth {
    match e
    case Const(t) => t
    case Cmp(c, op, v) => CompareDatums(op, row(c), Val(v))
    case TermCmp(l, op, r) => CompareDatums(op, TermValue(l, row, env), TermValue(r, row, env))
    case IsNull(c) => FromBool(row(c).Null?)
    case ArrayCmp(c, AnyOf, op, consts) =>
      if exists d | d in consts :: CompareDatums(op, row(c), d).True? then True
      else if forall d | d in consts :: CompareDatums(op, row(c), d).False? then False
      else Unknown
    case ArrayCmp(c, AllOf, op, consts) =>
      if exists d | d in consts :: CompareDatums(op, row(c), d).False? then False
      else if forall d | d in consts :: CompareDatums(op, row(c), d).True? then True
      else Unknown
    case And(es) =>
      if exists a | a in es :: Eval(a, row, env).False? then False
      else if forall a | a in es :: Eval(a, row, env).True? then True
      else Unknown
    case Or(es) =>
      if exists a | a in es :: Eval(a, row, env).True? then True
      else if forall a | a in es :: Eval(a, row, env).False? then False
      else Unknown
    case Not(a) => Negate(Eval(a, row, env))
    case Opaque(id, _) => env.truth(id)
  }

  // ----- The optimizer's reading

  /**
   Does the interval code recognise the expression?  An AND is recognised when one of
   its children is; `arrays` is the trace flag that turns array comparisons on.
   */
  predicate Converts(e: Expr, arrays: bool) {
    match e
    case Const(_) => true
    case Cmp(_, op, _) => !op.IsDistinct?
    case IsNull(_) => true
    case ArrayCmp(_, _, op, consts) => arrays && |consts| > 0 && (op.Eq? || op.NEq?)
    case And(es) => exists a | a in es :: Converts(a, arrays)
    case Or(es) => forall a | a in es :: Converts(a, arrays)
    case Not(a) => Converts(a, arrays)
    case TermCmp(_, _, _) => false
    case Opaque(_, _) => false
  }

  /**
   What the interval code takes the expression to mean: two-valued, a comparison with
   NULL failing, unrecognised children of an AND dropped, and an array comparison
   read as (not) being one of the listed datums, NULL included, whatever its quantifier.
   */
  ghost predicate Reads(e: Expr, row: Row, arrays: bool) {
    match e
    case Const(t) => t.True?
    case Cmp(c, op, v) => op.IsDistinct? || (row(c).Val? && Compare(op, row(c).v, v))
    case IsNull(c) => row(c).Null?
    case ArrayCmp(c, _, op, consts) =>
      if row(c).Null? then Null in consts
      else if op.Eq? then row(c) in consts
      else row(c) !in consts
    case And(es) => forall a | a in es :: Converts(a, arrays) ==> Reads(a, row, arrays)
    case Or(es) => exists a | a in es :: Reads(a, row, arrays)
    case Not(a) => !Reads(a, row, arrays)
    case TermCmp(_, _, _) => true
    case Opaque(_, _) => true
  }

  // ----- Conjunctions and disjunctions

  /** TRUE says nothing in a conjunction, FALSE nothing in a disjunction. */
  predicate Skippable(e: Expr, conj: bool) {
    e == Const(if conj then True else False)
  }

  /** FALSE decides a conjunction, TRUE a disjunction. */
  predicate Reducible(e: Expr, conj: bool) {
    e == Const(if conj then False else True)
  }

  function BoolOp(conj: bool, es: seq<Expr>): Expr {
    if conj then And(es) else Or(es)
  }

  function Unskipped(es: seq<Expr>, conj: bool): (final: seq<Expr>)
    ensures forall e :: e in final <==> e in es && !Skippable(e, conj)
  {
    if |es| == 0 then []
    else
      var rest := Unskipped(es[..|es| - 1], conj);
      assert es == es[..|es| - 1] + [es[|es| - 1]];
      if Skippable(es[|es| - 1], conj) then rest else rest + [es[|es| - 1]]
  }

  function MakeConjDisj(es: seq<Expr>, conj: bool): Expr {
    if exists e | e in es :: Reducible(e, conj) then Const(FromBool(!conj))
    else
      var final := Unskipped(es, conj);
      if |final| == 0 then Const(FromBool(conj))
      else if |final| == 1 then final[0]
      else BoolOp(conj, final)
  }

  /** The simplification keeps both meanings; AND of nothing is TRUE, OR of nothing FALSE. */
  lemma MakeConjDisjMeaning(es: seq<Expr>, conj: bool, row: Row, env: Env, arrays: bool)
    ensures var e := MakeConjDisj(es, conj);
            && Eval(e, row, env) == Eval(BoolOp(conj, es), row, env)
            && ((forall a | a in es :: Converts(a, arrays)) ==>
                  (Reads(e, row, arrays) <==> Reads(BoolOp(conj, es), row, arrays)))
  {
    var final := Unskipped(es, conj);
    var e := MakeConjDisj(es, conj);
    if r :| r in es && Reducible(r, conj) {
      assert Eval(r, row, env) == FromBool(!conj);
      assert Reads(r, row, arrays) <==> !conj;
      assert Converts(r, arrays);
    } else if |final| == 0 {
      assert forall a | a in es :: Skippable(a, conj);
    } else if |final| == 1 {
      assert final[0] in final;
      assert forall a | a in es :: a == final[0] || Skippable(a, conj);
    } else {
      assert forall a | a in es :: a in final || Skippable(a, conj);
    }
  }

  lemma MakeConjDisjShape(es: seq<Expr>, conj: bool, arrays: bool)
    requires forall e | e in es :: e.WellFormed() && Converts(e, arrays)
    ensures var e := MakeConjDisj(es, conj);
            e.WellFormed() && Converts(e, arrays) && e.Columns() <= BoolOp(conj, es).Columns()
  {
    var final := Unskipped(es, conj);
    if |final| > 0 { assert final[0] in final; }
  }

  /** One child that decides the result makes it a constant. */
  lemma MakeConjDisjDecided(es: seq<Expr>, conj: bool)
    requires Const(FromBool(!conj)) in es
    ensures MakeConjDisj(es, conj) == Const(FromBool(!conj))
  {
    assert Reducible(Const(FromBool(!conj)), conj);
  }

  /** A child that says nothing leaves no trace, wherever it stands. */
  lemma MakeConjDisjSkips(front: seq<Expr>, back: seq<Expr>, conj: bool)
    ensures MakeConjDisj(front + [Const(FromBool(conj))] + back, conj) == MakeConjDisj(front + back, conj)
  {
    var c := Const(FromBool(conj));
    var es := front + [c] + back;
    assert forall e :: e in es <==> e in front + back || e == c;
    UnskippedSplit(front + [c], back, conj);
    UnskippedSplit(front, back, conj);
    assert (front + [c])[..|front|] == front;
  }

  lemma {:induction false} UnskippedSplit(front: seq<Expr>, back: seq<Expr>, conj: bool)
    ensures Unskipped(front + back, conj) == Unskipped(front, conj) + Unskipped(back, conj)
  {
    if back == [] {
      assert front + back == front;
    } else {
      var rest, e := back[..|back| - 1], back[|back| - 1];
      assert front + back == front + rest + [e] && back == rest + [e];
      UnskippedSplit(front, rest, conj);
      UnskippedMore(front, rest, e, conj);
    }
  }

  lemma UnskippedMore(front: seq<Expr>, rest: seq<Expr>, e: Expr, conj: bool)
    requires Unskipped(front + rest, conj) == Unskipped(front, conj) + Unskipped(rest, conj)
    ensures Unskipped(front + rest + [e], conj) == Unskipped(front, conj) + Unskipped(rest + [e], conj)
  {
    UnskippedLast(front + rest, e, conj);
    UnskippedLast(rest, e, conj);
    AppendAssociates(Unskipped(front, conj), Unskipped(rest, conj), if Skippable(e, conj) then [] else [e]);
  }

  lemma UnskippedLast(es: seq<Expr>, e: Expr, conj: bool)
    ensures Unskipped(es + [e], conj) == Unskipped(es, conj) + if Skippable(e, conj) then [] else [e]
  {
    assert (es + [e])[..|es|] == es;
  }

  /** Any other children are all kept, in order; a single one stands for itself. */
  lemma MakeConjDisjKeeps(es: seq<Expr>, conj: bool)
    requires forall e | e in es :: e != Const(True) && e != Const(False)
    ensures MakeConjDisj(es, conj) ==
      if |es| == 0 then Const(FromBool(conj)) else if |es| == 1 then es[0] else BoolOp(conj, es)
  {
    NothingSkipped(es, conj);
  }

  lemma {:induction false} NothingSkipped(es: seq<Expr>, conj: bool)
    requires forall e | e in es :: !Skippable(e, conj)
    ensures Unskipped(es, conj) == es
  {
    if es != [] {
      var front, last := es[..|es| - 1], es[|es| - 1];
      assert es == front + [last];
      NothingSkipped(front, conj);
    }
  }

  /** The constructor as the loop it is: it returns at the first child that decides the result. */
  method BuildConjDisj(es: seq<Expr>, conj: bool) returns (e: Expr)
    ensures e == MakeConjDisj(es, conj)
  {
    var final: seq<Expr> := [];
    for k := 0 to |es|
      invariant final == Unskipped(es[..k], conj)
      invariant forall a | a in es[..k] :: !Reducible(a, conj)
    {
      assert es[..k + 1][..k] == es[..k];
      assert es[k] in es;
      if Skippable(es[k], conj) {
        assert es[..k + 1] == es[..k] + [es[k]];
        continue;
      }
      if Reducible(es[k], conj) {
        return Const(FromBool(!conj));
      }
      assert es[..k + 1] == es[..k] + [es[k]];
      final := final + [es[k]];
    }
    assert es[..|es|] == es;
    if |final| > 0 {
      if |final| == 1 {
        return final[0];
      }
      return BoolOp(conj, final);
    }
    return Const(FromBool(conj));
  }
}
