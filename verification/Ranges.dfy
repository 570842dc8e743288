/**
 Ranges of values with open, closed or infinite ends (CRange.cpp).

 A range is the datum pair and the two inclusion flags the optimizer keeps.  Its
 meaning is given twice: by the values it holds (`Has`), and by the two `Cut`s at
 which it starts and ends.  Every comparison and builder below is specified in the
 order on cuts, in which `[v` lies just before `v` and `(v` just after it.

 Values are reals, the dense total order without end points into which every
 countable datum order embeds.
 */
module Ranges {
  import opened Options

  datatype Inclusion = Included | Excluded

  function Inverse(inc: Inclusion): Inclusion {
    if inc.Included? then Excluded else Included
  }

  // ----- Cuts

  datatype Cut = NegInf | At(v: real, after: bool) | PosInf

  predicate Lt(c: Cut, d: Cut) {
    match (c, d)
    case (NegInf, NegInf) => false
    case (NegInf, _) => true
    case (_, NegInf) => false
    case (PosInf, _) => false
    case (_, PosInf) => true
    case (At(v, p), At(w, q)) => v < w || (v == w && !p && q)
  }

  predicate Le(c: Cut, d: Cut) {
    c == d || Lt(c, d)
  }

  function MaxCut(c: Cut, d: Cut): Cut {
    if Lt(c, d) then d else c
  }

  function MinCut(c: Cut, d: Cut): Cut {
    if Lt(c, d) then c else d
  }

  /** Does `x` lie between the two cuts? */
  predicate Between(c: Cut, x: real, d: Cut) {
    Le(c, At(x, false)) && Lt(At(x, false), d)
  }

  /** Density: two distinct cuts always have a value between them. */
  lemma SomeBetween(c: Cut, d: Cut) returns (x: real)
    requires Lt(c, d)
    ensures Between(c, x, d)
  {
    match (c, d) {
      case (NegInf, PosInf) => x := 0.0;
      case (NegInf, At(w, q)) => x := w - 1.0;
      case (At(v, p), PosInf) => x := v + 1.0;
      case (At(v, p), At(w, q)) =>
        x := if !p then v else if q && v == w then v else (v + w) / 2.0;
    }
  }

  // ----- Ranges

  datatype Range = Range(left: Option<real>, leftInc: Inclusion, right: Option<real>, rightInc: Inclusion) {

    /** The cut at which the range starts. */
    function Start(): Cut {
      if left.None? then NegInf else At(left.value, leftInc.Excluded?)
    }

    /** The cut at which the range ends. */
    function End(): Cut {
      if right.None? then PosInf else At(right.value, rightInc.Included?)
    }

    /** An infinite end is excluded, and the range is not empty. */
    predicate Valid() {
      && (left.None? ==> leftInc.Excluded?)
      && (right.None? ==> rightInc.Excluded?)
      && Lt(Start(), End())
    }

    /** Is the value inside the range? */
    predicate Has(x: real) {
      && (left.Some? ==> left.value < x || (left.value == x && leftInc.Included?))
      && (right.Some? ==> x < right.value || (right.value == x && rightInc.Included?))
    }

    /** Is this range disjoint from the given one and to its left? */
    predicate DisjointLeft(r: Range)
      ensures Valid() && r.Valid() ==> (DisjointLeft(r) <==> Le(End(), r.Start()))
    {
      if right.None? || r.left.None? then false
      else if right.value < r.left.value then true
      else if right.value == r.left.value then rightInc.Excluded? || r.leftInc.Excluded?
      else false
    }

    /** Does this range start before the given one?  True also when both start at minus infinity. */
    predicate StartsBefore(r: Range)
      ensures Valid() && r.Valid() ==>
                (StartsBefore(r) <==> Lt(Start(), r.Start()) || (Start() == NegInf == r.Start()))
    {
      if r.left.None? then left.None?
      else if left.None? || left.value < r.left.value then true
      else if left.value > r.left.value then false
      else leftInc.Included? && r.leftInc.Excluded?
    }

    predicate StartsWithOrBefore(r: Range)
      ensures Valid() && r.Valid() ==> (StartsWithOrBefore(r) <==> Le(Start(), r.Start()))
    {
      if StartsBefore(r) then true
      else if r.left.None? && left.None? then true
      else if r.left.None? || left.None? then false
      else left.value == r.left.value && leftInc == r.leftInc
    }

    /** Does this range end after the given one?  True also when both end at infinity. */
    predicate EndsAfter(r: Range)
      ensures Valid() && r.Valid() ==>
                (EndsAfter(r) <==> Lt(r.End(), End()) || (End() == PosInf == r.End()))
      ensures Valid() && r.Valid() ==> if EndsAfter(r) then Le(r.End(), End()) else Le(End(), r.End())
    {
      if r.right.None? then right.None?
      else if right.None? || right.value > r.right.value then true
      else if right.value < r.right.value then false
      else rightInc.Included? && r.rightInc.Excluded?
    }

    predicate EndsWithOrAfter(r: Range)
      ensures Valid() && r.Valid() ==> (EndsWithOrAfter(r) <==> Le(r.End(), End()))
    {
      if EndsAfter(r) then true
      else if r.right.None? && right.None? then true
      else if r.right.None? || right.None? then false
      else right.value == r.right.value && rightInc == r.rightInc
    }

    predicate Contains(r: Range)
      ensures Valid() && r.Valid() ==> (Contains(r) <==> Le(Start(), r.Start()) && Le(r.End(), End()))
    {
      StartsWithOrBefore(r) && EndsWithOrAfter(r)
    }

    predicate OverlapsLeft(r: Range) {
      StartsBefore(r) && !EndsAfter(r) && !DisjointLeft(r)
    }

    predicate OverlapsRight(r: Range) {
      EndsAfter(r) && !StartsBefore(r) && !r.DisjointLeft(this)
    }

    /** Are this upper bound and the given lower bound the same datum?  Two missing bounds count as the same. */
    predicate UpperBoundEqualsLowerBound(r: Range) {
      if r.left.None? && right.None? then true
      else if r.left.None? || right.None? then false
      else right.value == r.left.value
    }

    predicate IsPoint() {
      leftInc.Included? && rightInc.Included? && right == left
    }

    predicate IsUnbounded() {
      left.None? && right.None?
    }

    /** The common part, or nothing when the ranges share no cut interval. */
    function Intersect(r: Range): (res: Option<Range>)
      ensures Valid() && r.Valid() ==>
                && (res.None? <==> Le(End(), r.Start()) || Le(r.End(), Start()))
                && (res.Some? ==>
                      && res.value.Valid()
                      && res.value.Start() == MaxCut(Start(), r.Start())
                      && res.value.End() == MinCut(End(), r.End()))
    {
      if Contains(r) then Some(r)
      else if r.Contains(this) then Some(this)
      else if OverlapsLeft(r) then Some(Range(r.left, r.leftInc, right, rightInc))
      else if OverlapsRight(r) then Some(Range(left, leftInc, r.right, r.rightInc))
      else None
    }

    /** What this range has to the left of where the given one starts. */
    function DifferenceLeft(r: Range): (res: Option<Range>)
      ensures Valid() && r.Valid() ==>
                && (res.Some? <==> Lt(Start(), r.Start()))
                && (res.Some? ==>
                      && res.value.Valid()
                      && res.value.Start() == Start()
                      && res.value.End() == MinCut(End(), r.Start()))
    {
      if DisjointLeft(r) then Some(this)
      else if StartsBefore(r) && r.left.Some? then Some(Range(left, leftInc, r.left, Inverse(r.leftInc)))
      else None
    }

    /** What this range has to the right of where the given one ends. */
    function DifferenceRight(r: Range): (res: Option<Range>)
      ensures Valid() && r.Valid() ==>
                && (res.Some? <==> Lt(r.End(), End()))
                && (res.Some? ==>
                      && res.value.Valid()
                      && res.value.Start() == MaxCut(Start(), r.End())
                      && res.value.End() == End())
    {
      if r.DisjointLeft(this) then Some(this)
      else if EndsAfter(r) && r.right.Some? then Some(Range(r.right, Inverse(r.rightInc), right, rightInc))
      else None
    }

    /** This range glued to the given one, provided that one starts exactly where this one ends. */
    function Extend(r: Range): (res: Option<Range>)
      ensures Valid() && r.Valid() ==>
                && (res.Some? <==> End() == r.Start())
                && (res.Some? ==>
                      && res.value.Valid()
                      && res.value.Start() == Start()
                      && res.value.End() == r.End())
    {
      if DisjointLeft(r) && r.left.value == right.value && (r.leftInc.Included? || rightInc.Included?)
      then Some(Range(left, leftInc, r.right, r.rightInc))
      else None
    }
  }

  /** Holding a value is lying between the two cuts. */
  lemma HasBetween(r: Range, x: real)
    requires r.Valid()
    ensures r.Has(x) <==> Between(r.Start(), x, r.End())
  {
  }

  /** A valid range is determined by its cuts. */
  lemma CutsDetermineRange(r: Range, s: Range)
    requires r.Valid() && s.Valid()
    requires r.Start() == s.Start() && r.End() == s.End()
    ensures r == s
  {
  }

  /**
   The overlap branches of `Intersect` read a datum on each side without a NULL
   check; they are reached only when those datums are present.
   */
  lemma OverlapBoundsAreFinite(r: Range, s: Range)
    requires r.Valid() && s.Valid()
    requires !r.Contains(s) && !s.Contains(r)
    ensures r.OverlapsLeft(s) ==> s.left.Some? && r.right.Some?
    ensures r.OverlapsRight(s) ==> r.left.Some? && s.right.Some?
    ensures r.OverlapsLeft(s) || r.OverlapsRight(s) <==> exists x :: r.Has(x) && s.Has(x)
  {
    if r.OverlapsLeft(s) || r.OverlapsRight(s) {
      var x := SomeBetween(MaxCut(r.Start(), s.Start()), MinCut(r.End(), s.End()));
      assert r.Has(x) && s.Has(x);
    }
  }

  /** The range of all values. */
  const EVERYTHING := Range(None, Excluded, None, Excluded)

  /** The range of just one value. */
  function PointRange(v: real): Range { Range(Some(v), Included, Some(v), Included) }
}
