/**
 The merge loops of CConstraintInterval.cpp in their own form: two positions, a
 result array that is appended to or replaced at its end, and, for the difference,
 the residual carried from one turn to the next.
 */
module IntervalLoops {
  import opened Options
  import opened Ranges
  import opened Intervals

  /** A growing array of ranges. */
  class RangeArray {
    var items: seq<Range>

    constructor ()
      ensures items == []
    {
      items := [];
    }

    method Append(r: Range)
      modifies this
      ensures items == old(items) + [r]
    {
      items := items + [r];
    }

    method Replace(k: nat, r: Range)
      requires k < |items|
      modifies this
      ensures items == old(items)[k := r]
    {
      items := items[k := r];
    }

    /** Append the range or extend the last one; a NULL range changes nothing. */
    method AppendOrExtend(r: Option<Range>)
      modifies this
      ensures items == Intervals.AppendOrExtend(old(items), r)
    {
      if r.None? {
        return;
      }
      var len := |items|;
      if len == 0 {
        Append(r.value);
        return;
      }
      var extended := items[len - 1].Extend(r.value);
      if extended.None? {
        Append(r.value);
      } else {
        Replace(len - 1, extended.value);
      }
    }

    /** Append the ranges of `src` from position `start` on. */
    method AddRemainingRanges(src: seq<Range>, start: nat)
      modifies this
      ensures items == AddRemaining(src, start, old(items))
    {
      var k := start;
      while k < |src|
        invariant AddRemaining(src, k, items) == AddRemaining(src, start, old(items))
        decreases |src| - k
      {
        AppendOrExtend(Some(src[k]));
        k := k + 1;
      }
    }
  }

  method PciUnion(p: Interval, q: Interval) returns (res: Interval)
    requires p.Valid() && q.Valid()
    ensures res == Union(p, q)
    ensures res.Normal() && |res.ranges| <= |p.ranges| + |q.ranges|
    ensures forall d :: res.Has(d) <==> p.Has(d) || q.Has(d)
  {
    var result := new RangeArray();
    var fst, snd := 0, 0;
    while fst < |p.ranges| && snd < |q.ranges|
      invariant fst <= |p.ranges| && snd <= |q.ranges|
      invariant UnionFrom(p.ranges, q.ranges, Merge(fst, snd, result.items)) ==
        UnionFrom(p.ranges, q.ranges, Merge(0, 0, []))
      decreases |p.ranges| - fst + |q.ranges| - snd
    {
      var this_, other := p.ranges[fst], q.ranges[snd];
      var piece;
      if other.EndsAfter(this_) {
        piece := this_.DifferenceLeft(other);
        fst := fst + 1;
      } else {
        piece := other.DifferenceLeft(this_);
        snd := snd + 1;
      }
      result.AppendOrExtend(piece);
    }
    result.AddRemainingRanges(p.ranges, fst);
    result.AddRemainingRanges(q.ranges, snd);
    res := Interval(p.col, result.items, p.includesNull || q.includesNull);
    UnionCorrect(p, q);
  }

  method PciIntersect(p: Interval, q: Interval) returns (res: Interval)
    requires p.Valid() && q.Valid()
    ensures res == Intersect(p, q)
    ensures res.Valid() && (p.Normal() && q.Normal() ==> res.Normal())
    ensures forall d :: res.Has(d) <==> p.Has(d) && q.Has(d)
  {
    var result := new RangeArray();
    var fst, snd := 0, 0;
    while fst < |p.ranges| && snd < |q.ranges|
      invariant fst <= |p.ranges| && snd <= |q.ranges|
      invariant IntersectFrom(p.ranges, q.ranges, Merge(fst, snd, result.items)) ==
        IntersectFrom(p.ranges, q.ranges, Merge(0, 0, []))
      decreases |p.ranges| - fst + |q.ranges| - snd
    {
      var this_, other := p.ranges[fst], q.ranges[snd];
      var piece;
      if other.EndsAfter(this_) {
        piece := this_.Intersect(other);
        fst := fst + 1;
      } else {
        piece := other.Intersect(this_);
        snd := snd + 1;
      }
      if piece.Some? {
        result.Append(piece.value);
      }
    }
    res := Interval(p.col, result.items, p.includesNull && q.includesNull);
    IntersectCorrect(p, q);
  }

  /**
   Difference on the left side only; any difference on the right side is the residual.  Where the
   other range ends first, the piece runs up to its start and the residual begins at its end, so
   together they have exactly the values of the difference.
   */
  method PrangeDiffWithRightResidual(r: Range, s: Range) returns (piece: Option<Range>, residual: Option<Range>)
    ensures (piece, residual) == DiffWithRightResidual(r, s)
    ensures r.Valid() && s.Valid() && Lt(s.End(), r.End()) ==>
      && (piece.Some? <==> Lt(r.Start(), s.Start()))
      && (piece.Some? ==> piece.value.Start() == r.Start() && piece.value.End() == s.Start())
      && (residual.Some? <==> Lt(r.Start(), s.End()))
      && (residual.Some? ==> residual.value.Start() == s.End() && residual.value.End() == r.End())
    ensures r.Valid() && s.Valid() && Lt(s.End(), r.End()) && Lt(r.Start(), s.End()) ==>
      forall x: real ::
        r.Has(x) && !s.Has(x) <==> (piece.Some? && piece.value.Has(x)) || (residual.Some? && residual.value.Has(x))
  {
    piece, residual := None, None;
    if s.DisjointLeft(r) {
      return;
    }
    if r.Contains(s) {
      piece := r.DifferenceLeft(s);
    }
    residual := r.DifferenceRight(s);
  }

  method PciDifference(p: Interval, q: Interval) returns (res: Interval)
    requires p.Valid() && q.Valid()
    ensures res == Difference(p, q)
    ensures res.Normal() && |res.ranges| <= |p.ranges| + |q.ranges|
    ensures forall d :: res.Has(d) <==> p.Has(d) && !q.Has(d)
  {
    var a, b := p.ranges, q.ranges;
    var result := new RangeArray();
    var fst, snd := 0, 0;
    var residual: Option<Range> := None;
    ghost var whole := DifferenceFrom(a, b, DiffMerge(0, 0, None, []));
    while fst < |a| && snd < |b|
      invariant fst <= |a| && snd <= |b|
      invariant DifferenceFrom(a, b, DiffMerge(fst, snd, residual, result.items)) == whole
      decreases |a| - fst + |b| - snd
    {
      ghost var before := DiffMerge(fst, snd, residual, result.items);
      var this_ := if residual.None? then a[fst] else residual.value;
      var other := b[snd];
      var piece;
      if other.EndsWithOrAfter(this_) {
        residual := None;
        piece := this_.DifferenceLeft(other);
        fst := fst + 1;
      } else {
        piece, residual := PrangeDiffWithRightResidual(this_, other);
        snd := snd + 1;
      }
      result.AppendOrExtend(piece);
      assert DiffMerge(fst, snd, residual, result.items) == DifferenceTurn(a, b, before);
    }
    if residual.Some? {
      fst := fst + 1;
    }
    result.AppendOrExtend(residual);
    result.AddRemainingRanges(a, fst);
    res := Interval(p.col, result.items, p.includesNull && !q.includesNull);
    DifferenceCorrect(p, q);
  }

  method PciComplement(p: Interval) returns (res: Interval)
    requires p.Valid()
    ensures res == Complement(p) && res.Normal()
    ensures forall d :: res.Has(d) <==> !p.Has(d)
  {
    UnboundedCorrect(p.col, true);
    res := PciDifference(Unbounded(p.col, true), p);
  }

  method FContainsInterval(p: Interval, q: Interval) returns (contains: bool)
    requires p.Valid() && q.Valid()
    ensures contains == ContainsInterval(p, q)
    ensures contains ==> forall d :: q.Has(d) ==> p.Has(d)
    ensures p.Normal() && (forall d :: q.Has(d) ==> p.Has(d)) ==> contains
  {
    if ContainsInterval(p, q) { ContainsIntervalSound(p, q); }
    if p.Normal() { ContainsIntervalExact(p, q); }
    if p.IsUnbounded() {
      return true;
    }
    if q.IsUnbounded() || (!p.includesNull && q.includesNull) {
      return false;
    }
    var difference := PciDifference(q, p);
    contains := difference.IsContradiction();
  }
}
