/**
 The interval algebra on one column (CConstraintInterval.cpp): what the merges of
 two range arrays compute, and what those results mean.

 Each `...From` function is the state of a merge loop, read from that point on:
 `i` and `j` are the two array positions and `acc` is the array built so far.  The
 loops themselves are in IntervalLoops.dfy and are proved to compute these functions.
 */
module Intervals {
  import opened Options
  import opened Ranges

  type Col = nat

  datatype Datum = Null | Val(v: real)

  datatype Interval = Interval(col: Col, ranges: seq<Range>, includesNull: bool) {

    /** No value at all satisfies the constraint. */
    predicate IsContradiction() {
      !includesNull && |ranges| == 0
    }

    predicate IsUnbounded() {
      includesNull && |ranges| == 1 && ranges[0].IsUnbounded()
    }

    ghost predicate Has(d: Datum) {
      match d
      case Null => includesNull
      case Val(x) => HasFrom(ranges, 0, x)
    }

    ghost predicate Valid() { Sorted(ranges) }

    ghost predicate Normal() { Apart(ranges) }
  }

  // ----- Arrays of ranges

  /** Some range at position `i` or later holds `x`. */
  ghost predicate HasFrom(a: seq<Range>, i: nat, x: real) {
    exists k :: i <= k < |a| && a[k].Has(x)
  }

  ghost predicate AllValid(a: seq<Range>) {
    forall k :: 0 <= k < |a| ==> a[k].Valid()
  }

  /** Valid ranges in ascending order, pairwise disjoint. */
  ghost predicate Sorted(a: seq<Range>) {
    && AllValid(a)
    && forall k, l {:trigger a[k].End(), a[l].Start()} :: 0 <= k < l < |a| ==> Le(a[k].End(), a[l].Start())
  }

  /** The normal form: sorted, and no two ranges touch. */
  ghost predicate Apart(a: seq<Range>) {
    && AllValid(a)
    && forall k, l {:trigger a[k].End(), a[l].Start()} :: 0 <= k < l < |a| ==> Lt(a[k].End(), a[l].Start())
  }

  /** Every range of `acc` ends at or before the cut. */
  ghost predicate EndsBy(acc: seq<Range>, c: Cut) {
    forall k :: 0 <= k < |acc| ==> Le(acc[k].End(), c)
  }

  /** Every range of `acc` ends strictly before the cut. */
  ghost predicate EndsBefore(acc: seq<Range>, c: Cut) {
    forall k :: 0 <= k < |acc| ==> Lt(acc[k].End(), c)
  }

  /** Where the array starts from position `i` on; nothing left starts at infinity. */
  function StartAt(a: seq<Range>, i: nat): Cut {
    if i < |a| then a[i].Start() else PosInf
  }

  lemma HasFromHead(a: seq<Range>, i: nat, x: real)
    requires i < |a|
    ensures HasFrom(a, i, x) <==> a[i].Has(x) || HasFrom(a, i + 1, x)
  {
  }

  // ----- Appending

  /** Append a range, or glue it to the last one when the two touch. */
  function AppendOrExtend(acc: seq<Range>, r: Option<Range>): seq<Range> {
    if r.None? then acc
    else if |acc| == 0 then acc + [r.value]
    else
      var extended := acc[|acc| - 1].Extend(r.value);
      if extended.None? then acc + [r.value]
      else acc[|acc| - 1 := extended.value]
  }

  function AddRemaining(a: seq<Range>, i: nat, acc: seq<Range>): seq<Range>
    decreases |a| - i
  {
    if i >= |a| then acc
    else AddRemaining(a, i + 1, AppendOrExtend(acc, Some(a[i])))
  }

  lemma AppendKeepsApart(acc: seq<Range>, r: Option<Range>, x: real)
    requires Apart(acc)
    requires r.Some? ==> r.value.Valid() && EndsBy(acc, r.value.Start())
    ensures Apart(AppendOrExtend(acc, r))
    ensures |AppendOrExtend(acc, r)| <= |acc| + 1
    ensures r.Some? ==> EndsBy(AppendOrExtend(acc, r), r.value.End())
    ensures HasFrom(AppendOrExtend(acc, r), 0, x) <==> HasFrom(acc, 0, x) || (r.Some? && r.value.Has(x))
  {
    if r.Some? {
      var res := AppendOrExtend(acc, r);
      var n := |acc| - 1;
      if |res| == |acc| {
        HasBetween(res[n], x);
        HasBetween(acc[n], x);
        HasBetween(r.value, x);
        assert res[n].Has(x) <==> acc[n].Has(x) || r.value.Has(x);
        assert forall k :: 0 <= k < n ==> res[k] == acc[k];
      } else {
        assert res == acc + [r.value];
        assert forall k :: 0 <= k <= n ==> res[k] == acc[k];
        assert res[n + 1] == r.value;
      }
    }
  }

  lemma AddRemainingCorrect(a: seq<Range>, i: nat, acc: seq<Range>, x: real)
    requires Sorted(a) && Apart(acc) && i <= |a|
    requires i < |a| ==> EndsBy(acc, a[i].Start())
    ensures Apart(AddRemaining(a, i, acc))
    ensures |AddRemaining(a, i, acc)| <= |acc| + |a| - i
    ensures HasFrom(AddRemaining(a, i, acc), 0, x) <==> HasFrom(acc, 0, x) || HasFrom(a, i, x)
    decreases |a| - i
  {
    if i < |a| {
      AppendKeepsApart(acc, Some(a[i]), x);
      AddRemainingCorrect(a, i + 1, AppendOrExtend(acc, Some(a[i])), x);
    }
  }

  // ----- Union

  /** The state of a merge loop: the two array positions and the array built so far. */
  datatype Merge = Merge(i: nat, j: nat, acc: seq<Range>) {
    predicate InRange(a: seq<Range>, b: seq<Range>) {
      i <= |a| && j <= |b|
    }

    predicate Running(a: seq<Range>, b: seq<Range>) {
      i < |a| && j < |b|
    }

    /** How many turns the loop can still take. */
    function Left(a: seq<Range>, b: seq<Range>): nat
      requires InRange(a, b)
    {
      |a| - i + |b| - j
    }
  }

  function UnionTurn(a: seq<Range>, b: seq<Range>, m: Merge): (next: Merge)
    requires m.Running(a, b)
    ensures next.InRange(a, b) && next.Left(a, b) == m.Left(a, b) - 1
  {
    if b[m.j].EndsAfter(a[m.i])
    then Merge(m.i + 1, m.j, AppendOrExtend(m.acc, a[m.i].DifferenceLeft(b[m.j])))
    else Merge(m.i, m.j + 1, AppendOrExtend(m.acc, b[m.j].DifferenceLeft(a[m.i])))
  }

  function UnionFrom(a: seq<Range>, b: seq<Range>, m: Merge): seq<Range>
    requires m.InRange(a, b)
    decreases m.Left(a, b)
  {
    if m.Running(a, b) then UnionFrom(a, b, UnionTurn(a, b, m))
    else AddRemaining(b, m.j, AddRemaining(a, m.i, m.acc))
  }

  /** Everything emitted is in normal form and lies left of both current ranges. */
  ghost predicate UnionInv(a: seq<Range>, b: seq<Range>, m: Merge) {
    && Sorted(a) && Sorted(b) && m.InRange(a, b) && Apart(m.acc)
    && EndsBy(m.acc, StartAt(a, m.i)) && EndsBy(m.acc, StartAt(b, m.j))
  }

  /** What was emitted and what remains, together. */
  ghost predicate UnionHas(a: seq<Range>, b: seq<Range>, m: Merge, x: real) {
    HasFrom(m.acc, 0, x) || HasFrom(a, m.i, x) || HasFrom(b, m.j, x)
  }

  lemma UnionTurnCorrect(a: seq<Range>, b: seq<Range>, m: Merge, x: real)
    requires UnionInv(a, b, m) && m.Running(a, b)
    ensures UnionInv(a, b, UnionTurn(a, b, m))
    ensures |UnionTurn(a, b, m).acc| <= |m.acc| + 1
    ensures UnionHas(a, b, UnionTurn(a, b, m), x) <==> UnionHas(a, b, m, x)
  {
    if b[m.j].EndsAfter(a[m.i]) {
      UnionDropsFirst(a, b, m, x);
    } else {
      UnionDropsSecond(a, b, m, x);
    }
  }

  lemma UnionDropsFirst(a: seq<Range>, b: seq<Range>, m: Merge, x: real)
    requires UnionInv(a, b, m) && m.Running(a, b) && b[m.j].EndsAfter(a[m.i])
    ensures var next := UnionTurn(a, b, m);
      UnionInv(a, b, next) && |next.acc| <= |m.acc| + 1 && (UnionHas(a, b, next, x) <==> UnionHas(a, b, m, x))
  {
    HasFromHead(a, m.i, x);
    HasFromHead(b, m.j, x);
    UnionStep(m.acc, a[m.i], b[m.j], x);
  }

  lemma UnionDropsSecond(a: seq<Range>, b: seq<Range>, m: Merge, x: real)
    requires UnionInv(a, b, m) && m.Running(a, b) && !b[m.j].EndsAfter(a[m.i])
    ensures var next := UnionTurn(a, b, m);
      UnionInv(a, b, next) && |next.acc| <= |m.acc| + 1 && (UnionHas(a, b, next, x) <==> UnionHas(a, b, m, x))
  {
    HasFromHead(a, m.i, x);
    HasFromHead(b, m.j, x);
    UnionStep(m.acc, b[m.j], a[m.i], x);
  }

  /**
   The union merge: what was emitted plus what is left is the result, whatever the
   touching ranges in the inputs, and the result is in normal form.
   */
  lemma {:induction false} UnionFromCorrect(a: seq<Range>, b: seq<Range>, m: Merge, x: real)
    requires UnionInv(a, b, m)
    ensures Apart(UnionFrom(a, b, m))
    ensures |UnionFrom(a, b, m)| <= |m.acc| + m.Left(a, b)
    ensures HasFrom(UnionFrom(a, b, m), 0, x) <==> UnionHas(a, b, m, x)
    decreases m.Left(a, b)
  {
    if m.Running(a, b) {
      UnionTurnCorrect(a, b, m, x);
      UnionFromCorrect(a, b, UnionTurn(a, b, m), x);
    } else if m.i < |a| {
      AddRemainingCorrect(a, m.i, m.acc, x);
    } else {
      AddRemainingCorrect(b, m.j, m.acc, x);
    }
  }

  /** Emitting the part of `r` left of `s`, for a range `r` that ends no later than `s`. */
  lemma UnionStep(acc: seq<Range>, r: Range, s: Range, x: real)
    requires r.Valid() && s.Valid() && Le(r.End(), s.End())
    requires Apart(acc) && EndsBy(acc, r.Start()) && EndsBy(acc, s.Start())
    ensures var next := AppendOrExtend(acc, r.DifferenceLeft(s));
            && Apart(next)
            && |next| <= |acc| + 1
            && EndsBy(next, r.End()) && EndsBy(next, s.Start())
            && (HasFrom(next, 0, x) || s.Has(x) <==> HasFrom(acc, 0, x) || r.Has(x) || s.Has(x))
  {
    var piece := r.DifferenceLeft(s);
    AppendKeepsApart(acc, piece, x);
    HasBetween(r, x);
    HasBetween(s, x);
    if piece.Some? { HasBetween(piece.value, x); }
  }

  function Union(p: Interval, q: Interval): Interval {
    Interval(p.col, UnionFrom(p.ranges, q.ranges, Merge(0, 0, [])), p.includesNull || q.includesNull)
  }

  /** Union means set union, is always in normal form and needs at most n1 + n2 ranges. */
  lemma UnionCorrect(p: Interval, q: Interval)
    requires p.Valid() && q.Valid()
    ensures Union(p, q).Normal()
    ensures |Union(p, q).ranges| <= |p.ranges| + |q.ranges|
    ensures forall d :: Union(p, q).Has(d) <==> p.Has(d) || q.Has(d)
  {
    forall d ensures Union(p, q).Has(d) <==> p.Has(d) || q.Has(d) {
      if d.Val? { UnionFromCorrect(p.ranges, q.ranges, Merge(0, 0, []), d.v); }
    }
    UnionFromCorrect(p.ranges, q.ranges, Merge(0, 0, []), 0.0);
  }

  // ----- Intersection

  function IntersectTurn(a: seq<Range>, b: seq<Range>, m: Merge): (next: Merge)
    requires m.Running(a, b)
    ensures next.InRange(a, b) && next.Left(a, b) == m.Left(a, b) - 1
  {
    if b[m.j].EndsAfter(a[m.i])
    then Merge(m.i + 1, m.j, Append(m.acc, a[m.i].Intersect(b[m.j])))
    else Merge(m.i, m.j + 1, Append(m.acc, b[m.j].Intersect(a[m.i])))
  }

  function IntersectFrom(a: seq<Range>, b: seq<Range>, m: Merge): seq<Range>
    requires m.InRange(a, b)
    decreases m.Left(a, b)
  {
    if m.Running(a, b) then IntersectFrom(a, b, IntersectTurn(a, b, m)) else m.acc
  }

  /** The plain append of the intersection loop, which never glues. */
  function Append(acc: seq<Range>, r: Option<Range>): seq<Range> {
    if r.None? then acc else acc + [r.value]
  }

  /** The intersection step for a range `r` that ends no later than `s`: `r` is done with afterwards. */
  lemma IntersectStep(acc: seq<Range>, r: Range, s: Range, x: real)
    requires r.Valid() && s.Valid() && Le(r.End(), s.End())
    requires AllValid(acc)
    ensures var next := Append(acc, r.Intersect(s));
            && AllValid(next)
            && (Sorted(acc) && EndsBy(acc, MaxCut(r.Start(), s.Start())) ==> Sorted(next))
            && (Apart(acc) && EndsBefore(acc, MaxCut(r.Start(), s.Start())) ==> Apart(next))
            && (forall k :: 0 <= k < |next| ==> (k < |acc| && next[k] == acc[k]) || Le(next[k].End(), r.End()))
            && (HasFrom(next, 0, x) <==> HasFrom(acc, 0, x) || (r.Has(x) && s.Has(x)))
  {
    var piece := r.Intersect(s);
    HasBetween(r, x);
    HasBetween(s, x);
    if piece.Some? {
      HasBetween(piece.value, x);
      var next := acc + [piece.value];
      assert forall k :: 0 <= k < |acc| ==> next[k] == acc[k];
      assert next[|acc|] == piece.value;
    }
  }

  /** Everything emitted ends before both current ranges have started. */
  ghost predicate IntersectInv(a: seq<Range>, b: seq<Range>, m: Merge) {
    && Sorted(a) && Sorted(b) && m.InRange(a, b) && Sorted(m.acc)
    && EndsBy(m.acc, MaxCut(StartAt(a, m.i), StartAt(b, m.j)))
  }

  ghost predicate IntersectHas(a: seq<Range>, b: seq<Range>, m: Merge, x: real) {
    HasFrom(m.acc, 0, x) || (HasFrom(a, m.i, x) && HasFrom(b, m.j, x))
  }

  lemma IntersectTurnCorrect(a: seq<Range>, b: seq<Range>, m: Merge, x: real)
    requires IntersectInv(a, b, m) && m.Running(a, b)
    ensures IntersectInv(a, b, IntersectTurn(a, b, m))
    ensures |IntersectTurn(a, b, m).acc| <= |m.acc| + 1
    ensures IntersectHas(a, b, IntersectTurn(a, b, m), x) <==> IntersectHas(a, b, m, x)
  {
    assert a[m.i].Valid() && b[m.j].Valid();
    if b[m.j].EndsAfter(a[m.i]) {
      assert Le(a[m.i].End(), b[m.j].End());
      IntersectDropsFirst(a, b, m, x);
      assert IntersectTurn(a, b, m) == Merge(m.i + 1, m.j, Append(m.acc, a[m.i].Intersect(b[m.j])));
    } else {
      assert Le(b[m.j].End(), a[m.i].End());
      assert IntersectTurn(a, b, m) == Merge(m.i, m.j + 1, Append(m.acc, b[m.j].Intersect(a[m.i])));
      IntersectDropsSecond(a, b, m, x);
    }
  }

  lemma {:induction false} IntersectFromCorrect(a: seq<Range>, b: seq<Range>, m: Merge, x: real)
    requires IntersectInv(a, b, m)
    ensures Sorted(IntersectFrom(a, b, m))
    ensures |IntersectFrom(a, b, m)| <= |m.acc| + m.Left(a, b)
    ensures HasFrom(IntersectFrom(a, b, m), 0, x) <==> IntersectHas(a, b, m, x)
    decreases m.Left(a, b)
  {
    if m.Running(a, b) {
      IntersectTurnCorrect(a, b, m, x);
      IntersectFromCorrect(a, b, IntersectTurn(a, b, m), x);
    }
  }

  lemma IntersectDropsFirst(a: seq<Range>, b: seq<Range>, m: Merge, x: real)
    requires IntersectInv(a, b, m) && m.Running(a, b) && Le(a[m.i].End(), b[m.j].End())
    ensures var next := Merge(m.i + 1, m.j, Append(m.acc, a[m.i].Intersect(b[m.j])));
            && IntersectInv(a, b, next) && |next.acc| <= |m.acc| + 1
            && (IntersectHas(a, b, next, x) <==> IntersectHas(a, b, m, x))
  {
    IntersectDropsHead(m.acc, a, m.i, b, m.j, x);
  }

  lemma IntersectDropsSecond(a: seq<Range>, b: seq<Range>, m: Merge, x: real)
    requires IntersectInv(a, b, m) && m.Running(a, b) && Le(b[m.j].End(), a[m.i].End())
    ensures var next := Merge(m.i, m.j + 1, Append(m.acc, b[m.j].Intersect(a[m.i])));
            && IntersectInv(a, b, next) && |next.acc| <= |m.acc| + 1
            && (IntersectHas(a, b, next, x) <==> IntersectHas(a, b, m, x))
  {
    IntersectDropsHead(m.acc, b, m.j, a, m.i, x);
  }

  /** One turn of the loop, for whichever of the two heads ends first. */
  lemma IntersectDropsHead(acc: seq<Range>, a: seq<Range>, i: nat, b: seq<Range>, j: nat, x: real)
    requires Sorted(a) && Sorted(b) && i < |a| && j < |b| && Le(a[i].End(), b[j].End())
    requires Sorted(acc) && EndsBy(acc, MaxCut(a[i].Start(), b[j].Start()))
    ensures var next := Append(acc, a[i].Intersect(b[j]));
            && Sorted(next) && |next| <= |acc| + 1
            && EndsBy(next, MaxCut(StartAt(a, i + 1), b[j].Start()))
            && (HasFrom(next, 0, x) || (HasFrom(a, i + 1, x) && HasFrom(b, j, x)) <==>
                HasFrom(acc, 0, x) || (HasFrom(a, i, x) && HasFrom(b, j, x)))
  {
    var next := Append(acc, a[i].Intersect(b[j]));
    IntersectStep(acc, a[i], b[j], x);
    StartsAfter(a, i);
    forall k | 0 <= k < |next| ensures Le(next[k].End(), MaxCut(StartAt(a, i + 1), b[j].Start())) {
      if k < |acc| && next[k] == acc[k] {
        LeMaxCut(acc[k].End(), a[i].Start(), StartAt(a, i + 1), b[j].Start());
      } else {
        LeMaxCut(next[k].End(), a[i].End(), StartAt(a, i + 1), b[j].Start());
      }
    }
  }

  lemma StartsAfter(a: seq<Range>, i: nat)
    requires Sorted(a) && i < |a|
    ensures Le(a[i].End(), StartAt(a, i + 1)) && Lt(a[i].Start(), a[i].End()) && Le(a[i].Start(), StartAt(a, i + 1))
  {
  }

  lemma LeMaxCut(e: Cut, s: Cut, t: Cut, c: Cut)
    requires (Le(e, MaxCut(s, c)) || Le(e, s)) && Le(s, t)
    ensures Le(e, MaxCut(t, c)) && MaxCut(t, c) == MaxCut(c, t)
  {
  }

  ghost predicate IntersectApartInv(a: seq<Range>, b: seq<Range>, m: Merge) {
    && Apart(a) && Apart(b) && m.InRange(a, b) && Apart(m.acc)
    && (m.Running(a, b) ==> EndsBefore(m.acc, MaxCut(a[m.i].Start(), b[m.j].Start())))
  }

  lemma {:induction false} IntersectKeepsApart(a: seq<Range>, b: seq<Range>, m: Merge)
    requires IntersectApartInv(a, b, m)
    ensures Apart(IntersectFrom(a, b, m))
    decreases m.Left(a, b)
  {
    if m.Running(a, b) {
      IntersectKeepsApart(a, b, IntersectTurn(a, b, m));
    }
  }

  function Intersect(p: Interval, q: Interval): Interval {
    Interval(p.col, IntersectFrom(p.ranges, q.ranges, Merge(0, 0, [])), p.includesNull && q.includesNull)
  }

  /** Intersection means set intersection and keeps the normal form although it never glues ranges. */
  lemma IntersectCorrect(p: Interval, q: Interval)
    requires p.Valid() && q.Valid()
    ensures Intersect(p, q).Valid()
    ensures p.Normal() && q.Normal() ==> Intersect(p, q).Normal()
    ensures |Intersect(p, q).ranges| <= |p.ranges| + |q.ranges|
    ensures forall d :: Intersect(p, q).Has(d) <==> p.Has(d) && q.Has(d)
  {
    forall d ensures Intersect(p, q).Has(d) <==> p.Has(d) && q.Has(d) {
      if d.Val? { IntersectFromCorrect(p.ranges, q.ranges, Merge(0, 0, []), d.v); }
    }
    IntersectFromCorrect(p.ranges, q.ranges, Merge(0, 0, []), 0.0);
    if p.Normal() && q.Normal() { IntersectKeepsApart(p.ranges, q.ranges, Merge(0, 0, [])); }
  }

  // ----- Difference

  /**
   The part of `r` left of `s`, and, as a residual, the part right of `s`.  When `s`
   is disjoint and left of `r`, neither is reported.
   */
  function DiffWithRightResidual(r: Range, s: Range): (Option<Range>, Option<Range>) {
    if s.DisjointLeft(r) then (None, None)
    else (if r.Contains(s) then r.DifferenceLeft(s) else None, r.DifferenceRight(s))
  }

  /** In cuts: the piece runs up to the start of `s`, the residual begins at the end of `s`. */
  lemma DiffWithRightResidualCuts(r: Range, s: Range)
    requires r.Valid() && s.Valid() && Lt(s.End(), r.End())
    ensures var (piece, residual) := DiffWithRightResidual(r, s);
            && (piece.Some? <==> Lt(r.Start(), s.Start()))
            && (piece.Some? ==> piece.value.Start() == r.Start() && piece.value.End() == s.Start())
            && (residual.Some? <==> Lt(r.Start(), s.End()))
            && (residual.Some? ==> residual.value.Start() == s.End() && residual.value.End() == r.End())
  {
  }

  /** The state of the difference loop, which also carries a residual. */
  datatype DiffMerge = DiffMerge(i: nat, j: nat, residual: Option<Range>, acc: seq<Range>) {
    predicate InRange(a: seq<Range>, b: seq<Range>) {
      i <= |a| && j <= |b|
    }

    predicate Running(a: seq<Range>, b: seq<Range>) {
      i < |a| && j < |b|
    }

    function Left(a: seq<Range>, b: seq<Range>): nat
      requires InRange(a, b)
    {
      |a| - i + |b| - j
    }

    /** The range the loop works on: the residual, if there is one, or the next range of `a`. */
    function Current(a: seq<Range>): Range
      requires i < |a|
    {
      if residual.None? then a[i] else residual.value
    }
  }

  function DifferenceTurn(a: seq<Range>, b: seq<Range>, m: DiffMerge): (next: DiffMerge)
    requires m.Running(a, b)
    ensures next.InRange(a, b) && next.Left(a, b) == m.Left(a, b) - 1
  {
    var r, s := m.Current(a), b[m.j];
    if s.EndsWithOrAfter(r)
    then DiffMerge(m.i + 1, m.j, None, AppendOrExtend(m.acc, r.DifferenceLeft(s)))
    else
      var (piece, rest) := DiffWithRightResidual(r, s);
      DiffMerge(m.i, m.j + 1, rest, AppendOrExtend(m.acc, piece))
  }

  function DifferenceFrom(a: seq<Range>, b: seq<Range>, m: DiffMerge): seq<Range>
    requires m.InRange(a, b)
    decreases m.Left(a, b)
  {
    if m.Running(a, b) then DifferenceFrom(a, b, DifferenceTurn(a, b, m))
    else AddRemaining(a, if m.residual.Some? then m.i + 1 else m.i, AppendOrExtend(m.acc, m.residual))
  }

  /**
   The loop invariant of the difference merge.  A pending residual is the end of
   `a[i]`, and it starts where the previous range of `b` ended - so the next range of
   `b` cannot be left of it, and the residual is not lost.
   */
  ghost predicate DifferenceInv(a: seq<Range>, b: seq<Range>, m: DiffMerge) {
    && Sorted(a) && Sorted(b) && m.InRange(a, b) && Apart(m.acc)
    && (m.i < |a| ==> EndsBy(m.acc, m.Current(a).Start()) && EndsBy(b[..m.j], m.Current(a).Start()))
    && (m.residual.Some? ==>
          && m.i < |a| && m.residual.value.Valid()
          && Le(a[m.i].Start(), m.residual.value.Start()) && m.residual.value.End() == a[m.i].End()
          && Le(m.residual.value.Start(), StartAt(b, m.j)))
  }

  /** The values of `a` still to be considered: the current range and everything after it. */
  ghost predicate Pending(a: seq<Range>, m: DiffMerge, x: real) {
    m.i < |a| && (m.Current(a).Has(x) || HasFrom(a, m.i + 1, x))
  }

  ghost predicate DifferenceHas(a: seq<Range>, b: seq<Range>, m: DiffMerge, x: real) {
    HasFrom(m.acc, 0, x) || (Pending(a, m, x) && !HasFrom(b, m.j, x))
  }

  lemma {:induction false} DifferenceFromCorrect(a: seq<Range>, b: seq<Range>, m: DiffMerge, x: real)
    requires DifferenceInv(a, b, m)
    ensures Apart(DifferenceFrom(a, b, m))
    ensures |DifferenceFrom(a, b, m)| <= |m.acc| + m.Left(a, b)
    ensures HasFrom(DifferenceFrom(a, b, m), 0, x) <==> DifferenceHas(a, b, m, x)
    decreases m.Left(a, b)
  {
    if m.Running(a, b) {
      DifferenceTurnCorrect(a, b, m, x);
      DifferenceFromCorrect(a, b, DifferenceTurn(a, b, m), x);
    } else {
      AppendKeepsApart(m.acc, m.residual, x);
      AddRemainingCorrect(a, if m.residual.Some? then m.i + 1 else m.i, AppendOrExtend(m.acc, m.residual), x);
    }
  }

  lemma DifferenceTurnCorrect(a: seq<Range>, b: seq<Range>, m: DiffMerge, x: real)
    requires DifferenceInv(a, b, m) && m.Running(a, b)
    ensures DifferenceInv(a, b, DifferenceTurn(a, b, m))
    ensures |DifferenceTurn(a, b, m).acc| <= |m.acc| + 1
    ensures DifferenceHas(a, b, DifferenceTurn(a, b, m), x) <==> DifferenceHas(a, b, m, x)
  {
    if b[m.j].EndsWithOrAfter(m.Current(a)) {
      DifferenceDropsFirst(a, b, m, x);
    } else {
      DifferenceDropsSecond(a, b, m, x);
    }
  }

  /** The turn for a range of `b` that reaches the end of the current range. */
  lemma DifferenceDropsFirst(a: seq<Range>, b: seq<Range>, m: DiffMerge, x: real)
    requires DifferenceInv(a, b, m) && m.Running(a, b)
    requires b[m.j].EndsWithOrAfter(m.Current(a))
    ensures var next := DifferenceTurn(a, b, m);
            && DifferenceInv(a, b, next) && |next.acc| <= |m.acc| + 1
            && (DifferenceHas(a, b, next, x) <==> DifferenceHas(a, b, m, x))
  {
    DropFirstKeepsInv(a, b, m);
    DropFirstKeepsValues(a, b, m, x);
  }

  lemma DropFirstKeepsInv(a: seq<Range>, b: seq<Range>, m: DiffMerge)
    requires DifferenceInv(a, b, m) && m.Running(a, b)
    requires b[m.j].EndsWithOrAfter(m.Current(a))
    ensures DifferenceInv(a, b, DifferenceTurn(a, b, m)) && |DifferenceTurn(a, b, m).acc| <= |m.acc| + 1
  {
    DropFirstKeepsOutput(m.acc, m.Current(a), b[m.j]);
    StartsAfter(a, m.i);
  }

  lemma DropFirstKeepsOutput(acc: seq<Range>, r: Range, s: Range)
    requires Apart(acc) && EndsBy(acc, r.Start()) && r.Valid() && s.Valid()
    ensures var acc' := AppendOrExtend(acc, r.DifferenceLeft(s));
      Apart(acc') && |acc'| <= |acc| + 1 && EndsBy(acc', r.End())
  {
    AppendKeepsApart(acc, r.DifferenceLeft(s), 0.0);
  }

  lemma DropFirstKeepsValues(a: seq<Range>, b: seq<Range>, m: DiffMerge, x: real)
    requires DifferenceInv(a, b, m) && m.Running(a, b)
    requires b[m.j].EndsWithOrAfter(m.Current(a))
    ensures DifferenceHas(a, b, DifferenceTurn(a, b, m), x) <==> DifferenceHas(a, b, m, x)
  {
    var r, s := m.Current(a), b[m.j];
    AppendKeepsApart(m.acc, r.DifferenceLeft(s), x);
    DropFirstPiece(r, s, b, m.j, x);
    HasFromHead(b, m.j, x);
    assert Pending(a, DifferenceTurn(a, b, m), x) <==> HasFrom(a, m.i + 1, x);
  }

  /** The piece left of the head of `b` is all that `b` leaves of a range that ends no later than that head. */
  lemma DropFirstPiece(r: Range, s: Range, b: seq<Range>, j: nat, x: real)
    requires r.Valid() && Sorted(b) && j < |b| && s == b[j] && s.EndsWithOrAfter(r)
    ensures var piece := r.DifferenceLeft(s);
            piece.Some? && piece.value.Has(x) <==> r.Has(x) && !HasFrom(b, j, x)
  {
    HasBetween(r, x);
    HasBetween(s, x);
    HasFromHead(b, j, x);
    var piece := r.DifferenceLeft(s);
    if piece.Some? {
      HasBetween(piece.value, x);
      if piece.value.Has(x) {
        LeftOfAll(b, j, x);
      }
    }
  }

  /** A value before the start of `b[j]` is in no later range of `b`. */
  lemma LeftOfAll(b: seq<Range>, j: nat, x: real)
    requires Sorted(b) && j < |b| && Lt(At(x, false), b[j].Start())
    ensures !HasFrom(b, j, x)
  {
    forall l | j <= l < |b| ensures !b[l].Has(x) {
      HasBetween(b[l], x);
      assert j < l ==> Le(b[j].End(), b[l].Start());
    }
  }

  /** A value before the end of `b[j]` is in no range of `b` after `j`. */
  lemma LeftOfNext(b: seq<Range>, j: nat, x: real)
    requires Sorted(b) && j < |b| && Lt(At(x, false), b[j].End())
    ensures !HasFrom(b, j + 1, x)
  {
    forall l | j < l < |b| ensures !b[l].Has(x) {
      HasBetween(b[l], x);
      assert Le(b[j].End(), b[l].Start());
    }
  }

  /** The turn for a range of `b` that ends inside, or before, the current range. */
  lemma DifferenceDropsSecond(a: seq<Range>, b: seq<Range>, m: DiffMerge, x: real)
    requires DifferenceInv(a, b, m) && m.Running(a, b)
    requires !b[m.j].EndsWithOrAfter(m.Current(a))
    ensures var next := DifferenceTurn(a, b, m);
            && DifferenceInv(a, b, next) && |next.acc| <= |m.acc| + 1
            && (DifferenceHas(a, b, next, x) <==> DifferenceHas(a, b, m, x))
  {
    DropSecondKeepsInv(a, b, m);
    DropSecondKeepsValues(a, b, m, x);
  }

  lemma DropSecondKeepsInv(a: seq<Range>, b: seq<Range>, m: DiffMerge)
    requires DifferenceInv(a, b, m) && m.Running(a, b)
    requires !b[m.j].EndsWithOrAfter(m.Current(a))
    ensures DifferenceInv(a, b, DifferenceTurn(a, b, m)) && |DifferenceTurn(a, b, m).acc| <= |m.acc| + 1
  {
    var r, s := m.Current(a), b[m.j];
    var (piece, rest) := DiffWithRightResidual(r, s);
    DiffWithRightResidualCuts(r, s);
    DropSecondKeepsOutput(m.acc, r, s);
    StartsAfter(b, m.j);
    assert b[..m.j + 1] == b[..m.j] + [s];
  }

  /** Wherever the loop goes on from - the residual, or the whole of `r` - the output ends before it. */
  lemma DropSecondKeepsOutput(acc: seq<Range>, r: Range, s: Range)
    requires Apart(acc) && EndsBy(acc, r.Start()) && r.Valid() && s.Valid() && Lt(s.End(), r.End())
    ensures var (piece, rest) := DiffWithRightResidual(r, s);
      var acc' := AppendOrExtend(acc, piece);
      && Apart(acc') && |acc'| <= |acc| + 1 && EndsBy(acc', if rest.Some? then rest.value.Start() else r.Start())
  {
    var (piece, rest) := DiffWithRightResidual(r, s);
    DiffWithRightResidualCuts(r, s);
    AppendKeepsApart(acc, piece, 0.0);
  }

  lemma DropSecondKeepsValues(a: seq<Range>, b: seq<Range>, m: DiffMerge, x: real)
    requires DifferenceInv(a, b, m) && m.Running(a, b)
    requires !b[m.j].EndsWithOrAfter(m.Current(a))
    ensures DifferenceHas(a, b, DifferenceTurn(a, b, m), x) <==> DifferenceHas(a, b, m, x)
  {
    var r, s := m.Current(a), b[m.j];
    var (piece, rest) := DiffWithRightResidual(r, s);
    DiffWithRightResidualCuts(r, s);
    AppendKeepsApart(m.acc, piece, x);
    DropSecondCurrent(r, b, m.j, x);
    HasFromHead(b, m.j, x);
    HasBetween(s, x);
    if HasFrom(a, m.i + 1, x) { RightOfCurrent(a, m.i, x); }
  }

  /**
   What the second array leaves of the current range: the piece, and what the rest of that array
   leaves of what comes next.
   */
  lemma DropSecondCurrent(r: Range, b: seq<Range>, j: nat, x: real)
    requires r.Valid() && Sorted(b) && j < |b| && Lt(b[j].End(), r.End())
    ensures var (piece, rest) := DiffWithRightResidual(r, b[j]);
      var next := if rest.Some? then rest.value else r;
      r.Has(x) && !HasFrom(b, j, x) <==>
        (piece.Some? && piece.value.Has(x)) || (next.Has(x) && !HasFrom(b, j + 1, x))
  {
    DropSecondPieces(r, b[j], x);
    HasFromHead(b, j, x);
    if Lt(At(x, false), b[j].End()) { LeftOfNext(b, j, x); }
  }

  /** `r` splits into the piece left of `s`, the part inside `s`, and the residual or the whole of `r`. */
  lemma DropSecondPieces(r: Range, s: Range, x: real)
    requires r.Valid() && s.Valid() && Lt(s.End(), r.End())
    ensures var (piece, rest) := DiffWithRightResidual(r, s);
            && (piece.Some? && piece.value.Has(x) ==>
              r.Has(x) && Lt(At(x, false), s.Start()) && Lt(At(x, false), s.End()))
            && (s.Has(x) ==> Lt(At(x, false), s.End()))
            && (rest.Some? ==> (rest.value.Has(x) <==> r.Has(x) && Le(s.End(), At(x, false))))
            && (rest.None? && r.Has(x) ==> Le(s.End(), At(x, false)))
            && (r.Has(x) && Lt(At(x, false), s.End()) && !s.Has(x) ==> piece.Some? && piece.value.Has(x))
  {
    var (piece, rest) := DiffWithRightResidual(r, s);
    DiffWithRightResidualCuts(r, s);
    HasBetween(r, x);
    HasBetween(s, x);
    if piece.Some? { HasBetween(piece.value, x); }
    if rest.Some? { HasBetween(rest.value, x); }
  }

  /** A value in a later range of `a` is right of `a[i]`. */
  lemma RightOfCurrent(a: seq<Range>, i: nat, x: real)
    requires Sorted(a) && i < |a| && HasFrom(a, i + 1, x)
    ensures Le(a[i].End(), At(x, false))
  {
    var l :| i + 1 <= l < |a| && a[l].Has(x);
    HasBetween(a[l], x);
    assert Le(a[i].End(), a[l].Start());
  }

  function Difference(p: Interval, q: Interval): Interval {
    Interval(p.col, DifferenceFrom(p.ranges, q.ranges, DiffMerge(0, 0, None, [])), p.includesNull && !q.includesNull)
  }

  /** Difference means set difference, NULL included, is in normal form and needs at most n1 + n2 ranges. */
  lemma DifferenceCorrect(p: Interval, q: Interval)
    requires p.Valid() && q.Valid()
    ensures Difference(p, q).Normal()
    ensures |Difference(p, q).ranges| <= |p.ranges| + |q.ranges|
    ensures forall d :: Difference(p, q).Has(d) <==> p.Has(d) && !q.Has(d)
  {
    var a, b, m := p.ranges, q.ranges, DiffMerge(0, 0, None, []);
    forall d ensures Difference(p, q).Has(d) <==> p.Has(d) && !q.Has(d) {
      if d.Val? {
        if |a| > 0 { HasFromHead(a, 0, d.v); }
        DifferenceFromCorrect(a, b, m, d.v);
      }
    }
    DifferenceFromCorrect(a, b, m, 0.0);
  }

  /**
   Sortedness of the second array is what keeps a residual alive.  Were its ranges out of order,
   `s` inside `r` and then `t` left of `s`, the residual of the first step would be dropped by the
   early return of the second; the loop falls back on the whole of `r`, and nothing is removed.
   */
  lemma UnsortedSecondLosesResidual(r: Range, s: Range, t: Range, x: real)
    requires r.Valid() && s.Valid() && t.Valid()
    requires Lt(r.Start(), s.Start()) && Lt(s.End(), r.End()) && Le(t.End(), s.Start())
    ensures HasFrom(DifferenceFrom([r], [s, t], DiffMerge(0, 0, None, [])), 0, x) <==> r.Has(x)
  {
    var (piece, rest) := DiffWithRightResidual(r, s);
    DiffWithRightResidualCuts(r, s);
    TurnsThatLose(r, s, t, piece.value, rest);
    HasBetween(piece.value, x);
    HasBetween(r, x);
    var d := [piece.value, r];
    assert d[0] == piece.value && d[1] == r;
  }

  lemma TurnsThatLose(r: Range, s: Range, t: Range, piece: Range, rest: Option<Range>)
    requires r.Valid() && s.Valid() && t.Valid() && piece.Valid()
    requires Lt(r.Start(), s.Start()) && Lt(s.End(), r.End()) && Le(t.End(), s.Start())
    requires DiffWithRightResidual(r, s) == (Some(piece), rest) && piece.End() == s.Start()
    requires rest.Some? && rest.value.Start() == s.End() && rest.value.End() == r.End() && rest.value.Valid()
    ensures DifferenceFrom([r], [s, t], DiffMerge(0, 0, None, [])) == [piece, r]
  {
    var a, b := [r], [s, t];
    var m0, m1, m2 := DiffMerge(0, 0, None, []), DiffMerge(0, 1, rest, [piece]), DiffMerge(0, 2, None, [piece]);
    assert DifferenceTurn(a, b, m0) == m1;
    assert DifferenceTurn(a, b, m1) == m2;
    AddRemainingOne(r, piece);
    assert DifferenceFrom(a, b, m2) == AddRemaining(a, 0, [piece]);
    assert DifferenceFrom(a, b, m1) == [piece, r];
  }

  lemma AddRemainingOne(r: Range, piece: Range)
    requires r.Valid() && piece.Valid() && piece.End() != r.Start()
    ensures AddRemaining([r], 0, [piece]) == [piece, r]
  {
    assert AppendOrExtend([piece], Some(r)) == [piece, r];
    assert AddRemaining([r], 1, [piece, r]) == [piece, r];
  }

  // ----- Complement

  /** The unbounded interval on a column. */
  function Unbounded(col: Col, includesNull: bool): Interval {
    Interval(col, [EVERYTHING], includesNull)
  }

  function Complement(p: Interval): Interval {
    Difference(Unbounded(p.col, true), p)
  }

  lemma UnboundedCorrect(col: Col, includesNull: bool)
    ensures Unbounded(col, includesNull).Normal()
    ensures forall d :: Unbounded(col, includesNull).Has(d) <==> d.Val? || includesNull
  {
    assert EVERYTHING.Valid() && forall x: real :: [EVERYTHING][0].Has(x);
  }

  lemma ComplementCorrect(p: Interval)
    requires p.Valid()
    ensures Complement(p).Normal() && Complement(p).col == p.col
    ensures |Complement(p).ranges| <= |p.ranges| + 1
    ensures forall d :: Complement(p).Has(d) <==> !p.Has(d)
  {
    UnboundedCorrect(p.col, true);
    DifferenceCorrect(Unbounded(p.col, true), p);
  }

  // ----- Canonical form

  /** A nonempty stretch at the front of `b` that `a` does not have. */
  lemma StartsDiffer(a: seq<Range>, b: seq<Range>, i: nat) returns (x: real)
    requires Apart(a) && Apart(b) && i < |b|
    requires Lt(b[i].Start(), StartAt(a, i))
    ensures HasFrom(b, i, x) && !HasFrom(a, i, x)
  {
    x := SomeBetween(b[i].Start(), MinCut(b[i].End(), StartAt(a, i)));
    HasBetween(b[i], x);
    assert b[i].Has(x);
    forall k | i <= k < |a| ensures !a[k].Has(x) {
      HasBetween(a[k], x);
    }
  }

  /** A nonempty stretch that the head of `b` has beyond the end of the head of `a`. */
  lemma EndsDiffer(a: seq<Range>, b: seq<Range>, i: nat) returns (x: real)
    requires Apart(a) && Apart(b) && i < |a| && i < |b|
    requires a[i].Start() == b[i].Start() && Lt(a[i].End(), b[i].End())
    ensures HasFrom(b, i, x) && !HasFrom(a, i, x)
  {
    x := SomeBetween(a[i].End(), MinCut(b[i].End(), StartAt(a, i + 1)));
    HasBetween(b[i], x);
    assert b[i].Has(x);
    forall k | i <= k < |a| ensures !a[k].Has(x) {
      HasBetween(a[k], x);
    }
  }

  lemma HeadLeavesTail(a: seq<Range>, i: nat, x: real)
    requires Apart(a) && i < |a|
    ensures HasFrom(a, i + 1, x) <==> HasFrom(a, i, x) && !a[i].Has(x)
  {
    HasBetween(a[i], x);
    if HasFrom(a, i + 1, x) {
      var k :| i + 1 <= k < |a| && a[k].Has(x);
      HasBetween(a[k], x);
    }
  }

  lemma CanonicalFrom(a: seq<Range>, b: seq<Range>, i: nat)
    requires Apart(a) && Apart(b) && i <= |a| && i <= |b| && a[..i] == b[..i]
    requires forall x :: HasFrom(a, i, x) <==> HasFrom(b, i, x)
    ensures a == b
    decreases |a| - i
  {
    if Lt(StartAt(b, i), StartAt(a, i)) {
      var x := StartsDiffer(a, b, i);
      assert false;
    } else if Lt(StartAt(a, i), StartAt(b, i)) {
      var x := StartsDiffer(b, a, i);
      assert false;
    } else if i < |a| && i < |b| {
      if Lt(a[i].End(), b[i].End()) {
        var x := EndsDiffer(a, b, i);
        assert false;
      } else if Lt(b[i].End(), a[i].End()) {
        var x := EndsDiffer(b, a, i);
        assert false;
      } else {
        CutsDetermineRange(a[i], b[i]);
        var n := i + 1;
        forall x ensures HasFrom(a, n, x) <==> HasFrom(b, n, x) {
          HeadLeavesTail(a, i, x);
          HeadLeavesTail(b, i, x);
        }
        CanonicalFrom(a, b, n);
      }
    }
  }

  /** The canonical-form theorem: intervals in normal form that mean the same are the same. */
  lemma Canonical(p: Interval, q: Interval)
    requires p.Normal() && q.Normal() && p.col == q.col
    requires forall d :: p.Has(d) <==> q.Has(d)
    ensures p == q
  {
    assert p.Has(Null) <==> q.Has(Null);
    forall x ensures HasFrom(p.ranges, 0, x) <==> HasFrom(q.ranges, 0, x) {
      assert p.Has(Val(x)) <==> q.Has(Val(x));
    }
    CanonicalFrom(p.ranges, q.ranges, 0);
  }

  /** The tests for "nothing" and "everything" read the meaning off a normal form. */
  lemma ContradictionAndUnboundedExact(p: Interval)
    requires p.Normal()
    ensures p.IsContradiction() <==> forall d :: !p.Has(d)
    ensures p.IsUnbounded() <==> forall d :: p.Has(d)
  {
    if forall d :: !p.Has(d) { Canonical(p, Interval(p.col, [], false)); }
    UnboundedCorrect(p.col, true);
    if forall d :: p.Has(d) { Canonical(p, Unbounded(p.col, true)); }
    if p.IsUnbounded() {
      assert p.ranges[0] == EVERYTHING;
      assert p == Unbounded(p.col, true);
    }
    if p.IsContradiction() {
      assert !p.Has(Null);
      assert forall x :: !HasFrom(p.ranges, 0, x);
    }
  }

  // ----- Boolean algebra, as equality of arrays

  lemma ComplementInvolution(p: Interval)
    requires p.Normal()
    ensures Complement(Complement(p)) == p
  {
    ComplementCorrect(p);
    ComplementCorrect(Complement(p));
    Canonical(Complement(Complement(p)), p);
  }

  lemma DeMorgan(p: Interval, q: Interval)
    requires p.Valid() && q.Valid() && p.col == q.col
    ensures Complement(Union(p, q)) == Intersect(Complement(p), Complement(q))
    ensures Complement(Intersect(p, q)) == Union(Complement(p), Complement(q))
  {
    UnionCorrect(p, q);
    IntersectCorrect(p, q);
    ComplementCorrect(p);
    ComplementCorrect(q);
    ComplementCorrect(Union(p, q));
    ComplementCorrect(Intersect(p, q));
    IntersectCorrect(Complement(p), Complement(q));
    UnionCorrect(Complement(p), Complement(q));
    Canonical(Complement(Union(p, q)), Intersect(Complement(p), Complement(q)));
    Canonical(Complement(Intersect(p, q)), Union(Complement(p), Complement(q)));
  }

  lemma DifferenceIsIntersectComplement(p: Interval, q: Interval)
    requires p.Normal() && q.Valid() && p.col == q.col
    ensures Difference(p, q) == Intersect(p, Complement(q))
  {
    DifferenceCorrect(p, q);
    ComplementCorrect(q);
    IntersectCorrect(p, Complement(q));
    Canonical(Difference(p, q), Intersect(p, Complement(q)));
  }

  lemma Distributive(p: Interval, q: Interval, r: Interval)
    requires p.Normal() && q.Normal() && r.Normal() && p.col == q.col == r.col
    ensures Intersect(p, Union(q, r)) == Union(Intersect(p, q), Intersect(p, r))
    ensures Union(p, Intersect(q, r)) == Intersect(Union(p, q), Union(p, r))
  {
    UnionCorrect(q, r);
    IntersectCorrect(q, r);
    IntersectCorrect(p, q);
    IntersectCorrect(p, r);
    UnionCorrect(p, q);
    UnionCorrect(p, r);
    IntersectCorrect(p, Union(q, r));
    UnionCorrect(Intersect(p, q), Intersect(p, r));
    UnionCorrect(p, Intersect(q, r));
    IntersectCorrect(Union(p, q), Union(p, r));
    Canonical(Intersect(p, Union(q, r)), Union(Intersect(p, q), Intersect(p, r)));
    Canonical(Union(p, Intersect(q, r)), Intersect(Union(p, q), Union(p, r)));
  }

  // ----- Containment

  /** Does `p` contain `q`? */
  function ContainsInterval(p: Interval, q: Interval): bool {
    if p.IsUnbounded() then true
    else if q.IsUnbounded() || (!p.includesNull && q.includesNull) then false
    else Difference(q, p).IsContradiction()
  }

  /** For a container in normal form, or an argument not unbounded, the answer is exactly inclusion, NULL included. */
  lemma ContainsIntervalExact(p: Interval, q: Interval)
    requires p.Valid() && q.Valid() && (p.Normal() || !q.IsUnbounded())
    ensures ContainsInterval(p, q) <==> forall d :: q.Has(d) ==> p.Has(d)
  {
    DifferenceCorrect(q, p);
    ContradictionAndUnboundedExact(Difference(q, p));
    if p.IsUnbounded() {
      assert forall x :: p.ranges[0].Has(x);
    } else if q.IsUnbounded() {
      ContradictionAndUnboundedExact(p);
      assert forall x :: q.ranges[0].Has(x);
    } else if !p.includesNull && q.includesNull {
      assert q.Has(Null) && !p.Has(Null);
    }
  }

  /** A yes is right for any container, over the reals and so over every subset of them that a type may have. */
  lemma ContainsIntervalSound(p: Interval, q: Interval)
    requires p.Valid() && q.Valid() && ContainsInterval(p, q)
    ensures forall d :: q.Has(d) ==> p.Has(d)
  {
    if p.IsUnbounded() {
      assert p.ranges[0].left.None? && p.ranges[0].right.None?;
      assert forall x :: p.ranges[0].Has(x);
    } else {
      DifferenceCorrect(q, p);
      ContradictionAndUnboundedExact(Difference(q, p));
    }
  }

  /** Inclusion as far as the type's datums go. */
  ghost predicate IncludesOnType(p: Interval, q: Interval, onType: real -> bool) {
    forall d: Datum | OfType(d, onType) && q.Has(d) :: p.Has(d)
  }

  ghost predicate OfType(d: Datum, onType: real -> bool) {
    d.Val? ==> onType(d.v)
  }

  /**
   Over a type that has only some of the reals, the answer is right exactly if the difference is
   empty or has a datum of the type.
   */
  lemma ContainsIntervalOnType(p: Interval, q: Interval, onType: real -> bool)
    requires p.Valid() && q.Valid() && (p.Normal() || !q.IsUnbounded())
    ensures (ContainsInterval(p, q) <==> IncludesOnType(p, q, onType)) <==>
      Difference(q, p).IsContradiction() || exists d: Datum :: OfType(d, onType) && Difference(q, p).Has(d)
  {
    ContainsIntervalExact(p, q);
    DifferenceCorrect(q, p);
    ContradictionAndUnboundedExact(Difference(q, p));
  }

  /** So on the integers the answer for [0,0] and [0,1) is wrong: their difference has no integer. */
  lemma ContainsIntervalMissesIntegers()
    ensures var p := Interval(0, [PointRange(0.0)], false);
            var q := Interval(0, [Range(Some(0.0), Included, Some(1.0), Excluded)], false);
            && p.Normal() && q.Normal() && !ContainsInterval(p, q)
            && forall x: real :: x.Floor as real == x && q.Has(Val(x)) ==> p.Has(Val(x))
  {
    var p := Interval(0, [PointRange(0.0)], false);
    var q := Interval(0, [Range(Some(0.0), Included, Some(1.0), Excluded)], false);
    assert q.ranges[0].Has(0.5);
    assert q.Has(Val(0.5)) && !p.Has(Val(0.5));
    ContainsIntervalExact(p, q);
    assert p.ranges[0].Has(0.0);
  }
}
