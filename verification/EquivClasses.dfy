/**
 Classes of columns that are equal on every row considered: adding, merging and
 intersecting them (CUtils.cpp).
 */
module EquivClasses {
  import opened Intervals
  import opened Scalars
  import opened Constraints

  type Classes = seq<set<Col>>

  ghost predicate Disjoint(classes: Classes) {
    forall k, l :: 0 <= k < l < |classes| ==> classes[k] !! classes[l]
  }

  /** Two different columns of the class hold the same datum, which is not NULL. */
  ghost predicate Equates(cls: set<Col>, row: Row) {
    forall c, d | c in cls && d in cls && c != d :: row(c) == row(d) && row(c).Val?
  }

  ghost predicate AllEquate(classes: Classes, row: Row) {
    forall cls | cls in classes :: Equates(cls, row)
  }

  function Members(classes: Classes): set<Col> {
    set cls, c | cls in classes && c in cls :: c
  }

  ghost predicate NonEmpty(classes: Classes) {
    forall cls | cls in classes :: cls != {}
  }

  // ----- Adding a class

  /** The new class with every one of the first `n` classes it meets, and those it does not meet. */
  function Absorb(cls: set<Col>, classes: Classes, n: nat): (r: (set<Col>, Classes))
    requires n <= |classes|
  {
    if n == 0 then (cls, [])
    else
      var (grown, kept) := Absorb(cls, classes, n - 1);
      if grown !! classes[n - 1] then (grown, kept + [classes[n - 1]]) else (grown + classes[n - 1], kept)
  }

  function AddClass(cls: set<Col>, classes: Classes): Classes {
    var (grown, kept) := Absorb(cls, classes, |classes|);
    kept + [grown]
  }

  /** What absorbing keeps: the classes left are untouched, and no column is lost. */
  ghost predicate Absorbed(cls: set<Col>, classes: Classes, n: nat, grown: set<Col>, kept: Classes)
    requires n <= |classes|
  {
    && Disjoint(kept) && cls <= grown
    && (forall k | k in kept :: k in classes[..n] && k !! grown)
    && grown + Members(kept) == cls + Members(classes[..n])
  }

  ghost predicate SaysSame(cls: set<Col>, classes: Classes, n: nat, grown: set<Col>, kept: Classes, row: Row)
    requires n <= |classes|
  {
    Equates(grown, row) && AllEquate(kept, row) <==> Equates(cls, row) && AllEquate(classes[..n], row)
  }

  lemma {:induction false} AbsorbCorrect(cls: set<Col>, classes: Classes, n: nat)
    requires Disjoint(classes) && n <= |classes|
    ensures var (grown, kept) := Absorb(cls, classes, n); Absorbed(cls, classes, n, grown, kept)
  {
    if n > 0 {
      var (before, kept) := Absorb(cls, classes, n - 1);
      AbsorbCorrect(cls, classes, n - 1);
      if before !! classes[n - 1] {
        KeepOne(cls, classes, n, before, kept);
      }
    }
  }

  lemma {:induction false} AbsorbMeaning(cls: set<Col>, classes: Classes, n: nat, row: Row)
    requires n <= |classes|
    ensures var (grown, kept) := Absorb(cls, classes, n); SaysSame(cls, classes, n, grown, kept, row)
  {
    if n > 0 {
      var (before, kept) := Absorb(cls, classes, n - 1);
      var last := classes[n - 1];
      AbsorbMeaning(cls, classes, n - 1, row);
      assert classes[..n] == classes[..n - 1] + [last];
      if !(before !! last) {
        EquatesUnion(before, last, row);
      }
    }
  }

  lemma KeepOne(cls: set<Col>, classes: Classes, n: nat, before: set<Col>, kept: Classes)
    requires 0 < n <= |classes| && before !! classes[n - 1]
    requires Absorbed(cls, classes, n - 1, before, kept)
    requires forall k | k in kept :: k !! classes[n - 1]
    ensures Absorbed(cls, classes, n, before, kept + [classes[n - 1]])
  {
    var last := classes[n - 1];
    assert classes[..n] == classes[..n - 1] + [last];
    assert Members(kept + [last]) == Members(kept) + last by {
      assert forall k :: k in kept + [last] <==> k in kept || k == last;
    }
    DisjointAppend(kept, last);
    assert forall k :: k in kept + [last] <==> k in kept || k == last;
    calc {
      before + Members(kept + [last]);
      before + Members(kept) + last;
      cls + Members(classes[..n - 1]) + last;
      cls + Members(classes[..n]);
    }
  }

  lemma DisjointAppend(classes: Classes, cls: set<Col>)
    requires Disjoint(classes) && forall k | k in classes :: k !! cls
    ensures Disjoint(classes + [cls])
  {
    forall k, l | 0 <= k < l < |classes| + 1 ensures (classes + [cls])[k] !! (classes + [cls])[l] {
      assert classes[k] in classes;
    }
  }

  /** Two classes with a common column are equal throughout iff their union is. */
  lemma EquatesUnion(a: set<Col>, b: set<Col>, row: Row)
    requires !(a !! b)
    ensures Equates(a + b, row) <==> Equates(a, row) && Equates(b, row)
  {
    var m :| m in a && m in b;
    if Equates(a, row) && Equates(b, row) {
      forall c, d | c in a + b && d in a + b && c != d ensures row(c) == row(d) && row(c).Val? {
        assert c != m ==> row(c) == row(m) && row(c).Val?;
        assert d != m ==> row(d) == row(m) && row(d).Val?;
      }
    }
  }

  /** Adding a class joins what it meets: the classes stay disjoint and say exactly what both said. */
  lemma AddClassCorrect(cls: set<Col>, classes: Classes, row: Row)
    requires Disjoint(classes) && NonEmpty(classes) && cls != {}
    ensures var r := AddClass(cls, classes);
      && Disjoint(r) && NonEmpty(r) && Members(r) == cls + Members(classes)
      && (AllEquate(r, row) <==> Equates(cls, row) && AllEquate(classes, row))
  {
    var (grown, kept) := Absorb(cls, classes, |classes|);
    AbsorbCorrect(cls, classes, |classes|);
    AbsorbMeaning(cls, classes, |classes|, row);
    assert classes[..|classes|] == classes;
  }

  // ----- Merging two arrays

  function MergeClasses(first: Classes, second: Classes): Classes {
    if second == [] then first
    else AddClass(second[|second| - 1], MergeClasses(first, second[..|second| - 1]))
  }

  /** Merged classes say exactly what both arrays said, by transitivity across any number of classes. */
  lemma {:induction false} MergeCorrect(first: Classes, second: Classes, row: Row)
    requires Disjoint(first) && NonEmpty(first) && NonEmpty(second)
    ensures var r := MergeClasses(first, second);
      && Disjoint(r) && NonEmpty(r) && Members(r) == Members(first) + Members(second)
      && (AllEquate(r, row) <==> AllEquate(first, row) && AllEquate(second, row))
  {
    if second != [] {
      var front, last := second[..|second| - 1], second[|second| - 1];
      assert second == front + [last] && last in second;
      assert forall cls | cls in front :: cls in second;
      MergeCorrect(first, front, row);
      AddClassCorrect(last, MergeClasses(first, front), row);
    }
  }

  // ----- Intersecting two arrays

  /** The classes of the first array cut down to the given class, found from those of its columns that remain. */
  function Pieces(first: Classes, cls: set<Col>, rest: set<Col>): Classes
    requires rest <= cls
    decreases rest
  {
    if |rest| == 0 then []
    else
      var c := FirstColumn(rest);
      if exists k :: 0 <= k < |first| && c in first[k] then
        var k := FirstWith(first, c);
        [cls * first[k]] + Pieces(first, cls, rest - first[k])
      else Pieces(first, cls, rest - {c})
  }

  function FirstWith(classes: Classes, c: Col): (k: nat)
    requires exists k :: 0 <= k < |classes| && c in classes[k]
    ensures k < |classes| && c in classes[k] && forall j :: 0 <= j < k ==> c !in classes[j]
  {
    if c in classes[0] then 0 else 1 + FirstWith(classes[1..], c)
  }

  function IntersectClasses(first: Classes, second: Classes): Classes {
    if |first| == 0 || |second| == 0 then []
    else
      var cls := second[|second| - 1];
      IntersectClasses(first, second[..|second| - 1]) + Pieces(first, cls, cls)
  }

  ghost predicate Together(classes: Classes, c: Col, d: Col) {
    exists cls | cls in classes :: c in cls && d in cls
  }

  lemma {:induction false} PiecesTogether(first: Classes, cls: set<Col>, rest: set<Col>, c: Col, d: Col)
    requires Disjoint(first) && rest <= cls
    requires forall a | a in first :: a * rest == {} || a * rest == a * cls
    ensures Together(Pieces(first, cls, rest), c, d) <==>
      c in rest && d in rest && Together(first, c, d)
    decreases rest
  {
    if |rest| > 0 {
      var e := FirstColumn(rest);
      if exists k :: 0 <= k < |first| && e in first[k] {
        var k := FirstWith(first, e);
        var tail := rest - first[k];
        PieceTaken(first, cls, rest, k, e);
        PiecesTogether(first, cls, tail, c, d);
        assert Pieces(first, cls, rest) == [cls * first[k]] + Pieces(first, cls, tail);
        assert Together([cls * first[k]], c, d) <==> c in cls * first[k] && d in cls * first[k] by {
          assert [cls * first[k]][0] == cls * first[k];
        }
        OnlyClassOf(first, k, c, d);
      } else {
        forall a | a in first ensures e !in a && a * (rest - {e}) == a * rest {
          var k :| 0 <= k < |first| && first[k] == a;
        }
        PiecesTogether(first, cls, rest - {e}, c, d);
      }
    }
  }

  /** Taking a piece away leaves every class of the first array whole or gone. */
  lemma PieceTaken(first: Classes, cls: set<Col>, rest: set<Col>, k: nat, e: Col)
    requires Disjoint(first) && k < |first| && e in first[k] && e in rest && rest <= cls
    requires forall a | a in first :: a * rest == {} || a * rest == a * cls
    ensures first[k] * rest == cls * first[k]
    ensures forall a | a in first :: a * (rest - first[k]) == {} || a * (rest - first[k]) == a * cls
  {
    forall a | a in first ensures a * (rest - first[k]) == {} || a * (rest - first[k]) == a * cls {
      var j :| 0 <= j < |first| && first[j] == a;
      if j != k {
        assert a !! first[k];
        assert a * (rest - first[k]) == a * rest;
      }
    }
    assert e in first[k] * rest;
  }

  /** In disjoint classes a column of one class is with the columns of just that class. */
  lemma OnlyClassOf(first: Classes, k: nat, c: Col, d: Col)
    requires Disjoint(first) && k < |first|
    ensures c in first[k] && Together(first, c, d) ==> d in first[k]
    ensures d in first[k] && Together(first, c, d) ==> c in first[k]
    ensures c in first[k] && d in first[k] ==> Together(first, c, d)
  {
    if a :| a in first && c in a && d in a {
      var j :| 0 <= j < |first| && first[j] == a;
    }
  }

  /** In the intersection two columns are together iff they are in both arrays. */
  lemma {:induction false} IntersectCorrect(first: Classes, second: Classes, c: Col, d: Col)
    requires Disjoint(first)
    ensures Together(IntersectClasses(first, second), c, d) <==> Together(first, c, d) && Together(second, c, d)
  {
    if |first| > 0 && |second| > 0 {
      var front, cls := second[..|second| - 1], second[|second| - 1];
      assert second == front + [cls];
      IntersectCorrect(first, front, c, d);
      PiecesTogether(first, cls, cls, c, d);
      assert Together([cls], c, d) <==> c in cls && d in cls by { assert [cls][0] == cls; }
    }
  }

  /** Two columns are together exactly if the classes force them to be equal, through however many classes. */
  lemma TogetherIffForced(classes: Classes, c: Col, d: Col)
    requires Disjoint(classes) && c != d
    ensures Together(classes, c, d) <==> Forced(classes, c, d)
  {
    if Together(classes, c, d) {
      forall row: Row | AllEquate(classes, row) ensures row(c) == row(d) {}
    } else {
      var row: Row := (k: Col) => if k == c || Together(classes, c, k) then Val(1.0) else Val(2.0);
      forall cls | cls in classes ensures Equates(cls, row) { ClassIsTogether(classes, cls, c); }
      assert row(c) != row(d);
    }
  }

  ghost predicate Forced(classes: Classes, c: Col, d: Col) {
    forall row: Row :: AllEquate(classes, row) ==> row(c) == row(d)
  }

  /** All columns of a class are together with `c`, or none is. */
  lemma ClassIsTogether(classes: Classes, cls: set<Col>, c: Col)
    requires Disjoint(classes) && cls in classes
    ensures c in cls ==> forall k | k in cls :: Together(classes, c, k)
    ensures c !in cls ==> forall k | k in cls :: !Together(classes, c, k)
  {
    var i :| 0 <= i < |classes| && classes[i] == cls;
    forall a | a in classes && c in a && c !in cls ensures a !! cls {
      var j :| 0 <= j < |classes| && classes[j] == a;
      assert i < j || j < i;
    }
  }

  // ----- The loops

  /** Add a class: the classes it does not meet, and last the class with those it meets included. */
  method PdrgpcrsAddEquivClass(cls: set<Col>, classes: Classes) returns (res: Classes)
    ensures res == AddClass(cls, classes)
  {
    var grown := cls;
    res := [];
    for k := 0 to |classes|
      invariant (grown, res) == Absorb(cls, classes, k)
    {
      if grown !! classes[k] {
        res := res + [classes[k]];
      } else {
        grown := grown + classes[k];
      }
    }
    res := res + [grown];
  }

  method PdrgpcrsMergeEquivClasses(first: Classes, second: Classes) returns (res: Classes)
    ensures res == MergeClasses(first, second)
  {
    res := first;
    for k := 0 to |second|
      invariant res == MergeClasses(first, second[..k])
    {
      assert second[..k + 1][..k] == second[..k];
      res := PdrgpcrsAddEquivClass(second[k], res);
    }
    assert second[..|second|] == second;
  }

  /** The table finds for every column the first class that has it. */
  ghost predicate FindsFirst(table: map<Col, set<Col>>, first: Classes) {
    && (forall c :: c in table <==> exists k :: 0 <= k < |first| && c in first[k])
    && (forall c | c in table :: table[c] == first[FirstWith(first, c)])
  }

  /** Fill the table, class by class. */
  method TableByColumn(first: Classes) returns (table: map<Col, set<Col>>)
    ensures FindsFirst(table, first)
  {
    table := map[];
    for k := 0 to |first|
      invariant forall c :: c in table <==> exists j :: 0 <= j < k && c in first[j]
      invariant forall c | c in table :: table[c] == first[FirstWith(first, c)]
    {
      table := AddToTable(table, first[k]);
    }
  }

  /** An insertion for a column already there has no effect. */
  method AddToTable(table: map<Col, set<Col>>, cls: set<Col>) returns (res: map<Col, set<Col>>)
    ensures forall c :: c in res <==> c in table || c in cls
    ensures forall c | c in res :: res[c] == if c in table then table[c] else cls
  {
    res := table;
    var rest := cls;
    while |rest| > 0
      invariant rest <= cls
      invariant forall c :: c in res <==> c in table || c in cls - rest
      invariant forall c | c in res :: res[c] == if c in table then table[c] else cls
      decreases |rest|
    {
      var c := FirstColumn(rest);
      if c !in res {
        res := res[c := cls];
      }
      rest := rest - {c};
    }
  }

  /** The pieces of one class, skipping the columns that are done. */
  method PiecesOf(table: map<Col, set<Col>>, cls: set<Col>, was: set<Col>, ghost first: Classes)
    returns (pieces: Classes, done: set<Col>)
    requires FindsFirst(table, first) && was !! cls
    ensures pieces == Pieces(first, cls, cls) && was <= done <= was + cls
  {
    pieces, done := [], was;
    var rest := cls;
    assert rest - done == cls;
    while |rest| > 0
      invariant rest <= cls && was <= done <= was + cls
      invariant pieces + Pieces(first, cls, rest - done) == Pieces(first, cls, cls)
      decreases |rest|
    {
      var c := FirstColumn(rest);
      if c in table && c !in done {
        PieceFound(first, cls, rest, done, c);
        OneMorePiece(pieces, cls * table[c], Pieces(first, cls, rest - {c} - (done + cls * table[c])));
        pieces := pieces + [cls * table[c]];
        done := done + cls * table[c];
      } else {
        PieceSkipped(first, cls, rest, done, c);
      }
      rest := rest - {c};
    }
  }

  lemma OneMorePiece(pieces: Classes, piece: set<Col>, more: Classes)
    ensures pieces + ([piece] + more) == pieces + [piece] + more
  {
  }

  lemma PieceFound(first: Classes, cls: set<Col>, rest: set<Col>, done: set<Col>, c: Col)
    requires rest <= cls && |rest| > 0 && c == FirstColumn(rest) && c !in done
    requires exists k :: 0 <= k < |first| && c in first[k]
    ensures var a := first[FirstWith(first, c)];
      Pieces(first, cls, rest - done) == [cls * a] + Pieces(first, cls, rest - {c} - (done + cls * a))
  {
    RestAfterPiece(cls, rest, done, first[FirstWith(first, c)], c);
    UnfoldPiece(first, cls, rest - done, c);
  }

  lemma PieceSkipped(first: Classes, cls: set<Col>, rest: set<Col>, done: set<Col>, c: Col)
    requires rest <= cls && |rest| > 0 && c == FirstColumn(rest)
    requires c in done || !exists k :: 0 <= k < |first| && c in first[k]
    ensures Pieces(first, cls, rest - done) == Pieces(first, cls, rest - {c} - done)
  {
    if c in done {
      assert rest - {c} - done == rest - done;
    } else {
      assert rest - {c} - done == rest - done - {c};
      UnfoldPiece(first, cls, rest - done, c);
    }
  }

  lemma RestAfterPiece(cls: set<Col>, rest: set<Col>, done: set<Col>, a: set<Col>, c: Col)
    requires rest <= cls && c in a
    ensures rest - {c} - (done + cls * a) == rest - done - a
  {
  }

  lemma UnfoldPiece(first: Classes, cls: set<Col>, rest: set<Col>, c: Col)
    requires rest <= cls && c in rest && forall d | d in rest :: c <= d
    ensures if exists k :: 0 <= k < |first| && c in first[k]
      then
        Pieces(first, cls, rest) ==
        [cls * first[FirstWith(first, c)]] + Pieces(first, cls, rest - first[FirstWith(first, c)])
      else Pieces(first, cls, rest) == Pieces(first, cls, rest - {c})
  {
    SkipTo(rest, c);
  }

  /** The least column of a set is the least of any subset that has it. */
  lemma SkipTo(s: set<Col>, c: Col)
    requires c in s && forall d | d in s :: c <= d
    ensures |s| > 0 && FirstColumn(s) == c
  {
    assert |s| > 0;
  }

  method PdrgpcrsIntersectEquivClasses(first: Classes, second: Classes) returns (res: Classes)
    requires Disjoint(first) && Disjoint(second)
    ensures res == IntersectClasses(first, second)
    ensures forall c, d :: Together(res, c, d) <==> Together(first, c, d) && Together(second, c, d)
  {
    forall c, d
      ensures Together(IntersectClasses(first, second), c, d) <==> Together(first, c, d) && Together(second, c, d)
    {
      IntersectCorrect(first, second, c, d);
    }
    res := [];
    if |second| == 0 || |first| == 0 {
      return;
    }
    var table := TableByColumn(first);
    var done: set<Col> := {};
    for k := 0 to |second|
      invariant res == IntersectClasses(first, second[..k])
      invariant forall c | c in done :: exists j :: 0 <= j < k && c in second[j]
    {
      assert done !! second[k];
      assert second[..k + 1][..k] == second[..k];
      var pieces;
      pieces, done := PiecesOf(table, second[k], done, first);
      res := res + pieces;
    }
    assert second[..|second|] == second;
  }
}
