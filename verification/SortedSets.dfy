/**
 The sorted, duplicate-free set of the constants of an array comparison, NULLs
 stripped (CDatumSortedSet.cpp).
 */
module SortedSets {
  import opened Intervals

  ghost predicate Increasing(s: seq<real>) {
    forall k, l :: 0 <= k < l < |s| ==> s[k] < s[l]
  }

  ghost predicate Ascending(s: seq<real>) {
    forall k, l :: 0 <= k < l < |s| ==> s[k] <= s[l]
  }

  /** The values of the constants that are not NULL, in the order given. */
  function NonNull(consts: seq<Datum>): (vs: seq<real>)
    ensures forall v :: v in vs <==> Val(v) in consts
    ensures |vs| <= |consts|
  {
    if |consts| == 0 then []
    else
      var rest := NonNull(consts[1..]);
      assert consts == [consts[0]] + consts[1..];
      if consts[0].Null? then rest else [consts[0].v] + rest
  }

  function Insert(v: real, s: seq<real>): seq<real> {
    if |s| == 0 || v <= s[0] then [v] + s else [s[0]] + Insert(v, s[1..])
  }

  lemma InsertCorrect(v: real, s: seq<real>)
    requires Ascending(s)
    ensures Ascending(Insert(v, s))
    ensures multiset(Insert(v, s)) == multiset(s) + multiset{v}
  {
    InsertElements(v, s);
    InsertAscending(v, s);
  }

  lemma {:induction false} InsertElements(v: real, s: seq<real>)
    ensures multiset(Insert(v, s)) == multiset(s) + multiset{v}
  {
    if |s| > 0 && v > s[0] {
      InsertElements(v, s[1..]);
      assert s == [s[0]] + s[1..];
    }
  }

  lemma {:induction false} InsertMembers(v: real, s: seq<real>)
    ensures forall w | w in Insert(v, s) :: w == v || w in s
  {
    if |s| > 0 && v > s[0] {
      InsertMembers(v, s[1..]);
    }
  }

  lemma {:induction false} InsertAscending(v: real, s: seq<real>)
    requires Ascending(s)
    ensures Ascending(Insert(v, s))
  {
    if |s| > 0 && v > s[0] {
      var rest := Insert(v, s[1..]);
      InsertAscending(v, s[1..]);
      InsertMembers(v, s[1..]);
      forall k | 0 <= k < |rest| ensures s[0] <= rest[k] { assert rest[k] in rest; }
    }
  }

  /** The library sort, by the comparator on datums. */
  function Sort(s: seq<real>): seq<real> {
    if |s| == 0 then [] else Insert(s[0], Sort(s[1..]))
  }

  lemma {:induction false} SortCorrect(s: seq<real>)
    ensures Ascending(Sort(s)) && multiset(Sort(s)) == multiset(s)
  {
    if |s| > 0 {
      SortCorrect(s[1..]);
      InsertCorrect(s[0], Sort(s[1..]));
      assert s == [s[0]] + s[1..];
    }
  }

  /** Keep each value that differs from the one kept last. */
  function Distinct(s: seq<real>): (t: seq<real>)
    ensures |t| <= |s| && (|s| > 0 ==> |t| > 0 && t[|t| - 1] == s[|s| - 1])
  {
    if |s| <= 1 then s
    else
      var kept := Distinct(s[..|s| - 1]);
      if s[|s| - 1] == s[|s| - 2] then kept else kept + [s[|s| - 1]]
  }

  lemma DistinctCorrect(s: seq<real>)
    requires Ascending(s)
    ensures Increasing(Distinct(s))
    ensures forall v :: v in Distinct(s) <==> v in s
  {
    DistinctMembers(s);
    DistinctIncreasing(s);
  }

  lemma {:induction false} DistinctMembers(s: seq<real>)
    ensures forall v :: v in Distinct(s) <==> v in s
  {
    if |s| > 1 {
      var front, last := s[..|s| - 1], s[|s| - 1];
      DistinctMembers(front);
      assert s == front + [last];
      assert last == s[|s| - 2] ==> last == front[|front| - 1] && last in front;
    }
  }

  lemma {:induction false} DistinctIncreasing(s: seq<real>)
    requires Ascending(s)
    ensures Increasing(Distinct(s))
  {
    if |s| > 1 {
      var kept := Distinct(s[..|s| - 1]);
      DistinctIncreasing(s[..|s| - 1]);
      assert kept[|kept| - 1] == s[|s| - 2] <= s[|s| - 1];
      assert forall k | 0 <= k < |kept| :: kept[k] <= kept[|kept| - 1];
    }
  }

  function SortedSet(consts: seq<Datum>): seq<real> {
    Distinct(Sort(NonNull(consts)))
  }

  lemma SameElements(s: seq<real>, t: seq<real>)
    requires multiset(s) == multiset(t)
    ensures forall v :: v in s <==> v in t
  {
    assert forall v :: v in s <==> v in multiset(s);
    assert forall v :: v in t <==> v in multiset(t);
  }

  /** Strictly increasing, and exactly the values that were given. */
  lemma SortedSetCorrect(consts: seq<Datum>)
    ensures Increasing(SortedSet(consts))
    ensures forall v :: v in SortedSet(consts) <==> Val(v) in consts
  {
    SortCorrect(NonNull(consts));
    SameElements(Sort(NonNull(consts)), NonNull(consts));
    DistinctCorrect(Sort(NonNull(consts)));
  }

  /** Nothing else is strictly increasing with these values. */
  lemma {:induction false} IncreasingUnique(s: seq<real>, t: seq<real>)
    requires Increasing(s) && Increasing(t)
    requires forall v :: v in s <==> v in t
    ensures s == t
  {
    assert |s| > 0 ==> s[0] in s;
    assert |t| > 0 ==> t[0] in t;
    if |s| > 0 && |t| > 0 {
      var a, b := |s| - 1, |t| - 1;
      var front, back := s[..a], t[..b];
      assert s[a] in s && t[b] in t;
      assert s[a] == t[b];
      assert s == front + [s[a]] && t == back + [t[b]];
      forall v ensures v in front <==> v in back {
        assert v in front <==> v in s && v != s[a];
        assert v in back <==> v in t && v != t[b];
      }
      IncreasingUnique(front, back);
    }
  }

  /** Split the constants into their values and a flag for NULL. */
  method StripNulls(consts: seq<Datum>) returns (values: seq<real>, includesNull: bool)
    ensures values == NonNull(consts)
    ensures includesNull <==> Null in consts
  {
    values := [];
    includesNull := false;
    for k := 0 to |consts|
      invariant values + NonNull(consts[k..]) == NonNull(consts)
      invariant includesNull <==> Null in consts[..k]
    {
      assert consts[k..][1..] == consts[k + 1..];
      assert consts[..k + 1] == consts[..k] + [consts[k]];
      if consts[k].Null? {
        includesNull := true;
      } else {
        values := values + [consts[k].v];
      }
    }
    assert consts[..|consts|] == consts;
  }

  /** Drop each value equal to the one before it. */
  method Deduplicate(sorted: seq<real>) returns (values: seq<real>)
    requires |sorted| > 0
    ensures values == Distinct(sorted)
  {
    var prev := sorted[0];
    values := [prev];
    for k := 1 to |sorted|
      invariant values == Distinct(sorted[..k]) && prev == sorted[k - 1]
    {
      assert sorted[..k + 1][..k] == sorted[..k];
      if sorted[k] != prev {
        prev := sorted[k];
        values := values + [prev];
      }
    }
    assert sorted[..|sorted|] == sorted;
  }

  /** The constructor; it reads the first sorted value, so some constant must not be NULL. */
  method BuildSortedSet(consts: seq<Datum>) returns (values: seq<real>, includesNull: bool)
    requires exists v :: Val(v) in consts
    ensures values == SortedSet(consts) && |values| > 0
    ensures includesNull <==> Null in consts
    ensures Increasing(values) && forall v :: v in values <==> Val(v) in consts
  {
    var nonNull;
    nonNull, includesNull := StripNulls(consts);
    var sorted := Sort(nonNull);
    SortCorrect(nonNull);
    SameElements(sorted, nonNull);
    values := Deduplicate(sorted);
    SortedSetCorrect(consts);
  }
}
