/**
 Counting partition propagators: which partitioned scans still wait for how many partition
 selectors (CPartIndexMap.cpp).
 */
module PartIndexMaps {
  import opened Options
  import opened CteInfos

  datatype Manipulator = Propagator | Consumer | Resolver

  /** How a scan id is manipulated, and for a consumer how many propagators it expects (32 bits wide). */
  datatype PartInfo = PartInfo(kind: Manipulator, expected: Ulong)

  type PartMap = map<Ulong, PartInfo>

  /** A part constraint; only its identity matters here. */
  datatype PartCnstr = PartCnstr(id: int)

  /** The part constraints of an entry, by secondary scan id. */
  type PartCnstrs = map<Ulong, PartCnstr>

  /** The part constraints of all entries. */
  type PartsMap = map<Ulong, PartCnstrs>

  const ULONG_MAX: Ulong := ULONG_LIMIT - 1

  function Consumers(m: PartMap): set<Ulong> {
    set id | id in m && m[id].kind == Consumer
  }

  function ZeroConsumers(m: PartMap): set<Ulong> {
    set id | id in m && m[id] == PartInfo(Consumer, 0)
  }

  /** Only consumers expect propagators. */
  ghost predicate WellExpected(m: PartMap) {
    forall id | id in m :: m[id].kind != Consumer ==> m[id].expected == 0
  }

  /** Two maps agree on what the consumers they share expect. */
  ghost predicate ConsumersAgree(m1: PartMap, m2: PartMap) {
    forall id | id in m1 && id in m2 && m1[id].kind == Consumer && m2[id].kind == Consumer ::
      m1[id].expected == m2[id].expected
  }

  // ----- Combining

  predicate Matches(a: PartInfo, b: PartInfo) {
    (a.kind == Propagator && b.kind == Consumer) || (a.kind == Consumer && b.kind == Propagator)
  }

  /** A consumer after one more propagator: one fewer expected, modulo the width; the last one resolves it. */
  function OneFewer(expected: Ulong): PartInfo {
    PartInfo(if expected == 1 then Resolver else Consumer, (expected + ULONG_MAX) % ULONG_LIMIT)
  }

  function CombineInfo(a: PartInfo, b: PartInfo): PartInfo {
    if Matches(a, b) then OneFewer(if a.kind == Consumer then a.expected else b.expected) else a
  }

  function CombineAt(m1: PartMap, m2: PartMap, id: Ulong): PartInfo
    requires id in m1 || id in m2
  {
    if id !in m1 then m2[id] else if id !in m2 then m1[id] else CombineInfo(m1[id], m2[id])
  }

  function Combine(m1: PartMap, m2: PartMap): PartMap {
    map id: Ulong | id in m1.Keys + m2.Keys :: CombineAt(m1, m2, id)
  }

  /** The maps of an operator's children are combined from left to right. */
  function CombineAll(m: PartMap, ms: seq<PartMap>): PartMap {
    if ms == [] then m else Combine(CombineAll(m, ms[..|ms| - 1]), ms[|ms| - 1])
  }

  /** How many of the maps hold the id as a propagator. */
  function Propagators(ms: seq<PartMap>, id: Ulong): nat {
    if ms == [] then 0
    else Propagators(ms[..|ms| - 1], id) + if id in ms[|ms| - 1] && ms[|ms| - 1][id].kind == Propagator then 1 else 0
  }

  /** How many propagators resolve a consumer; one that expects 0 waits for a whole counter's round. */
  function Rounds(expected: Ulong): nat {
    if expected == 0 then ULONG_LIMIT else expected
  }

  /** What a consumer becomes after n propagators. */
  function Awaiting(expected: Ulong, n: nat): PartInfo {
    var rounds := Rounds(expected);
    if n == 0 then PartInfo(Consumer, expected)
    else if n < rounds then PartInfo(Consumer, rounds - n)
    else PartInfo(Resolver, 0)
  }

  /** Wherever the id occurs it is a propagator. */
  ghost predicate OnlyPropagates(ms: seq<PartMap>, id: Ulong) {
    forall k :: 0 <= k < |ms| && id in ms[k] ==> ms[k][id].kind == Propagator
  }

  /**
   Folding any number of maps into one that holds a consumer: only the number of propagators
   counts, not their order nor where the maps without the id stand.
   */
  lemma {:induction false} FoldCounts(m: PartMap, ms: seq<PartMap>, id: Ulong, expected: Ulong, found: nat)
    requires id in m && m[id] == Awaiting(expected, found) && OnlyPropagates(ms, id)
    ensures id in CombineAll(m, ms)
    ensures CombineAll(m, ms)[id] == Awaiting(expected, found + Propagators(ms, id))
  {
    if ms != [] {
      var front, last := ms[..|ms| - 1], ms[|ms| - 1];
      FoldCounts(m, front, id, expected, found);
      var before, n := CombineAll(m, front)[id], found + Propagators(front, id);
      assert CombineAll(m, ms)[id] == if id in last then CombineInfo(before, last[id]) else before;
      AwaitingOneMore(expected, n);
    }
  }

  lemma AwaitingOneMore(expected: Ulong, n: nat)
    ensures var a := Awaiting(expected, n);
      Awaiting(expected, n + 1) == if a.kind == Consumer then OneFewer(a.expected) else a
  {
  }

  /** Propagators alone are not added up: any number of them is one entry. */
  lemma {:induction false} FoldPropagators(ms: seq<PartMap>, id: Ulong)
    requires OnlyPropagates(ms, id)
    ensures id in CombineAll(map[], ms) <==> Propagators(ms, id) > 0
    ensures id in CombineAll(map[], ms) ==> CombineAll(map[], ms)[id].kind == Propagator
  {
    if ms != [] {
      FoldPropagators(ms[..|ms| - 1], id);
    }
  }

  lemma {:induction false} CombineAllSplit(m: PartMap, front: seq<PartMap>, back: seq<PartMap>)
    ensures CombineAll(m, front + back) == CombineAll(CombineAll(m, front), back)
  {
    if back == [] {
      assert front + back == front;
    } else {
      var n := |back| - 1;
      assert (front + back)[..|front| + n] == front + back[..n];
      CombineAllSplit(m, front, back[..n]);
    }
  }

  /** The propagators that count for a consumer with these children before and behind it. */
  function Counted(front: seq<PartMap>, back: seq<PartMap>, id: Ulong): nat {
    (if Propagators(front, id) > 0 then 1 else 0) + Propagators(back, id)
  }

  /**
   What an operator derives for a scan whose consumer is in one child and its propagators in any
   others: those behind the consumer all count, those before it count once.
   */
  lemma DerivedEntry(front: seq<PartMap>, c: PartMap, back: seq<PartMap>, id: Ulong)
    requires OnlyPropagates(front, id) && OnlyPropagates(back, id) && id in c && c[id].kind == Consumer
    ensures var d := CombineAll(map[], front + [c] + back);
      id in d && d[id] == Awaiting(c[id].expected, Counted(front, back, id))
  {
    var m := CombineAll(map[], front + [c]);
    assert (front + [c])[..|front|] == front;
    FoldPropagators(front, id);
    AwaitingOneMore(c[id].expected, 0);
    FoldCounts(m, back, id, c[id].expected, if Propagators(front, id) > 0 then 1 else 0);
    CombineAllSplit(map[], front + [c], back);
  }

  /** The consumer's entry is as if every propagator, wherever it stands, had been counted. */
  ghost predicate AllCounted(front: seq<PartMap>, c: PartMap, back: seq<PartMap>, id: Ulong)
    requires id in c
  {
    var d := CombineAll(map[], front + [c] + back);
    id in d && d[id] == Awaiting(c[id].expected, Propagators(front, id) + Propagators(back, id))
  }

  /**
   All propagators count exactly when at most one comes before the consumer - or when what does
   count resolves it anyway.
   */
  lemma AllCountIff(front: seq<PartMap>, c: PartMap, back: seq<PartMap>, id: Ulong)
    requires OnlyPropagates(front, id) && OnlyPropagates(back, id) && id in c && c[id].kind == Consumer
    ensures AllCounted(front, c, back, id) <==>
      Propagators(front, id) <= 1 || 1 + Propagators(back, id) >= Rounds(c[id].expected)
  {
    DerivedEntry(front, c, back, id);
    var d := CombineAll(map[], front + [c] + back);
    CountedAll(d[id], c[id].expected, Propagators(front, id), Propagators(back, id));
  }

  lemma CountedAll(entry: PartInfo, expected: Ulong, before: nat, behind: nat)
    requires entry == Awaiting(expected, (if before > 0 then 1 else 0) + behind)
    ensures entry == Awaiting(expected, before + behind) <==> before <= 1 || 1 + behind >= Rounds(expected)
  {
    if before > 0 { AwaitingInjective(expected, 1 + behind, before + behind); }
  }

  /** Counts differ in what they leave, short of resolving the consumer. */
  lemma AwaitingInjective(expected: Ulong, n: nat, k: nat)
    requires n == k || 0 < n < k
    ensures Awaiting(expected, n) == Awaiting(expected, k) <==> n == k || n >= Rounds(expected)
  {
  }

  /** The documented case: a consumer that expects at least one propagator. */
  lemma DerivedFromPositive(front: seq<PartMap>, c: PartMap, back: seq<PartMap>, id: Ulong)
    requires OnlyPropagates(front, id) && OnlyPropagates(back, id)
    requires id in c && c[id].kind == Consumer && c[id].expected >= 1
    ensures var d, n := CombineAll(map[], front + [c] + back), Counted(front, back, id);
      id in d &&
      d[id] == if n < c[id].expected then PartInfo(Consumer, c[id].expected - n) else PartInfo(Resolver, 0)
  {
    DerivedEntry(front, c, back, id);
  }

  /** Whether a derived entry satisfies a required one. */
  predicate SatisfiesEntry(reqd: PartInfo, drvd: PartInfo) {
    || drvd.kind != Consumer
    || drvd.expected == ULONG_MAX
    || (drvd.expected != 0 && drvd.expected == reqd.expected)
  }

  /**
   Which folds satisfy a required consumer: all propagators found, exactly as many left as
   required, or the counter stands at its maximum.
   */
  lemma FoldSatisfies(front: seq<PartMap>, c: PartMap, back: seq<PartMap>, id: Ulong, reqd: PartInfo)
    requires OnlyPropagates(front, id) && OnlyPropagates(back, id) && id in c && c[id].kind == Consumer
    ensures id in CombineAll(map[], front + [c] + back)
    ensures var k, n := c[id].expected, Counted(front, back, id);
      SatisfiesEntry(reqd, CombineAll(map[], front + [c] + back)[id]) <==>
        if k == 0 then n >= ULONG_LIMIT || n == 1 || (n > 0 && reqd.expected == ULONG_LIMIT - n)
        else n >= k || k - n == ULONG_MAX || k - n == reqd.expected
  {
    DerivedEntry(front, c, back, id);
    AwaitingSatisfies(c[id].expected, Counted(front, back, id), reqd);
  }

  lemma AwaitingSatisfies(k: Ulong, n: nat, reqd: PartInfo)
    ensures SatisfiesEntry(reqd, Awaiting(k, n)) <==>
      if k == 0 then n >= ULONG_LIMIT || n == 1 || (n > 0 && reqd.expected == ULONG_LIMIT - n)
      else n >= k || k - n == ULONG_MAX || k - n == reqd.expected
  {
    var a := Awaiting(k, n);
    if k > n {
      assert a == PartInfo(Consumer, k - n);
    } else if k == 0 && 0 < n < ULONG_LIMIT {
      assert a == PartInfo(Consumer, ULONG_LIMIT - n);
    }
  }

  /** Combining two maps commutes exactly when every shared id is held alike or is a consumer and its propagator. */
  lemma CombineCommutesIff(m1: PartMap, m2: PartMap)
    ensures Combine(m1, m2) == Combine(m2, m1) <==>
      forall id | id in m1 && id in m2 :: m1[id] == m2[id] || Matches(m1[id], m2[id])
  {
    var c, d := Combine(m1, m2), Combine(m2, m1);
    assert c.Keys == d.Keys;
    forall id | id in m1 && id in m2
      ensures c[id] == d[id] <==> m1[id] == m2[id] || Matches(m1[id], m2[id])
    {
    }
    if forall id | id in m1 && id in m2 :: m1[id] == m2[id] || Matches(m1[id], m2[id]) {
      assert forall id | id in c :: c[id] == d[id];
    }
  }

  // ----- Part constraints

  /** Insertion of a key that is there already has no effect: the first map's part constraints win. */
  function Merge(first: PartCnstrs, second: PartCnstrs): PartCnstrs {
    second + first
  }

  ghost predicate Agree(first: PartCnstrs, second: PartCnstrs) {
    forall k | k in first && k in second :: first[k] == second[k]
  }

  /** The order matters exactly if two maps hold different constraints for one key, which the code asserts away. */
  lemma MergeCommutesIff(first: PartCnstrs, second: PartCnstrs)
    ensures Merge(first, second) == Merge(second, first) <==> Agree(first, second)
  {
    var c, d := Merge(first, second), Merge(second, first);
    assert forall k | k in first && k in second :: c[k] == first[k] && d[k] == second[k];
    assert c.Keys == d.Keys;
  }

  function CombineParts(first: PartsMap, second: PartsMap): PartsMap {
    map id: Ulong | id in first.Keys + second.Keys :: PartsAt(first, second, id)
  }

  function PartsAt(first: PartsMap, second: PartsMap, id: Ulong): PartCnstrs
    requires id in first || id in second
  {
    if id !in first then second[id] else if id !in second then first[id] else Merge(first[id], second[id])
  }

  /** The part constraints of an operator's children, combined from left to right. */
  function CombineAllParts(ps: seq<PartsMap>): PartsMap {
    if ps == [] then map[] else CombineParts(CombineAllParts(ps[..|ps| - 1]), ps[|ps| - 1])
  }

  /** The part constraint of an entry for a key. */
  function Part(p: PartsMap, id: Ulong, key: Ulong): Option<PartCnstr> {
    if id in p && key in p[id] then Some(p[id][key]) else None
  }

  /**
   Nothing is lost and nothing invented: an entry has a key's part constraint iff some child's
   entry has, and it is the one of the first child that has it.
   */
  lemma {:induction false} PartsConserved(ps: seq<PartsMap>, id: Ulong, key: Ulong)
    ensures var part := Part(CombineAllParts(ps), id, key);
      if part.None? then forall k | 0 <= k < |ps| :: Part(ps[k], id, key).None?
      else exists k :: 0 <= k < |ps| && Part(ps[k], id, key) == part && NoneBefore(ps, k, id, key)
  {
    if ps != [] {
      var front, last := ps[..|ps| - 1], ps[|ps| - 1];
      PartsConserved(front, id, key);
      PartOfBoth(CombineAllParts(front), last, id, key);
      if k :| 0 <= k < |front| && Part(front[k], id, key).Some? && NoneBefore(front, k, id, key) {
        assert ps[k] == front[k] && NoneBefore(ps, k, id, key);
      } else if Part(last, id, key).Some? {
        assert NoneBefore(ps, |ps| - 1, id, key);
      }
    }
  }

  ghost predicate NoneBefore(ps: seq<PartsMap>, k: nat, id: Ulong, key: Ulong)
    requires k <= |ps|
  {
    forall j | 0 <= j < k :: Part(ps[j], id, key).None?
  }

  lemma PartOfBoth(first: PartsMap, second: PartsMap, id: Ulong, key: Ulong)
    ensures Part(CombineParts(first, second), id, key) ==
      if Part(first, id, key).Some? then Part(first, id, key) else Part(second, id, key)
  {
  }

  // ----- The object

  class PartIndexMap {
    var entries: PartMap
    /** The part constraints of each entry. */
    var parts: PartsMap
    /** The number of unresolved entries. */
    var unresolved: Ulong
    /** The number of unresolved entries that expect no propagators. */
    var unresolvedZero: Ulong

    /** Over every run the first counter is the number of consumers, modulo its width. */
    ghost predicate Valid()
      reads this
    {
      unresolved == |Consumers(entries)| % ULONG_LIMIT && parts.Keys == entries.Keys
    }

    /** The second counter is exact; SetExpectedPropagators can break this. */
    ghost predicate ZeroExact()
      reads this
    {
      unresolvedZero == |ZeroConsumers(entries)| % ULONG_LIMIT
    }

    constructor ()
      ensures Valid() && ZeroExact() && entries == map[] && parts == map[]
    {
      entries, parts, unresolved, unresolvedZero := map[], map[], 0, 0;
    }

    /** A new entry is counted; one that exists keeps its type and expectation, and gets the part constraints added. */
    method Insert(id: Ulong, cnstrs: PartCnstrs, kind: Manipulator, expected: Ulong)
      requires Valid() && (id !in entries && kind != Consumer ==> expected == 0)
      modifies this
      ensures Valid() && (ZeroExact() <==> old(ZeroExact()))
      ensures entries == if id in old(entries) then old(entries) else old(entries)[id := PartInfo(kind, expected)]
      ensures parts == old(parts)[id := if id in old(entries) then Merge(old(parts)[id], cnstrs) else cnstrs]
    {
      if id !in entries {
        InsertNew(id, cnstrs, kind, expected);
      } else {
        var all := CopyPartConstraints(parts[id], cnstrs);
        parts := parts[id := all];
      }
    }

    method InsertNew(id: Ulong, cnstrs: PartCnstrs, kind: Manipulator, expected: Ulong)
      requires Valid() && id !in entries
      modifies this
      ensures Valid() && (ZeroExact() <==> old(ZeroExact()))
      ensures entries == old(entries)[id := PartInfo(kind, expected)] && parts == old(parts)[id := cnstrs]
    {
      InsertCounted(entries, id, PartInfo(kind, expected));
      OneMore(unresolved, |Consumers(entries)|);
      OneMore(unresolvedZero, |ZeroConsumers(entries)|);
      entries, parts := entries[id := PartInfo(kind, expected)], parts[id := cnstrs];
      if kind == Consumer {
        unresolved := (unresolved + 1) % ULONG_LIMIT;
        if expected == 0 {
          unresolvedZero := (unresolvedZero + 1) % ULONG_LIMIT;
        }
      }
    }

    /** Copy what the destination lacks. */
    static method CopyPartConstraints(dest: PartCnstrs, source: PartCnstrs) returns (res: PartCnstrs)
      ensures res == Merge(dest, source)
    {
      res := dest;
      var rest := source.Keys;
      while rest != {}
        invariant rest <= source.Keys
        invariant forall k :: k in res <==> k in dest || k in source.Keys - rest
        invariant forall k | k in res :: res[k] == if k in dest then dest[k] else source[k]
        decreases rest
      {
        var k :| k in rest;
        if k !in res {
          res := res[k := source[k]];
        }
        rest := rest - {k};
      }
      assert rest == {} && source.Keys - rest == source.Keys;
    }

    /** A map with the part constraints of both. */
    static method PpartcnstrmapCombine(first: PartCnstrs, second: PartCnstrs) returns (res: PartCnstrs)
      ensures res == Merge(first, second)
    {
      res := CopyPartConstraints(map[], first);
      res := CopyPartConstraints(res, second);
    }

    /**
     The expectation changes without the counters: the second counter stays exact iff this
     does not turn a consumer that expects none into one that does, or the other way round.
     */
    method SetExpectedPropagators(id: Ulong, expected: Ulong)
      requires Valid() && id in entries
      modifies this`entries
      ensures Valid() && entries == old(entries)[id := PartInfo(old(entries)[id].kind, expected)]
      ensures old(ZeroExact()) ==>
        (ZeroExact() <==> old(entries)[id].kind != Consumer || (old(entries)[id].expected == 0 <==> expected == 0))
    {
      SetCounted(entries, id, expected);
      entries := entries[id := entries[id].(expected := expected)];
    }

    /** What two entries for the same scan become; the last two parameters are what stays if neither feeds the other. */
    static method ResolvePropagator(first: PartInfo, second: PartInfo, kind: Manipulator, expected: Ulong)
      returns (kind': Manipulator, expected': Ulong)
      ensures Matches(first, second) ==> PartInfo(kind', expected') == CombineInfo(first, second)
      ensures !Matches(first, second) ==> kind' == kind && expected' == expected
    {
      kind', expected' := kind, expected;
      if first.kind == Propagator && second.kind == Consumer {
        if 0 < second.expected {
          expected' := second.expected - 1;
          kind' := if second.expected == 1 then Resolver else Consumer;
        } else {
          expected' := ULONG_MAX;
          kind' := Consumer;
        }
      } else if first.kind == Consumer && second.kind == Propagator {
        if 0 < first.expected {
          expected' := first.expected - 1;
          kind' := if first.expected == 1 then Resolver else Consumer;
        } else {
          expected' := ULONG_MAX;
          kind' := Consumer;
        }
      }
    }

    /** Add the entries of the first map, each as the second map leaves it, skipping what the result has already. */
    static method AddUnresolved(first: PartIndexMap, second: PartIndexMap, result: PartIndexMap)
      requires first.Valid() && second.Valid() && result.Valid() && result.ZeroExact()
      requires result != first && result != second
      requires WellExpected(first.entries) && WellExpected(second.entries)
      requires ConsumersAgree(first.entries, second.entries)
      modifies result
      ensures result.Valid() && result.ZeroExact()
      ensures Added(first.entries, second.entries, old(result.entries), result.entries, {})
      ensures AddedParts(first.parts, second.parts, old(result.parts), result.parts, {})
    {
      var rest := first.entries.Keys;
      while rest != {}
        invariant rest <= first.entries.Keys && first.Valid() && second.Valid() && result.Valid() && result.ZeroExact()
        invariant first.entries == old(first.entries) && second.entries == old(second.entries)
        invariant first.parts == old(first.parts) && second.parts == old(second.parts)
        invariant Added(first.entries, second.entries, old(result.entries), result.entries, rest)
        invariant AddedParts(first.parts, second.parts, old(result.parts), result.parts, rest)
        decreases rest
      {
        var id :| id in rest;
        AddedOneMore(first.entries, second.entries, old(result.entries), result.entries, rest, id);
        AddedPartsOneMore(first.parts, second.parts, old(result.parts), result.parts, rest, id);
        if id !in result.entries {
          AddEntry(first, second, result, id);
        }
        rest := rest - {id};
      }
    }

    /** Add one entry of the first map as the second map leaves it. */
    static method AddEntry(first: PartIndexMap, second: PartIndexMap, result: PartIndexMap, id: Ulong)
      requires first.Valid() && second.Valid() && result.Valid() && result.ZeroExact()
      requires result != first && result != second && id in first.entries && id !in result.entries
      requires WellExpected(first.entries) && WellExpected(second.entries)
      modifies result
      ensures result.Valid() && result.ZeroExact()
      ensures result.entries == old(result.entries)[id := CombineAt(first.entries, second.entries, id)]
      ensures result.parts == old(result.parts)[id := PartsAt(first.parts, second.parts, id)]
    {
      var kind, expected := first.entries[id].kind, first.entries[id].expected;
      var cnstrs := first.parts[id];
      if id in second.entries {
        kind, expected := ResolvePropagator(first.entries[id], second.entries[id], kind, expected);
        cnstrs := PpartcnstrmapCombine(cnstrs, second.parts[id]);
      }
      result.Insert(id, cnstrs, kind, expected);
    }

    /** Both maps combined; the counters of the result are exact again. */
    static method PpimCombine(first: PartIndexMap, second: PartIndexMap) returns (result: PartIndexMap)
      requires first.Valid() && second.Valid()
      requires WellExpected(first.entries) && WellExpected(second.entries)
      requires ConsumersAgree(first.entries, second.entries)
      ensures fresh(result) && result.Valid() && result.ZeroExact()
      ensures result.entries == Combine(first.entries, second.entries)
      ensures result.parts == CombineParts(first.parts, second.parts)
    {
      result := new PartIndexMap();
      AddUnresolved(first, second, result);
      ghost var entries, parts := result.entries, result.parts;
      AddUnresolved(second, first, result);
      AddedBoth(first.entries, second.entries, entries, result.entries);
      AddedPartsBoth(first.parts, second.parts, parts, result.parts);
    }

    /** Tells whether some consumer is left, unless their number is a multiple of the counter's range. */
    method FContainsUnresolved() returns (b: bool)
      requires Valid()
      ensures b ==> Consumers(entries) != {}
      ensures |Consumers(entries)| < ULONG_LIMIT ==> (b <==> Consumers(entries) != {})
    {
      b := unresolved != 0;
    }
  }

  /** The result once every entry of the first map but `rest` is visited. */
  ghost predicate Added(first: PartMap, second: PartMap, was: PartMap, now: PartMap, rest: set<Ulong>) {
    && now.Keys == was.Keys + (first.Keys - rest)
    && (forall id | id in now :: now[id] == if id in was then was[id] else CombineAt(first, second, id))
  }

  ghost predicate AddedParts(first: PartsMap, second: PartsMap, was: PartsMap, now: PartsMap, rest: set<Ulong>) {
    && now.Keys == was.Keys + (first.Keys - rest)
    && (forall id | id in now :: now[id] == if id in was then was[id] else PartsAt(first, second, id))
  }

  lemma AddedOneMore(first: PartMap, second: PartMap, was: PartMap, now: PartMap, rest: set<Ulong>, id: Ulong)
    requires Added(first, second, was, now, rest) && id in rest && rest <= first.Keys
    ensures Added(first, second, was, if id in now then now else now[id := CombineAt(first, second, id)], rest - {id})
  {
    assert first.Keys - (rest - {id}) == first.Keys - rest + {id};
  }

  lemma AddedPartsOneMore(
    first: PartsMap, second: PartsMap, was: PartsMap, now: PartsMap, rest: set<Ulong>, id: Ulong)
    requires AddedParts(first, second, was, now, rest) && id in rest && rest <= first.Keys
    ensures var next := if id in now then now else now[id := PartsAt(first, second, id)];
      AddedParts(first, second, was, next, rest - {id})
  {
    assert first.Keys - (rest - {id}) == first.Keys - rest + {id};
  }

  /** Adding either map's entries as the other leaves them gives both combined. */
  lemma AddedBoth(first: PartMap, second: PartMap, half: PartMap, all: PartMap)
    requires Added(first, second, map[], half, {}) && Added(second, first, half, all, {})
    ensures all == Combine(first, second)
  {
    assert all.Keys == Combine(first, second).Keys;
  }

  lemma AddedPartsBoth(first: PartsMap, second: PartsMap, half: PartsMap, all: PartsMap)
    requires AddedParts(first, second, map[], half, {}) && AddedParts(second, first, half, all, {})
    ensures all == CombineParts(first, second)
  {
    assert all.Keys == CombineParts(first, second).Keys;
  }

  lemma OneMore(counter: Ulong, n: nat)
    ensures (counter + 1) % ULONG_LIMIT == (n + 1) % ULONG_LIMIT <==> counter == n % ULONG_LIMIT
  {
  }

  lemma InsertCounted(m: PartMap, id: Ulong, info: PartInfo)
    requires id !in m
    ensures |Consumers(m[id := info])| == |Consumers(m)| + if info.kind == Consumer then 1 else 0
    ensures |ZeroConsumers(m[id := info])| == |ZeroConsumers(m)| + if info == PartInfo(Consumer, 0) then 1 else 0
  {
    CountWithout(Consumers(m), Consumers(m[id := info]), id);
    CountWithout(ZeroConsumers(m), ZeroConsumers(m[id := info]), id);
  }

  lemma SetCounted(m: PartMap, id: Ulong, expected: Ulong)
    requires id in m
    ensures var m' := m[id := m[id].(expected := expected)];
      && Consumers(m') == Consumers(m)
      && |ZeroConsumers(m')| + (if m[id] == PartInfo(Consumer, 0) then 1 else 0)
        == |ZeroConsumers(m)| + if m'[id] == PartInfo(Consumer, 0) then 1 else 0
  {
    var m' := m[id := m[id].(expected := expected)];
    assert Consumers(m') == Consumers(m);
    CountWithout(ZeroConsumers(m), ZeroConsumers(m'), id);
  }

  /** Two sets that differ in at most one element. */
  lemma CountWithout(s: set<Ulong>, t: set<Ulong>, id: Ulong)
    requires forall k :: k != id ==> (k in s <==> k in t)
    ensures |s| + (if id in t then 1 else 0) == |t| + if id in s then 1 else 0
  {
    var r := s - {id};
    assert r == t - {id};
    assert if id in s then s == r + {id} else s == r;
    assert if id in t then t == r + {id} else t == r;
  }
}
