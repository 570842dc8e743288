/**
 How common table expressions (CTEs) are derived and required: maps of open producers and
 consumers (CCTEMap.cpp) and the requirements passed to the children of a plan (CCTEReq.cpp).
 */
module CteMaps {
  import opened Options
  import opened CteInfos

  datatype CteType = Producer | Consumer

  /** Properties of a producer's plan; only their identity matters here. */
  datatype Plan = Plan(id: int)

  datatype Entry = Entry(kind: CteType, plan: Option<Plan>)

  datatype ReqEntry = ReqEntry(kind: CteType, required: bool, plan: Option<Plan>)

  type Derived = map<Ulong, Entry>

  type Required = map<Ulong, ReqEntry>

  predicate Holds(m: Derived, id: Ulong, kind: CteType) {
    id in m && m[id].kind == kind
  }

  predicate Lists(r: Required, id: Ulong, kind: CteType) {
    id in r && r[id].kind == kind
  }

  // ----- What the operations compute

  /** An entry of one map stays open unless the other map holds the opposite end. */
  predicate StaysOpen(m1: Derived, m2: Derived, id: Ulong) {
    id in m1 && (id in m2 ==> m1[id].kind == m2[id].kind)
  }

  function Combine(m1: Derived, m2: Derived): Derived {
    map id: Ulong | id in m1.Keys + m2.Keys && (StaysOpen(m1, m2, id) || StaysOpen(m2, m1, id))
      :: if id in m1 then m1[id] else m2[id]
  }

  /** What the children of a plan derive together. */
  function CombineAll(ms: seq<Derived>): Derived {
    if ms == [] then map[] else Combine(CombineAll(ms[..|ms| - 1]), ms[|ms| - 1])
  }

  /** Every required CTE is there with the required type, and every consumer there is listed. */
  ghost predicate Satisfies(m: Derived, r: Required) {
    && (forall id | id in r && r[id].required :: Holds(m, id, r[id].kind))
    && (forall id | Holds(m, id, Consumer) :: Lists(r, id, Consumer))
  }

  function Unresolved(r: Required, m: Derived): Required {
    map id | id in r :: r[id].(required := r[id].required && id !in m)
  }

  function AllOptional(r: Required): Required {
    map id | id in r :: r[id].(required := false)
  }

  /** The producers of the first children for which the last child of a sequence must bring the consumer. */
  function NeedConsumer(r: Required, m: Derived): set<Ulong> {
    set id | id in m && m[id].kind == Producer && !Lists(r, id, Consumer)
  }

  function PlanIn(m: Derived, id: Ulong): Option<Plan> {
    if id in m then m[id].plan else None
  }

  ghost predicate OnlyProducer(m: Derived, id: Ulong) {
    forall k :: Holds(m, k, Producer) <==> k == id
  }

  function UnresolvedSequence(r: Required, m: Derived, context: Derived): Required {
    map id: Ulong | id in r.Keys + NeedConsumer(r, m) ::
      if id in NeedConsumer(r, m) then ReqEntry(Consumer, true, PlanIn(context, id))
      else r[id].(required := r[id].required && id !in m)
  }

  /** What a sequence operator relies on: required CTEs are only found as consumers, and only producers are produced. */
  ghost predicate SequenceReady(r: Required, m: Derived) {
    && (forall id | id in r && r[id].required && id in m :: Lists(r, id, Consumer) && Holds(m, id, Consumer))
    && (forall id | id in r && !r[id].required && id in m && r[id].kind == Producer :: Holds(m, id, Producer))
    && (forall id | Holds(m, id, Producer) :: !Lists(r, id, Consumer))
  }

  // ----- Composition

  /** Combining keeps an id iff exactly one map holds it or both hold it with the same type. */
  lemma CombineKeeps(m1: Derived, m2: Derived, id: Ulong, kind: CteType)
    ensures Holds(Combine(m1, m2), id, kind) <==>
      (Holds(m1, id, kind) && (id in m2 ==> Holds(m2, id, kind))) || (id !in m1 && Holds(m2, id, kind))
    ensures id in Combine(m1, m2) <==> (id in m1 <==> id !in m2) || (id in m1 && id in m2 && m1[id].kind == m2[id].kind)
  {
  }

  /** Whatever is kept is the first map's entry, or the second's where the first has none. */
  lemma CombineKeepsEntry(m1: Derived, m2: Derived, id: Ulong)
    requires id in Combine(m1, m2)
    ensures id in m1 || id in m2
    ensures Combine(m1, m2)[id] == if id in m1 then m1[id] else m2[id]
  {
  }

  /** Every consumer there is listed. */
  ghost predicate ConsumersListed(m: Derived, r: Required) {
    forall id | Holds(m, id, Consumer) :: Lists(r, id, Consumer)
  }

  /** What optional requirements demand: only that consumers are listed. */
  lemma OptionalDemands(r: Required, m: Derived)
    ensures Satisfies(m, AllOptional(r)) <==> ConsumersListed(m, r)
  {
    assert forall id :: Lists(AllOptional(r), id, Consumer) <==> Lists(r, id, Consumer);
  }

  /** What is left demands: that consumers are listed, and each required CTE that the first map lacks is there. */
  lemma UnresolvedDemands(r: Required, m1: Derived, m2: Derived)
    ensures Satisfies(m2, Unresolved(r, m1)) <==>
      ConsumersListed(m2, r) && forall id | id in r && r[id].required && id !in m1 :: Holds(m2, id, r[id].kind)
  {
    var u := Unresolved(r, m1);
    assert forall id :: Lists(u, id, Consumer) <==> Lists(r, id, Consumer);
    assert forall id :: id in u && u[id].required <==> id in r && r[id].required && id !in m1;
  }

  /** It demands no more than is needed: a map that completes the requirements satisfies what was left. */
  lemma UnresolvedIsNeeded(r: Required, m1: Derived, m2: Derived)
    requires Satisfies(Combine(m1, m2), r) && ConsumersListed(m2, r)
    ensures Satisfies(m2, Unresolved(r, m1))
  {
    forall id | id in r && r[id].required && id !in m1 ensures Holds(m2, id, r[id].kind) {
      CombineKeeps(m1, m2, id, r[id].kind);
    }
    UnresolvedDemands(r, m1, m2);
  }

  /** A required consumer that a child holds as a producer: the one way for composition to go wrong. */
  ghost predicate Clash(r: Required, m: Derived) {
    exists id :: id in r && r[id].required && r[id].kind == Consumer && Holds(m, id, Producer)
  }

  /**
   When the first map satisfies the optional requirements and the second what the first left
   unresolved, together they satisfy the requirements exactly when neither brings the producer
   of a required consumer.
   */
  lemma Composition(r: Required, m1: Derived, m2: Derived)
    requires Satisfies(m1, AllOptional(r))
    requires Satisfies(m2, Unresolved(r, m1))
    ensures Satisfies(Combine(m1, m2), r) <==> !Clash(r, m1) && !Clash(r, m2)
  {
    var c, u := Combine(m1, m2), Unresolved(r, m1);
    forall id | Holds(c, id, Consumer) ensures Lists(r, id, Consumer) {
      CombineKeeps(m1, m2, id, Consumer);
      assert Holds(m1, id, Consumer) ==> Lists(AllOptional(r), id, Consumer);
      assert Holds(m2, id, Consumer) ==> Lists(u, id, Consumer);
    }
    if !Clash(r, m1) && !Clash(r, m2) {
      forall id | id in r && r[id].required ensures Holds(c, id, r[id].kind) {
        RequiredIsKept(r, m1, m2, id);
      }
    }
    if id :| id in r && r[id].required && r[id].kind == Consumer && Holds(m1, id, Producer) {
      CombineKeeps(m1, m2, id, Consumer);
      assert !Holds(c, id, r[id].kind);
    }
    if id :| id in r && r[id].required && r[id].kind == Consumer && Holds(m2, id, Producer) {
      CombineKeeps(m1, m2, id, Consumer);
      assert !Holds(c, id, r[id].kind);
    }
  }

  /** So, without such producers, the requirements are met exactly when the second map satisfies what was left. */
  lemma CompositionIff(r: Required, m1: Derived, m2: Derived)
    requires ConsumersListed(m1, r) && ConsumersListed(m2, r) && !Clash(r, m1) && !Clash(r, m2)
    ensures Satisfies(Combine(m1, m2), r) <==> Satisfies(m2, Unresolved(r, m1))
  {
    OptionalDemands(r, m1);
    if Satisfies(m2, Unresolved(r, m1)) {
      Composition(r, m1, m2);
    } else if Satisfies(Combine(m1, m2), r) {
      UnresolvedIsNeeded(r, m1, m2);
    }
  }

  lemma RequiredIsKept(r: Required, m1: Derived, m2: Derived, id: Ulong)
    requires Satisfies(m1, AllOptional(r))
    requires Satisfies(m2, Unresolved(r, m1))
    requires id in r && r[id].required
    requires r[id].kind == Consumer ==> !Holds(m1, id, Producer) && !Holds(m2, id, Producer)
    ensures Holds(Combine(m1, m2), id, r[id].kind)
  {
    var u := Unresolved(r, m1);
    assert u[id].required <==> id !in m1;
    assert Holds(m1, id, Consumer) ==> Lists(AllOptional(r), id, Consumer);
    assert Holds(m2, id, Consumer) ==> Lists(u, id, Consumer);
    CombineKeeps(m1, m2, id, r[id].kind);
  }

  /** The producer of a required consumer really breaks composition. */
  lemma ClashBreaksComposition()
    ensures exists r, m1, m2 ::
      Satisfies(m1, AllOptional(r)) && Satisfies(m2, Unresolved(r, m1)) && !Satisfies(Combine(m1, m2), r)
  {
    var p, c := Entry(Producer, Some(Plan(0))), Entry(Consumer, None);
    var r: Required := map[1 := ReqEntry(Consumer, true, Some(Plan(0)))];
    var m1: Derived, m2: Derived := map[1 := p], map[1 := c];
    assert r[1].required && !Holds(Combine(m1, m2), 1, r[1].kind);
    assert Satisfies(m1, AllOptional(r)) && Satisfies(m2, Unresolved(r, m1));
  }

  /** Children that satisfy the optional requirements still do when combined. */
  lemma {:induction false} OptionalComposes(r: Required, ms: seq<Derived>)
    requires forall k :: 0 <= k < |ms| ==> Satisfies(ms[k], AllOptional(r))
    ensures Satisfies(CombineAll(ms), AllOptional(r))
  {
    if ms != [] {
      var front, last := ms[..|ms| - 1], ms[|ms| - 1];
      OptionalComposes(r, front);
      forall id | Holds(CombineAll(ms), id, Consumer) ensures Lists(AllOptional(r), id, Consumer) {
        CombineKeeps(CombineAll(front), last, id, Consumer);
      }
    }
  }

  /** The same ids with the same types, whatever the plans. */
  ghost predicate SameKinds(m1: Derived, m2: Derived) {
    forall id, kind :: Holds(m1, id, kind) <==> Holds(m2, id, kind)
  }

  /** Combining commutes, except for the plan of an entry that both maps hold. */
  lemma CombineCommutes(m1: Derived, m2: Derived)
    ensures SameKinds(Combine(m1, m2), Combine(m2, m1))
    ensures Combine(m1, m2) == Combine(m2, m1) <==>
      forall id | id in m1 && id in m2 && m1[id].kind == m2[id].kind :: m1[id] == m2[id]
  {
    var c, d := Combine(m1, m2), Combine(m2, m1);
    assert forall id | id in m1 && id in m2 && m1[id].kind == m2[id].kind :: c[id] == m1[id] && d[id] == m2[id];
    assert c.Keys == d.Keys;
    if forall id | id in m1 && id in m2 && m1[id].kind == m2[id].kind :: m1[id] == m2[id] {
      assert forall id | id in c :: c[id] == d[id];
    }
  }

  /** Requirements do not look at plans. */
  lemma SatisfiesByKinds(m1: Derived, m2: Derived, r: Required)
    requires SameKinds(m1, m2)
    ensures Satisfies(m1, r) <==> Satisfies(m2, r)
  {
  }

  /**
   Joins that run their second child first: that child gets optional requirements and the first
   what is left, yet the first is still the one that is combined first.
   */
  lemma RightToLeftComposition(r: Required, first: Derived, second: Derived)
    requires Satisfies(second, AllOptional(r))
    requires Satisfies(first, Unresolved(r, CombineAll([second])))
    ensures Satisfies(CombineAll([first, second]), r) <==> !Clash(r, first) && !Clash(r, second)
  {
    assert [first, second][..1] == [first] && [first][..0] == [];
    assert CombineAll([first]) == first && CombineAll([second]) == second;
    Composition(r, second, first);
    CombineCommutes(first, second);
    SatisfiesByKinds(Combine(first, second), Combine(second, first), r);
  }

  lemma CombineLast(ms: seq<Derived>, last: Derived)
    ensures CombineAll(ms + [last]) == Combine(CombineAll(ms), last)
  {
    assert (ms + [last])[..|ms|] == ms;
  }

  /** An operator that runs its children in order: all but the last get optional requirements, the last what is left. */
  lemma NaryComposition(r: Required, ms: seq<Derived>, last: Derived)
    requires forall k :: 0 <= k < |ms| ==> Satisfies(ms[k], AllOptional(r))
    requires Satisfies(last, Unresolved(r, CombineAll(ms)))
    ensures Satisfies(CombineAll(ms + [last]), r) <==> !Clash(r, CombineAll(ms)) && !Clash(r, last)
  {
    OptionalComposes(r, ms);
    CombineLast(ms, last);
    Composition(r, CombineAll(ms), last);
  }

  /**
   The sequence operator: the last child consumes every producer of the first children, so
   none of them stays open, and the requirements are met exactly when the last child does not
   bring the producer of a required consumer.
   */
  lemma SequenceComposition(r: Required, ms: seq<Derived>, last: Derived, context: Derived)
    requires forall k :: 0 <= k < |ms| ==> Satisfies(ms[k], AllOptional(r))
    requires SequenceReady(r, CombineAll(ms))
    requires Satisfies(last, UnresolvedSequence(r, CombineAll(ms), context))
    ensures forall id :: Holds(CombineAll(ms), id, Producer) ==> id !in CombineAll(ms + [last])
    ensures Satisfies(CombineAll(ms + [last]), r) <==> !Clash(r, last)
  {
    OptionalComposes(r, ms);
    CombineLast(ms, last);
    SequenceOfTwo(r, CombineAll(ms), last, context);
  }

  /** It demands no more than is needed: a last child that completes the requirements and leaves no producer open. */
  lemma SequenceIsNeeded(r: Required, m: Derived, last: Derived, context: Derived)
    requires SequenceReady(r, m) && Satisfies(Combine(m, last), r)
    requires forall id :: Holds(m, id, Producer) ==> id !in Combine(m, last)
    requires forall id | Holds(last, id, Consumer) :: Lists(r, id, Consumer) || Holds(m, id, Producer)
    ensures Satisfies(last, UnresolvedSequence(r, m, context))
  {
    var u := UnresolvedSequence(r, m, context);
    forall id | id in u && u[id].required ensures Holds(last, id, u[id].kind) {
      if id in NeedConsumer(r, m) {
        assert id !in Combine(m, last);
      } else {
        CombineKeeps(m, last, id, r[id].kind);
      }
    }
    forall id | Holds(last, id, Consumer) ensures Lists(u, id, Consumer) {
      assert Holds(m, id, Producer) && !Lists(r, id, Consumer) ==> id in NeedConsumer(r, m);
    }
  }

  lemma SameEntries(r: Required, whole: Required)
    requires r.Keys == whole.Keys && forall id | id in r :: r[id] == whole[id]
    ensures r == whole
  {
  }

  lemma SequenceOfTwo(r: Required, m: Derived, last: Derived, context: Derived)
    requires Satisfies(m, AllOptional(r)) && SequenceReady(r, m)
    requires Satisfies(last, UnresolvedSequence(r, m, context))
    ensures forall id :: Holds(m, id, Producer) ==> id !in Combine(m, last)
    ensures Satisfies(Combine(m, last), r) <==> !Clash(r, last)
  {
    var u := UnresolvedSequence(r, m, context);
    forall id | Holds(m, id, Producer) ensures id !in Combine(m, last) {
      assert id in NeedConsumer(r, m) && u[id] == ReqEntry(Consumer, true, PlanIn(context, id));
      assert Holds(last, id, u[id].kind);
    }
    forall id | Holds(Combine(m, last), id, Consumer) ensures Lists(r, id, Consumer) {
      CombineKeeps(m, last, id, Consumer);
      assert Holds(m, id, Consumer) ==> Lists(AllOptional(r), id, Consumer);
      assert Holds(last, id, Consumer) ==> Lists(u, id, Consumer);
    }
    if !Clash(r, last) {
      forall id | id in r && r[id].required ensures Holds(Combine(m, last), id, r[id].kind) {
        assert id !in NeedConsumer(r, m);
        assert id !in m ==> u[id].required && Holds(last, id, u[id].kind);
      }
    } else {
      var id :| id in r && r[id].required && r[id].kind == Consumer && Holds(last, id, Producer);
      assert !Holds(Combine(m, last), id, r[id].kind);
    }
  }

  // ----- The objects

  class CteMap {
    var entries: Derived

    /** A producer always carries the properties of its plan. */
    ghost predicate Valid()
      reads this
    {
      forall id | id in entries :: entries[id].kind == Producer ==> entries[id].plan.Some?
    }

    constructor ()
      ensures entries == map[] && Valid()
    {
      entries := map[];
    }

    method Insert(id: Ulong, kind: CteType, plan: Option<Plan>)
      requires Valid() && id !in entries && (kind == Producer ==> plan.Some?)
      modifies this
      ensures Valid() && entries == old(entries)[id := Entry(kind, plan)]
    {
      entries := entries[id := Entry(kind, plan)];
    }

    /** The plan properties and the id of some producer, if there is one. */
    method PdpplanProducer() returns (found: Option<Ulong>, plan: Option<Plan>)
      requires Valid()
      ensures found.None? <==> forall id :: !Holds(entries, id, Producer)
      ensures found.Some? ==> Holds(entries, found.value, Producer) && plan == entries[found.value].plan
      ensures found.Some? <==> plan.Some?
    {
      found, plan := None, None;
      var rest := entries.Keys;
      while found.None? && rest != {}
        invariant rest <= entries.Keys && (found.Some? <==> plan.Some?)
        invariant found.None? ==> forall id | id in entries && entries[id].kind == Producer :: id in rest
        invariant found.Some? ==> Holds(entries, found.value, Producer) && plan == entries[found.value].plan
        decreases rest
      {
        var id :| id in rest;
        if entries[id].kind == Producer {
          found, plan := Some(id), entries[id].plan;
        }
        rest := rest - {id};
      }
    }

    /** Add what stays open in the first map given the second, skipping what the result has already. */
    static method AddUnresolved(first: CteMap, second: CteMap, result: CteMap)
      requires first.Valid() && result.Valid() && result != first && result != second
      modifies result
      ensures result.Valid()
      ensures result.entries.Keys ==
        old(result.entries).Keys + set id | id in first.entries && StaysOpen(first.entries, second.entries, id)
      ensures forall id | id in result.entries ::
        result.entries[id] == if id in old(result.entries) then old(result.entries)[id] else first.entries[id]
    {
      var rest := first.entries.Keys;
      while rest != {}
        invariant rest <= first.entries.Keys && result.Valid()
        invariant first.entries == old(first.entries) && second.entries == old(second.entries)
        invariant Added(first.entries, second.entries, old(result.entries), result.entries, rest)
        decreases rest
      {
        var id :| id in rest;
        var entry := first.entries[id];
        if id !in result.entries && (id !in second.entries || entry.kind == second.entries[id].kind) {
          result.Insert(id, entry.kind, entry.plan);
        }
        rest := rest - {id};
      }
    }

    /** The two maps combined: matching ends resolve each other. */
    static method PcmCombine(first: CteMap, second: CteMap) returns (result: CteMap)
      requires first.Valid() && second.Valid()
      ensures fresh(result) && result.Valid()
      ensures result.entries == Combine(first.entries, second.entries)
    {
      result := new CteMap();
      AddUnresolved(first, second, result);
      AddUnresolved(second, first, result);
    }

    /** Whether every entry is also in the other map with the same type. */
    method FSubset(other: CteMap) returns (b: bool)
      ensures b <==> forall id | id in entries :: Holds(other.entries, id, entries[id].kind)
    {
      if |entries| > |other.entries| {
        ghost var ok := forall id | id in entries :: Holds(other.entries, id, entries[id].kind);
        if ok {
          FewerUnused(entries.Keys, other.entries.Keys);
        }
        return false;
      }
      var rest := entries.Keys;
      while rest != {}
        invariant rest <= entries.Keys
        invariant forall id | id in entries && id !in rest :: Holds(other.entries, id, entries[id].kind)
        decreases rest
      {
        var id :| id in rest;
        if id !in other.entries || other.entries[id].kind != entries[id].kind {
          return false;
        }
        rest := rest - {id};
      }
      return true;
    }

    /** Decides whether this map satisfies the requirements. */
    method FSatisfies(req: CteReq) returns (b: bool)
      requires req.Valid()
      ensures b <==> Satisfies(entries, req.entries)
    {
      for k := 0 to |req.required|
        invariant forall j :: 0 <= j < k ==> Holds(entries, req.required[j], req.entries[req.required[j]].kind)
      {
        var id := req.required[k];
        assert id in req.required;
        var kind := req.Ect(id);
        if id !in entries || entries[id].kind != kind {
          return false;
        }
      }
      var rest := entries.Keys;
      while rest != {}
        invariant rest <= entries.Keys
        invariant forall id | id in entries && id !in rest && entries[id].kind == Consumer ::
          Lists(req.entries, id, Consumer)
        decreases rest
      {
        var id :| id in rest;
        if entries[id].kind == Consumer && !req.FContainsRequirement(id, Consumer) {
          return false;
        }
        rest := rest - {id};
      }
      return true;
    }

    /** The producers here that the requirements do not list as producers, each once. */
    method PdrgpulAdditionalProducers(req: CteReq) returns (ids: seq<Ulong>)
      ensures forall id :: id in ids <==> Holds(entries, id, Producer) && !Lists(req.entries, id, Producer)
      ensures forall j, k :: 0 <= j < k < |ids| ==> ids[j] != ids[k]
    {
      ids := [];
      var rest := entries.Keys;
      while rest != {}
        invariant rest <= entries.Keys
        invariant forall id ::
          id in ids <==> id !in rest && Holds(entries, id, Producer) && !Lists(req.entries, id, Producer)
        invariant forall j, k :: 0 <= j < k < |ids| ==> ids[j] != ids[k]
        decreases rest
      {
        var id :| id in rest;
        if entries[id].kind == Producer && !req.FContainsRequirement(id, Producer) {
          ids := ids + [id];
        }
        rest := rest - {id};
      }
    }
  }

  /** The result once every entry of the first map but `rest` is visited. */
  ghost predicate Added(first: Derived, second: Derived, was: Derived, now: Derived, rest: set<Ulong>) {
    && (forall id :: id in now <==> id in was || (id !in rest && StaysOpen(first, second, id)))
    && (forall id | id in now :: now[id] == if id in was then was[id] else first[id])
  }

  lemma SomeMember(ids: seq<Ulong>)
    ensures ids == [] || exists id :: id in ids
  {
    if ids != [] {
      assert ids[0] in ids;
    }
  }

  class CteReq {
    var entries: Required
    /** The ids that are required, not optional. */
    var required: seq<Ulong>

    ghost predicate Valid()
      reads this
    {
      && (forall id :: id in required <==> id in entries && entries[id].required)
      && (forall j, k :: 0 <= j < k < |required| ==> required[j] != required[k])
      && (forall id | id in entries :: entries[id].plan.None? ==> entries[id].kind == Producer)
    }

    constructor ()
      ensures Valid() && entries == map[]
    {
      entries, required := map[], [];
    }

    method Insert(id: Ulong, kind: CteType, fRequired: bool, plan: Option<Plan>)
      requires Valid() && id !in entries && (plan.None? ==> kind == Producer)
      modifies this
      ensures Valid() && entries == old(entries)[id := ReqEntry(kind, fRequired, plan)]
    {
      entries := entries[id := ReqEntry(kind, fRequired, plan)];
      if fRequired {
        required := required + [id];
      }
    }

    predicate FContainsRequirement(id: Ulong, kind: CteType)
      reads this
    {
      Lists(entries, id, kind)
    }

    function Ect(id: Ulong): CteType
      requires id in entries
      reads this
    {
      entries[id].kind
    }

    /** What is left to require once the given map is derived. */
    method PcterUnresolved(pcm: CteMap) returns (result: CteReq)
      requires Valid()
      ensures fresh(result) && result.Valid() && result.entries == Unresolved(entries, pcm.entries)
    {
      result := new CteReq();
      var rest := entries.Keys;
      while rest != {}
        invariant rest <= entries.Keys && fresh(result) && result.Valid()
        invariant entries == old(entries) && pcm.entries == old(pcm.entries)
        invariant CopiedFrom(Unresolved(entries, pcm.entries), result.entries, entries.Keys - rest)
        decreases rest
      {
        var id :| id in rest;
        var entry := entries[id];
        result.Insert(id, entry.kind, entry.required && id !in pcm.entries, entry.plan);
        rest := rest - {id};
      }
    }

    /** Require the consumer of the one producer in the given context. */
    method InsertConsumer(id: Ulong, context: CteMap)
      requires Valid() && id !in entries
      requires context.Valid() && OnlyProducer(context.entries, id)
      modifies this
      ensures Valid() && entries == old(entries)[id := ReqEntry(Consumer, true, PlanIn(context.entries, id))]
    {
      var found, plan := context.PdpplanProducer();
      assert Holds(context.entries, id, Producer);
      Insert(id, Consumer, true, plan);
    }

    /** What the last child of a sequence must bring: what is left, and a consumer for each producer found. */
    method PcterUnresolvedSequence(pcm: CteMap, context: CteMap) returns (result: CteReq)
      requires Valid() && context.Valid() && SequenceReady(entries, pcm.entries)
      requires forall id | id in NeedConsumer(entries, pcm.entries) :: OnlyProducer(context.entries, id)
      ensures fresh(result) && result.Valid()
      ensures result.entries == UnresolvedSequence(entries, pcm.entries, context.entries)
    {
      result := ListedInSequence(pcm, context);
      var ids := pcm.PdrgpulAdditionalProducers(this);
      result.InsertConsumers(ids, context);
      SameEntries(result.entries, UnresolvedSequence(entries, pcm.entries, context.entries));
    }

    /** The part of it for the CTEs that are listed already. */
    method ListedInSequence(pcm: CteMap, context: CteMap) returns (result: CteReq)
      requires Valid() && context.Valid() && SequenceReady(entries, pcm.entries)
      requires forall id | id in NeedConsumer(entries, pcm.entries) :: OnlyProducer(context.entries, id)
      ensures fresh(result) && result.Valid()
      ensures CopiedFrom(UnresolvedSequence(entries, pcm.entries, context.entries), result.entries, entries.Keys)
    {
      result := new CteReq();
      ghost var whole := UnresolvedSequence(entries, pcm.entries, context.entries);
      var rest := entries.Keys;
      while rest != {}
        invariant rest <= entries.Keys && fresh(result) && result.Valid()
        invariant entries == old(entries) && pcm.entries == old(pcm.entries) && context.entries == old(context.entries)
        invariant CopiedFrom(whole, result.entries, entries.Keys - rest)
        decreases rest
      {
        var id :| id in rest;
        var entry := entries[id];
        if entry.required && id in pcm.entries {
          result.Insert(id, entry.kind, false, entry.plan);
        } else if !entry.required && entry.kind == Producer && id in pcm.entries {
          result.InsertConsumer(id, context);
        } else {
          result.Insert(id, entry.kind, entry.required, entry.plan);
        }
        rest := rest - {id};
      }
    }

    /** Require the consumer of each of the given producers. */
    method InsertConsumers(ids: seq<Ulong>, context: CteMap)
      requires Valid() && context.Valid()
      requires forall id | id in ids :: id !in entries && OnlyProducer(context.entries, id)
      requires forall j, k :: 0 <= j < k < |ids| ==> ids[j] != ids[k]
      modifies this
      ensures Valid() && entries.Keys == old(entries.Keys) + Members(ids)
      ensures forall id | id in old(entries) :: entries[id] == old(entries)[id]
      ensures forall id | id in ids :: entries[id] == ReqEntry(Consumer, true, PlanIn(context.entries, id))
    {
      for k := 0 to |ids|
        invariant Valid() && entries.Keys == old(entries.Keys) + Members(ids[..k])
        invariant forall id | id in old(entries) :: entries[id] == old(entries)[id]
        invariant forall id | id in ids[..k] :: entries[id] == ReqEntry(Consumer, true, PlanIn(context.entries, id))
      {
        assert ids[..k + 1] == ids[..k] + [ids[k]];
        assert ids[k] in ids;
        InsertConsumer(ids[k], context);
      }
      assert ids[..|ids|] == ids;
    }

    method PcterAllOptional() returns (result: CteReq)
      requires Valid()
      ensures fresh(result) && result.Valid() && result.entries == AllOptional(entries) && result.required == []
    {
      result := new CteReq();
      var rest := entries.Keys;
      while rest != {}
        invariant rest <= entries.Keys && fresh(result) && result.Valid()
        invariant entries == old(entries)
        invariant CopiedFrom(AllOptional(entries), result.entries, entries.Keys - rest)
        decreases rest
      {
        var id :| id in rest;
        var entry := entries[id];
        result.Insert(id, entry.kind, false, entry.plan);
        rest := rest - {id};
      }
      SomeMember(result.required);
    }
  }

  /** The part of the map that belongs to the given ids. */
  ghost predicate CopiedFrom(whole: Required, now: Required, visited: set<Ulong>) {
    now.Keys == visited && visited <= whole.Keys && (forall id | id in now :: now[id] == whole[id])
  }
}
