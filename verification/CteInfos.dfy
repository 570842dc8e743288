/**
 Which common table expressions (CTEs) are used: consumer counters and the liveness
 worklist (CCTEInfo.cpp).
 */
module CteInfos {

  const ULONG_LIMIT := 0x1_0000_0000

  type Ulong = x: nat | x < ULONG_LIMIT

  /** The parent id that stands for the main query. */
  const MAIN: Ulong := ULONG_LIMIT - 1

  // ----- The consumer graph

  /** For every parent, the consumers inside it and how often they occur. */
  type Graph = map<Ulong, map<Ulong, nat>>

  predicate Edge(g: Graph, parent: Ulong, consumer: Ulong) {
    parent in g && consumer in g[parent]
  }

  function Members(s: seq<Ulong>): set<Ulong> {
    set id | id in s
  }

  function ConsumersIn(g: Graph, parent: Ulong): set<Ulong> {
    if parent in g then g[parent].Keys else {}
  }

  /** A chain of known CTEs, the first consumed in the main query, each consumed in the one before. */
  ghost predicate Chain(g: Graph, known: set<Ulong>, p: seq<Ulong>) {
    && |p| > 0 && Edge(g, MAIN, p[0])
    && (forall k :: 0 <= k < |p| ==> p[k] in known)
    && (forall k :: 0 < k < |p| ==> Edge(g, p[k - 1], p[k]))
  }

  ghost predicate Reachable(g: Graph, known: set<Ulong>, id: Ulong) {
    exists p :: Chain(g, known, p) && p[|p| - 1] == id
  }

  lemma ReachableStep(g: Graph, known: set<Ulong>, parent: Ulong, id: Ulong)
    requires id in known && Edge(g, parent, id)
    requires parent == MAIN || Reachable(g, known, parent)
    ensures Reachable(g, known, id)
  {
    if parent == MAIN {
      assert Chain(g, known, [id]) && [id][0] == id;
    } else {
      var p :| Chain(g, known, p) && p[|p| - 1] == parent;
      var q := p + [id];
      assert Chain(g, known, q) && q[|q| - 1] == id;
    }
  }

  /** A set that has the consumers of the main query and is closed under consumption has everything reachable. */
  lemma {:induction false} ClosedHasChain(g: Graph, known: set<Ulong>, live: set<Ulong>, p: seq<Ulong>)
    requires forall b :: b in known && Edge(g, MAIN, b) ==> b in live
    requires forall a, b :: a in live && b in known && Edge(g, a, b) ==> b in live
    requires Chain(g, known, p)
    ensures p[|p| - 1] in live
  {
    if |p| > 1 {
      var front := p[..|p| - 1];
      assert Chain(g, known, front);
      ClosedHasChain(g, known, live, front);
      assert Edge(g, p[|p| - 2], p[|p| - 1]);
    }
  }

  // ----- Counting references

  function RefsIn(g: Graph, parent: Ulong, id: Ulong): nat {
    if Edge(g, parent, id) then g[parent][id] else 0
  }

  /** All references to `id` inside the given parents. */
  ghost function RefsInAll(g: Graph, parents: set<Ulong>, id: Ulong): nat {
    if parents == {} then 0
    else
      var p :| p in parents;
      RefsIn(g, p, id) + RefsInAll(g, parents - {p}, id)
  }

  /** The sum does not depend on the order in which the parents are visited. */
  lemma {:induction false} RefsInAllSplit(g: Graph, parents: set<Ulong>, q: Ulong, id: Ulong)
    requires q in parents
    ensures RefsInAll(g, parents, id) == RefsIn(g, q, id) + RefsInAll(g, parents - {q}, id)
    decreases |parents|
  {
    var p :| p in parents && RefsInAll(g, parents, id) == RefsIn(g, p, id) + RefsInAll(g, parents - {p}, id);
    if p != q {
      RefsInAllSplit(g, parents - {p}, q, id);
      RefsInAllSplit(g, parents - {q}, p, id);
      assert parents - {p} - {q} == parents - {q} - {p};
    }
  }

  lemma {:induction false} RefsInAllPositive(g: Graph, parents: set<Ulong>, id: Ulong)
    requires forall p, c :: Edge(g, p, c) ==> g[p][c] > 0
    ensures RefsInAll(g, parents, id) > 0 <==> exists p :: p in parents && Edge(g, p, id)
    decreases |parents|
  {
    if parents != {} {
      var q :| q in parents;
      RefsInAllSplit(g, parents, q, id);
      RefsInAllPositive(g, parents - {q}, id);
      assert forall p :: p in parents <==> p == q || p in parents - {q};
    }
  }

  /** All references that count: in the main query and inside the used CTEs. */
  ghost function TotalRefs(g: Graph, used: set<Ulong>, id: Ulong): nat {
    RefsIn(g, MAIN, id) + RefsInAll(g, used, id)
  }

  /**
   When exactly the reachable CTEs are used, a known CTE is used iff it is referenced
   in the main query or inside some used CTE.
   */
  lemma UsedIffReferenced(g: Graph, known: set<Ulong>, used: set<Ulong>, id: Ulong)
    requires forall p, c :: Edge(g, p, c) ==> g[p][c] > 0
    requires forall k :: k in used <==> k in known && Reachable(g, known, k)
    requires id in known
    ensures id in used <==> TotalRefs(g, used, id) > 0
    ensures TotalRefs(g, used, id) < ULONG_LIMIT ==> (id in used <==> TotalRefs(g, used, id) % ULONG_LIMIT > 0)
    ensures id !in used ==> TotalRefs(g, used, id) % ULONG_LIMIT == 0
  {
    RefsInAllPositive(g, used, id);
    if Edge(g, MAIN, id) {
      ReachableStep(g, known, MAIN, id);
    }
    if p :| p in used && Edge(g, p, id) {
      ReachableStep(g, known, p, id);
    }
    if id in used {
      var c :| Chain(g, known, c) && c[|c| - 1] == id;
      if |c| > 1 {
        var front := c[..|c| - 1];
        assert Chain(g, known, front) && front[|front| - 1] == c[|c| - 2];
        assert c[|c| - 2] in used && Edge(g, c[|c| - 2], id);
      }
    }
  }

  /** Every counter holds the low 32 bits of what it counts. */
  ghost predicate Counted(counters: map<Ulong, map<Ulong, Ulong>>, g: Graph) {
    && g.Keys == counters.Keys
    && (forall p | p in g :: RowCounted(counters[p], g[p]))
  }

  ghost predicate RowCounted(row: map<Ulong, Ulong>, counts: map<Ulong, nat>) {
    && counts.Keys == row.Keys
    && (forall c | c in counts :: counts[c] > 0 && row[c] == counts[c] % ULONG_LIMIT)
  }

  /** The row of a parent after one more consumer inside it. */
  function RowWith(row: map<Ulong, nat>, consumer: Ulong): map<Ulong, nat> {
    row[consumer := if consumer in row then row[consumer] + 1 else 1]
  }

  function Row(g: Graph, parent: Ulong): map<Ulong, nat> {
    if parent in g then g[parent] else map[]
  }

  function Recorded(g: Graph, parent: Ulong, consumer: Ulong): Graph {
    g[parent := RowWith(Row(g, parent), consumer)]
  }

  /** Recording one consumer adds one reference and one edge, and changes no other count. */
  lemma RecordedAddsOne(g: Graph, parent: Ulong, consumer: Ulong)
    ensures forall p, c ::
      RefsIn(Recorded(g, parent, consumer), p, c) == RefsIn(g, p, c) + if p == parent && c == consumer then 1 else 0
    ensures forall p, c ::
      Edge(Recorded(g, parent, consumer), p, c) <==> Edge(g, p, c) || (p == parent && c == consumer)
  {
  }

  /** So it raises the references that count by one exactly if it is recorded in the main query or in a used CTE. */
  lemma RecordedCounts(g: Graph, used: set<Ulong>, parent: Ulong, consumer: Ulong, id: Ulong)
    requires MAIN !in used
    ensures TotalRefs(Recorded(g, parent, consumer), used, id) ==
      TotalRefs(g, used, id) + if id == consumer && (parent == MAIN || parent in used) then 1 else 0
  {
    RecordedInAll(g, used, parent, consumer, id);
  }

  lemma {:induction false} RecordedInAll(g: Graph, used: set<Ulong>, parent: Ulong, consumer: Ulong, id: Ulong)
    ensures RefsInAll(Recorded(g, parent, consumer), used, id) ==
      RefsInAll(g, used, id) + if id == consumer && parent in used then 1 else 0
    decreases |used|
  {
    if used != {} {
      var q :| q in used;
      RefsInAllSplit(g, used, q, id);
      RefsInAllSplit(Recorded(g, parent, consumer), used, q, id);
      RecordedInAll(g, used - {q}, parent, consumer, id);
    }
  }

  // ----- The worklist

  /**
   What has been done once every consumer but `rest` is visited: the visited ones with a set bit
   are pushed and cleared.
   */
  ghost predicate Found(consumers: set<Ulong>, rest: set<Ulong>, unused: set<Ulong>, stack: seq<Ulong>,
    left: set<Ulong>, pushed: seq<Ulong>)
  {
    && rest <= consumers && left == unused - (consumers - rest)
    && stack <= pushed && Members(pushed[|stack|..]) == unused * (consumers - rest)
    && |pushed| + |left| == |stack| + |unused|
  }

  lemma FoundNone(consumers: set<Ulong>, unused: set<Ulong>, stack: seq<Ulong>)
    ensures Found(consumers, consumers, unused, stack, unused, stack)
  {
    assert consumers - consumers == {};
    assert unused - {} == unused;
  }

  lemma FoundOne(consumers: set<Ulong>, rest: set<Ulong>, unused: set<Ulong>, stack: seq<Ulong>,
    left: set<Ulong>, pushed: seq<Ulong>, id: Ulong)
    requires Found(consumers, rest, unused, stack, left, pushed) && id in rest
    ensures id in left ==> Found(consumers, rest - {id}, unused, stack, left - {id}, pushed + [id])
    ensures id !in left ==> Found(consumers, rest - {id}, unused, stack, left, pushed)
  {
    assert consumers - (rest - {id}) == consumers - rest + {id};
    if id in left {
      FoundSet(consumers, rest, unused, stack, left, pushed, id);
    } else {
      assert left == unused - (consumers - rest + {id});
      assert unused * (consumers - rest + {id}) == unused * (consumers - rest);
    }
  }

  /** The consumer's bit is set: it is cleared, and the consumer pushed. */
  lemma FoundSet(consumers: set<Ulong>, rest: set<Ulong>, unused: set<Ulong>, stack: seq<Ulong>,
    left: set<Ulong>, pushed: seq<Ulong>, id: Ulong)
    requires Found(consumers, rest, unused, stack, left, pushed) && id in rest && id in left
    ensures Found(consumers, rest - {id}, unused, stack, left - {id}, pushed + [id])
  {
    assert consumers - (rest - {id}) == consumers - rest + {id};
    assert left - {id} == unused - (consumers - rest + {id});
    assert (pushed + [id])[|stack|..] == pushed[|stack|..] + [id];
    assert Members(pushed[|stack|..] + [id]) == Members(pushed[|stack|..]) + {id};
    assert unused * (consumers - rest + {id}) == unused * (consumers - rest) + {id};
    assert |left - {id}| == |left| - 1;
  }

  lemma FoundAll(consumers: set<Ulong>, unused: set<Ulong>, stack: seq<Ulong>, left: set<Ulong>, pushed: seq<Ulong>)
    requires Found(consumers, {}, unused, stack, left, pushed)
    ensures left == unused - consumers
    ensures pushed == stack + pushed[|stack|..] && Members(pushed[|stack|..]) == unused * consumers
    ensures left <= unused && |left| <= |unused| && |pushed| + |left| == |stack| + |unused|
  {
    assert consumers - {} == consumers;
    FewerUnused(left, unused);
  }

  /** Every cleared CTE is reachable, and its consumers are cleared unless it is still on the stack. */
  ghost predicate Worklist(g: Graph, known: set<Ulong>, unused: set<Ulong>, stack: seq<Ulong>) {
    && unused <= known && Members(stack) <= known - unused
    && (forall id | id in known - unused :: Reachable(g, known, id))
    && unused !! ConsumersIn(g, MAIN)
    && (forall a | a in known - unused && a !in Members(stack) :: unused !! ConsumersIn(g, a))
  }

  lemma WorklistStart(g: Graph, known: set<Ulong>, stack: seq<Ulong>)
    requires Members(stack[0..]) == known * ConsumersIn(g, MAIN)
    ensures Worklist(g, known, known - ConsumersIn(g, MAIN), stack)
  {
    assert stack[0..] == stack;
    forall id | id in known * ConsumersIn(g, MAIN) ensures Reachable(g, known, id) {
      ReachableStep(g, known, MAIN, id);
    }
  }

  lemma WorklistStep(g: Graph, known: set<Ulong>, unused: set<Ulong>, rest: seq<Ulong>, id: Ulong, pushed: seq<Ulong>)
    requires Worklist(g, known, unused, rest + [id])
    requires Members(pushed) == unused * ConsumersIn(g, id)
    ensures Worklist(g, known, unused - ConsumersIn(g, id), rest + pushed)
  {
    assert Members(rest + [id]) == Members(rest) + {id};
    assert Members(rest + pushed) == Members(rest) + Members(pushed);
    assert id in Members(rest + [id]);
    forall b | b in unused * ConsumersIn(g, id) ensures Reachable(g, known, b) {
      ReachableStep(g, known, id, b);
    }
  }

  /** With an empty stack the cleared CTEs are exactly the reachable ones. */
  lemma WorklistEnd(g: Graph, known: set<Ulong>, unused: set<Ulong>, stack: seq<Ulong>)
    requires Worklist(g, known, unused, stack) && stack == []
    ensures forall id | id in known :: id !in unused <==> Reachable(g, known, id)
  {
    forall id | id in known && Reachable(g, known, id) ensures id !in unused {
      var p :| Chain(g, known, p) && p[|p| - 1] == id;
      forall a, b | a in known - unused && b in known && Edge(g, a, b) ensures b in known - unused {
        assert a !in Members(stack);
      }
      ClosedHasChain(g, known, known - unused, p);
    }
  }

  // ----- The object

  class CteInfo {
    /** The known CTEs, each with its "used" flag. */
    var entries: map<Ulong, bool>
    /** The counters, which are 32 bits wide. */
    var counters: map<Ulong, map<Ulong, Ulong>>
    /** How often each consumer was really recorded. */
    ghost var refs: Graph

    ghost predicate Valid()
      reads this
    {
      Counted(counters, refs)
    }

    ghost function Known(): set<Ulong>
      reads this
    {
      entries.Keys
    }

    ghost function Used(): set<Ulong>
      reads this
    {
      set id | id in entries && entries[id]
    }

    constructor ()
      ensures Valid() && entries == map[] && refs == map[]
    {
      entries, counters, refs := map[], map[], map[];
    }

    /** A new CTE starts as used. */
    method AddCTEProducer(id: Ulong)
      requires Valid() && id !in entries
      modifies this`entries
      ensures Valid() && entries == old(entries)[id := true]
    {
      entries := entries[id := true];
    }

    /** Record one more consumer; a new counter starts at 1, and a counter wraps around at its width. */
    method IncrementConsumers(consumer: Ulong, parent: Ulong)
      requires Valid()
      modifies this`counters, this`refs
      ensures Valid() && refs == Recorded(old(refs), parent, consumer)
    {
      var row: map<Ulong, Ulong> := map[];
      if parent in counters {
        row := counters[parent];
      }
      assert RowCounted(row, Row(refs, parent));
      var next: Ulong := 1;
      if consumer in row {
        next := (row[consumer] + 1) % ULONG_LIMIT;
      }
      row := row[consumer := next];
      assert RowCounted(row, RowWith(Row(refs, parent), consumer));
      counters := counters[parent := row];
      refs := Recorded(refs, parent, consumer);
    }

    method UlConsumersInParent(consumer: Ulong, parent: Ulong) returns (n: Ulong)
      requires Valid()
      ensures n == RefsIn(refs, parent, consumer) % ULONG_LIMIT
    {
      if parent !in counters || consumer !in counters[parent] {
        return 0;
      }
      n := counters[parent][consumer];
    }

    /** The references that count, modulo the counter width. */
    method UlConsumers(id: Ulong) returns (n: Ulong)
      requires Valid()
      ensures n == TotalRefs(refs, Used(), id) % ULONG_LIMIT
    {
      n := UlConsumersInParent(id, MAIN);
      var rest := entries.Keys;
      ghost var total: nat := RefsIn(refs, MAIN, id);
      assert Used() * rest == Used();
      while rest != {}
        invariant rest <= entries.Keys
        invariant n == total % ULONG_LIMIT
        invariant total + RefsInAll(refs, Used() * rest, id) == TotalRefs(refs, Used(), id)
        decreases rest
      {
        var cte :| cte in rest;
        if entries[cte] {
          var more := UlConsumersInParent(id, cte);
          RefsInAllSplit(refs, Used() * rest, cte, id);
          assert Used() * rest - {cte} == Used() * (rest - {cte});
          WrappedAdd(total, RefsIn(refs, cte, id));
          n := (n + more) % ULONG_LIMIT;
          total := total + RefsIn(refs, cte, id);
        } else {
          assert Used() * rest == Used() * (rest - {cte});
        }
        rest := rest - {cte};
      }
      assert Used() * rest == {};
    }

    /** Push the consumers inside a parent whose bit is set, and clear their bits. */
    method FindConsumersInParent(parent: Ulong, unused: set<Ulong>, stack: seq<Ulong>)
      returns (unused': set<Ulong>, stack': seq<Ulong>)
      requires Valid()
      ensures Found(ConsumersIn(refs, parent), {}, unused, stack, unused', stack')
    {
      unused', stack' := unused, stack;
      ghost var consumers := ConsumersIn(refs, parent);
      FoundNone(consumers, unused, stack);
      if parent !in counters {
        return;
      }
      var rest := counters[parent].Keys;
      while rest != {}
        invariant Found(consumers, rest, unused, stack, unused', stack')
        decreases rest
      {
        var id :| id in rest;
        FoundOne(consumers, rest, unused, stack, unused', stack', id);
        if id in unused' {
          stack' := stack' + [id];
          unused' := unused' - {id};
        }
        rest := rest - {id};
      }
    }

    /** The worklist terminates, and what keeps its bit is exactly what the main query does not reach. */
    method FindUnusedCTEs() returns (unused: set<Ulong>)
      requires Valid()
      ensures forall id | id in Known() :: id !in unused <==> Reachable(refs, Known(), id)
    {
      ghost var known := Known();
      unused := entries.Keys;
      var stack: seq<Ulong> := [];
      unused, stack := FindConsumersInParent(MAIN, unused, stack);
      FoundAll(ConsumersIn(refs, MAIN), known, [], unused, stack);
      WorklistStart(refs, known, stack);
      while |stack| > 0
        invariant Worklist(refs, known, unused, stack)
        decreases |stack| + 2 * |unused|
      {
        var id := stack[|stack| - 1];
        var rest := stack[..|stack| - 1];
        assert stack == rest + [id];
        ghost var before := unused;
        unused, stack := FindConsumersInParent(id, unused, rest);
        FoundAll(ConsumersIn(refs, id), before, rest, unused, stack);
        WorklistStep(refs, known, before, rest, id, stack[|rest|..]);
      }
      WorklistEnd(refs, known, unused, stack);
    }

    /** A CTE stays marked used iff it is reachable from the main query through consumers inside known CTEs. */
    method MarkUnusedCTEs()
      requires Valid()
      modifies this`entries
      ensures Valid() && entries.Keys == old(entries).Keys
      ensures forall id | id in entries :: entries[id] <==> old(entries)[id] && Reachable(refs, Known(), id)
      // from all CTEs marked used: what stays so is what has references, as UlConsumers counts them
      ensures old(Used()) == Known() ==> forall id | id in entries :: entries[id] <==> TotalRefs(refs, Used(), id) > 0
    {
      var unused := FindUnusedCTEs();
      var rest := entries.Keys;
      while rest != {}
        invariant Marked(old(entries), entries, unused, rest)
        decreases rest
      {
        var id :| id in rest;
        if id in unused {
          entries := entries[id := false];
        }
        rest := rest - {id};
      }
      if old(Used()) == Known() {
        assert forall id :: id in Used() <==> id in Known() && Reachable(refs, Known(), id) by {
          assert forall id | id in entries :: id in old(Used());
        }
        forall id | id in entries ensures entries[id] <==> TotalRefs(refs, Used(), id) > 0 {
          UsedIffReferenced(refs, Known(), Used(), id);
        }
      }
    }
  }

  /** The entries after every one but `rest` is visited: marked unused where the bit was set. */
  ghost predicate Marked(was: map<Ulong, bool>, now: map<Ulong, bool>, unused: set<Ulong>, rest: set<Ulong>) {
    && now.Keys == was.Keys && rest <= was.Keys
    && (forall id | id in was :: now[id] == (was[id] && (id in rest || id !in unused)))
  }

  lemma FewerUnused(now: set<Ulong>, before: set<Ulong>)
    requires now <= before
    ensures |now| <= |before|
  {
    assert before == now + (before - now);
  }

  lemma WrappedAdd(m: nat, n: nat)
    ensures (m % ULONG_LIMIT + n % ULONG_LIMIT) % ULONG_LIMIT == (m + n) % ULONG_LIMIT
  {
  }
}
