/** Kahn's topological sort, as a stateful iterator over in-degree counts
    (utils/src/topological.rs).  The graph is the sequence of edges in the order
    they were inserted, so repeated edges and self-loops are kept apart. */
module Topological {
  import opened Wrappers

  // ---------------------------------------------------------------- graphs

  ghost predicate Edge<T>(graph: seq<(T, T)>, from: T, to: T) {
    (from, to) in graph
  }

  ghost function Nodes<T>(graph: seq<(T, T)>): set<T> {
    if graph == [] then {}
    else
      var last := graph[|graph| - 1];
      Nodes(graph[..|graph| - 1]) + {last.0, last.1}
  }

  ghost function Sources<T>(graph: seq<(T, T)>): set<T> {
    if graph == [] then {} else Sources(graph[..|graph| - 1]) + {graph[|graph| - 1].0}
  }

  /** The targets of the edges that leave `node`, in insertion order. */
  ghost function Targets<T>(graph: seq<(T, T)>, node: T): seq<T> {
    if graph == [] then []
    else
      var last := graph[|graph| - 1];
      Targets(graph[..|graph| - 1], node) + if last.0 == node then [last.1] else []
  }

  /** How many edge occurrences lead into `node` from a source outside `done`. */
  ghost function Pending<T>(graph: seq<(T, T)>, done: set<T>, node: T): nat {
    if graph == [] then 0
    else
      var last := graph[|graph| - 1];
      Pending(graph[..|graph| - 1], done, node) + if last.1 == node && last.0 !in done then 1 else 0
  }

  ghost predicate IsPath<T>(graph: seq<(T, T)>, path: seq<T>) {
    |path| >= 1 && forall i :: 0 <= i < |path| - 1 ==> Edge(graph, path[i], path[i + 1])
  }

  ghost predicate IsCycle<T>(graph: seq<(T, T)>, path: seq<T>) {
    |path| >= 2 && IsPath(graph, path) && path[0] == path[|path| - 1]
  }

  ghost predicate Acyclic<T(!new)>(graph: seq<(T, T)>) {
    forall path :: !IsCycle(graph, path)
  }

  ghost predicate FromCycleTo<T>(graph: seq<(T, T)>, cycle: seq<T>, path: seq<T>, node: T) {
    IsCycle(graph, cycle) && IsPath(graph, path) && path[0] == cycle[0] && path[|path| - 1] == node
  }

  ghost predicate ReachableFromCycle<T(!new)>(graph: seq<(T, T)>, node: T) {
    exists cycle, path :: FromCycleTo(graph, cycle, path, node)
  }

  ghost predicate NoDuplicates<T>(s: seq<T>) {
    forall i, j :: 0 <= i < j < |s| ==> s[i] != s[j]
  }

  ghost function Elements<T>(s: seq<T>): set<T> {
    set x | x in s
  }

  /** Every element of `order` stands after all its predecessors. */
  ghost predicate PredecessorsFirst<T(!new)>(graph: seq<(T, T)>, order: seq<T>) {
    forall i, p :: 0 <= i < |order| && Edge(graph, p, order[i]) ==> p in order[..i]
  }

  // ------------------------------------------------- facts about the counts

  lemma {:induction false} PendingZero<T(!new)>(graph: seq<(T, T)>, done: set<T>, node: T)
    ensures Pending(graph, done, node) == 0 <==> forall p :: Edge(graph, p, node) ==> p in done
  {
    if graph == [] {
    } else {
      var init, last := graph[..|graph| - 1], graph[|graph| - 1];
      PendingZero(init, done, node);
      assert forall p :: Edge(graph, p, node) <==> Edge(init, p, node) || (p, node) == last;
    }
  }

  lemma {:induction false} EdgeEnds<T>(graph: seq<(T, T)>, from: T, to: T)
    requires Edge(graph, from, to)
    ensures from in Nodes(graph) && to in Nodes(graph)
  {
    var init, last := graph[..|graph| - 1], graph[|graph| - 1];
    if (from, to) != last {
      assert (from, to) in init;
      EdgeEnds(init, from, to);
    }
  }

  lemma {:induction false} NoEdgesOf<T>(graph: seq<(T, T)>, node: T)
    ensures node !in Sources(graph) ==> Targets(graph, node) == []
    ensures node !in Nodes(graph) ==> Pending(graph, {}, node) == 0
  {
    if graph == [] {
    } else {
      NoEdgesOf(graph[..|graph| - 1], node);
    }
  }

  lemma OneEdgeMore<T(!new)>(graph: seq<(T, T)>, from: T, to: T)
    ensures var more := graph + [(from, to)];
      && Sources(more) == Sources(graph) + {from} && Nodes(more) == Nodes(graph) + {from, to}
      && (forall n :: Targets(more, n) == Targets(graph, n) + if n == from then [to] else [])
      && (forall n :: Pending(more, {}, n) == Pending(graph, {}, n) + if n == to then 1 else 0)
  {
    var more := graph + [(from, to)];
    assert more[..|graph|] == graph && more[|graph|] == (from, to);
  }

  /** Emitting `node` takes off exactly one count per edge that leaves it. */
  lemma {:induction false} PendingAfterEmit<T>(graph: seq<(T, T)>, done: set<T>, node: T, n: T)
    requires node !in done
    ensures Pending(graph, done + {node}, n) == Pending(graph, done, n) - multiset(Targets(graph, node))[n]
  {
    if graph == [] {
    } else {
      PendingAfterEmit(graph[..|graph| - 1], done, node, n);
    }
  }

  // ---------------------------------------------------- the builder (insert)

  class TopologicalSort<T(==, !new)> {
    var edges: map<T, seq<T>>
    var count: map<T, nat>
    ghost var graph: seq<(T, T)>

    ghost predicate Valid()
      reads this
    {
      && edges.Keys == Sources(graph)
      && (forall n :: n in edges ==> edges[n] == Targets(graph, n))
      && count.Keys == Nodes(graph)
      && (forall n :: n in count ==> count[n] == Pending(graph, {}, n))
    }

    constructor ()
      ensures Valid() && graph == []
    {
      edges, count, graph := map[], map[], [];
    }

    method Insert(from: T, to: T)
      requires Valid()
      modifies this
      ensures Valid() && graph == old(graph) + [(from, to)]
    {
      NoEdgesOf(graph, from);
      NoEdgesOf(graph, to);
      OneEdgeMore(graph, from, to);
      hide Sources, Nodes, Targets, Pending;
      if from !in count {
        count := count[from := 0];
      }
      edges := edges[from := (if from in edges then edges[from] else []) + [to]];
      count := count[to := (if to in count then count[to] else 0) + 1];
      graph := graph + [(from, to)];
    }

    /** Hash order is arbitrary: the nodes without incoming edges enter the queue in any order. */
    method IntoIterator() returns (it: TopologicalSortIterator<T>)
      requires Valid()
      ensures fresh(it) && it.Valid() && it.graph == graph && it.emitted == []
    {
      hide Sources, Nodes, Targets, Pending;
      var noEdges := [];
      var retained := count;
      var rest := count.Keys;
      while rest != {}
        invariant rest <= retained.Keys && retained.Keys !! Elements(noEdges)
        invariant retained.Keys + Elements(noEdges) == count.Keys
        invariant NoDuplicates(noEdges) && rest !! Elements(noEdges)
        invariant forall n :: n in noEdges ==> n in count && count[n] == 0
        invariant forall n :: n in retained ==> retained[n] == count[n] && (n !in rest ==> retained[n] > 0)
        decreases rest
      {
        var node :| node in rest;
        if retained[node] == 0 {
          assert node !in Elements(noEdges);
          ghost var grown := noEdges + [node];
          assert Elements(grown) == Elements(noEdges) + {node};
          noEdges := noEdges + [node];
          retained := retained - {node};
        }
        rest := rest - {node};
      }
      assert Elements<T>([]) == {} && [] + noEdges == noEdges;
      it := new TopologicalSortIterator(edges, retained, noEdges, graph);
    }
  }

  // ------------------------------------------------------------ the iterator

  /** What holds between any two calls of `next`: `count[n]` is the number of edge occurrences into n
      whose source is not yet emitted, and it is positive; emitted, queued and counted nodes partition the
      graph; nothing is emitted or queued twice; everything emitted comes after its predecessors. */
  ghost predicate KahnState<T(!new)>(graph: seq<(T, T)>, edges: map<T, seq<T>>, count: map<T, nat>,
                                     noEdges: seq<T>, emitted: seq<T>)
  {
    && edges.Keys == Sources(graph)
    && (forall n :: n in edges ==> edges[n] == Targets(graph, n))
    && NoDuplicates(emitted) && NoDuplicates(noEdges)
    && count.Keys !! Elements(emitted) !! Elements(noEdges)
    && count.Keys + Elements(emitted) + Elements(noEdges) == Nodes(graph)
    && (forall n :: n in count ==> count[n] == Pending(graph, Elements(emitted), n) > 0)
    && (forall n :: n in emitted || n in noEdges ==> Pending(graph, Elements(emitted), n) == 0)
    && PredecessorsFirst(graph, emitted)
  }

  class TopologicalSortIterator<T(==, !new)> {
    var edges: map<T, seq<T>>
    var count: map<T, nat>
    var noEdges: seq<T>
    ghost const graph: seq<(T, T)>
    ghost var emitted: seq<T>

    ghost predicate Valid()
      reads this
    {
      KahnState(graph, edges, count, noEdges, emitted)
    }

    constructor (edges: map<T, seq<T>>, count: map<T, nat>, noEdges: seq<T>, ghost graph: seq<(T, T)>)
      requires KahnState(graph, edges, count, noEdges, [])
      ensures Valid() && this.graph == graph && emitted == []
      ensures this.edges == edges && this.count == count && this.noEdges == noEdges
    {
      this.edges, this.count, this.noEdges := edges, count, noEdges;
      this.graph, this.emitted := graph, [];
    }

    /** Emits the node at the back of the queue.  Nodes freed by it enter at the front, so the rest of the
        queue stays at the back in its order. */
    method Next() returns (r: Option<T>)
      requires Valid()
      modifies this
      ensures Valid()
      ensures r.None? <==> old(noEdges) == []
      ensures r.None? ==> emitted == old(emitted) && count == old(count) && noEdges == []
      ensures r.Some? ==> var rest := old(noEdges)[..|old(noEdges)| - 1];
        && r.value == old(noEdges)[|rest|] && emitted == old(emitted) + [r.value]
        && |rest| <= |noEdges| && noEdges[|noEdges| - |rest|..] == rest
        && edges == old(edges)
    {
      if noEdges == [] {
        return None;
      }
      var node := noEdges[|noEdges| - 1];
      noEdges := noEdges[..|noEdges| - 1];
      assert noEdges + [node] == old(noEdges);
      ReleaseNeighbors(node);
      emitted := emitted + [node];
      r := Some(node);
    }

    /** The second half of `next`: takes the popped node's edges off the counts and queues what they free. */
    method ReleaseNeighbors(node: T)
      requires KahnState(graph, edges, count, noEdges + [node], emitted)
      modifies `count, `noEdges
      ensures KahnState(graph, edges, count, noEdges, emitted + [node])
      ensures |old(noEdges)| <= |noEdges| && noEdges[|noEdges| - |old(noEdges)|..] == old(noEdges)
    {
      ghost var queue := noEdges + [node];
      assert queue[|queue| - 1] == node && queue[..|queue| - 1] == noEdges;
      EmitStarts(graph, edges, count, queue, emitted);
      ghost var freed: seq<T> := [];
      if node in edges {
        freed := LowerCounts(edges[node]);
      } else {
        assert freed + noEdges == noEdges;
      }
      EmitEnds(graph, edges, old(count), queue, emitted, count, freed);
    }

    method LowerCounts(neighbors: seq<T>) returns (ghost freed: seq<T>)
      requires Freeing(graph, Elements(emitted), count.Keys, count, [], [])
      requires AllPending(graph, Elements(emitted), count.Keys, neighbors)
      modifies `count, `noEdges
      ensures Freeing(graph, Elements(emitted), old(count).Keys, count, freed, neighbors)
      ensures noEdges == freed + old(noEdges)
    {
      freed := [];
      assert neighbors[..0] == [];
      for k := 0 to |neighbors|
        invariant noEdges == freed + old(noEdges)
        invariant Freeing(graph, Elements(emitted), old(count).Keys, count, freed, neighbors[..k])
      {
        var neighbor := neighbors[k];
        NeighborCounted(graph, Elements(emitted), old(count).Keys, count, freed, neighbors, k);
        FreeingStep(graph, Elements(emitted), old(count).Keys, count, freed, neighbors, k);
        Prepend(neighbor, freed, old(noEdges));
        if neighbor in count {   // always so: no lookup misses
          count := count[neighbor := count[neighbor] - 1];
          if count[neighbor] == 0 {
            count := count - {neighbor};
            noEdges := [neighbor] + noEdges;
            freed := [neighbor] + freed;
          }
        }
      }
      assert neighbors[..|neighbors|] == neighbors;
    }

    function IsValid(): bool
      reads this
    {
      count == map[]
    }
  }

  /** While the neighbours of the emitted node are walked: `prefix` of them are done, `freed` have lost
      their last pending edge, and `before` were counted when the walk began. */
  ghost predicate Freeing<T(!new)>(graph: seq<(T, T)>, done: set<T>, before: set<T>,
                                   count: map<T, nat>, freed: seq<T>, prefix: seq<T>)
  {
    && NoDuplicates(freed)
    && count.Keys !! Elements(freed) && count.Keys + Elements(freed) == before
    && (forall n :: n in count ==> count[n] == Pending(graph, done, n) - multiset(prefix)[n] > 0)
    && (forall n :: n in freed ==> Pending(graph, done, n) == multiset(prefix)[n])
  }

  ghost predicate AllPending<T>(graph: seq<(T, T)>, done: set<T>, before: set<T>, neighbors: seq<T>) {
    forall n :: n in neighbors ==> n in before && Pending(graph, done, n) >= multiset(neighbors)[n]
  }

  lemma EmitStarts<T(!new)>(graph: seq<(T, T)>, edges: map<T, seq<T>>, count: map<T, nat>, noEdges: seq<T>, emitted: seq<T>)
    requires KahnState(graph, edges, count, noEdges, emitted) && noEdges != []
    ensures Freeing(graph, Elements(emitted), count.Keys, count, [], [])
    ensures var node := noEdges[|noEdges| - 1];
      if node in edges then AllPending(graph, Elements(emitted), count.Keys, edges[node]) else Targets(graph, node) == []
  {
    var node, done := noEdges[|noEdges| - 1], Elements(emitted);
    NoEdgesOf(graph, node);
    assert Elements<T>([]) == {} && node in Elements(noEdges);
    forall n | n in Targets(graph, node)
      ensures n in count.Keys && Pending(graph, done, n) >= multiset(Targets(graph, node))[n]
    {
      PendingAfterEmit(graph, done, node, n);
      TargetIsNode(graph, node, n);
      assert n !in emitted && n !in noEdges;
      assert n !in Elements(emitted) && n !in Elements(noEdges);
    }
  }

  /** Every neighbour the walk meets is still counted. */
  lemma NeighborCounted<T(!new)>(graph: seq<(T, T)>, done: set<T>, before: set<T>, count: map<T, nat>, freed: seq<T>,
                                 neighbors: seq<T>, k: nat)
    requires AllPending(graph, done, before, neighbors) && k < |neighbors|
    requires Freeing(graph, done, before, count, freed, neighbors[..k])
    ensures neighbors[k] in count
  {
    Remaining(neighbors, k);
    assert neighbors[k] !in Elements(freed);
  }

  lemma FreeingStep<T(!new)>(graph: seq<(T, T)>, done: set<T>, before: set<T>, count: map<T, nat>, freed: seq<T>,
                             neighbors: seq<T>, k: nat)
    requires k < |neighbors| && neighbors[k] in count
    requires Freeing(graph, done, before, count, freed, neighbors[..k])
    ensures var lowered := count[neighbors[k] := count[neighbors[k]] - 1];
      if lowered[neighbors[k]] == 0
      then Freeing(graph, done, before, lowered - {neighbors[k]}, [neighbors[k]] + freed, neighbors[..k + 1])
      else Freeing(graph, done, before, lowered, freed, neighbors[..k + 1])
  {
    hide Pending;
    var neighbor := neighbors[k];
    assert neighbors[..k + 1] == neighbors[..k] + [neighbor];
    forall n
      ensures multiset(neighbors[..k + 1])[n] == multiset(neighbors[..k])[n] + if n == neighbor then 1 else 0
    {
    }
    assert neighbor !in Elements(freed);
    assert forall n :: n in freed ==> n in Elements(freed);
    var lowered := count[neighbor := count[neighbor] - 1];
    assert lowered.Keys == count.Keys;
    if lowered[neighbor] == 0 {
      var count', freed' := lowered - {neighbor}, [neighbor] + freed;
      assert count'.Keys == count.Keys - {neighbor};
      assert Elements(freed') == Elements(freed) + {neighbor};
      assert forall n :: n in count' ==> n in count && n != neighbor && count'[n] == count[n];
    }
  }

  lemma EmitEnds<T(!new)>(graph: seq<(T, T)>, edges: map<T, seq<T>>, count0: map<T, nat>, noEdges: seq<T>, emitted: seq<T>,
                          count: map<T, nat>, freed: seq<T>)
    requires KahnState(graph, edges, count0, noEdges, emitted) && noEdges != []
    requires Freeing(graph, Elements(emitted), count0.Keys, count, freed, Targets(graph, noEdges[|noEdges| - 1]))
    ensures var last := |noEdges| - 1;
      KahnState(graph, edges, count, freed + noEdges[..last], emitted + [noEdges[last]])
  {
    hide Sources, Nodes, Targets, Pending, PredecessorsFirst;
    var node, rest := noEdges[|noEdges| - 1], noEdges[..|noEdges| - 1];
    SplitLast(noEdges);
    assert node in Elements(noEdges);
    AppendOne(emitted, node);
    Join(freed, rest);
    EmitKeepsOrder(graph, emitted, node);
    forall n
      ensures Pending(graph, Elements(emitted + [node]), n)
           == Pending(graph, Elements(emitted), n) - multiset(Targets(graph, node))[n]
    {
      PendingAfterEmit(graph, Elements(emitted), node, n);
    }
  }

  lemma Remaining<T>(s: seq<T>, k: nat)
    requires k < |s|
    ensures multiset(s[..k])[s[k]] < multiset(s)[s[k]]
    ensures forall x :: multiset(s[..k])[x] <= multiset(s)[x]
  {
    assert s == s[..k] + [s[k]] + s[k + 1..];
  }

  lemma {:induction false} TargetIsNode<T>(graph: seq<(T, T)>, node: T, target: T)
    requires target in Targets(graph, node)
    ensures target in Nodes(graph)
  {
    var init, last := graph[..|graph| - 1], graph[|graph| - 1];
    assert graph == init + [last];
    if target in Targets(init, node) {
      TargetIsNode(init, node, target);
    }
  }

  lemma SplitLast<T>(s: seq<T>)
    requires s != [] && NoDuplicates(s)
    ensures var last := |s| - 1;
      NoDuplicates(s[..last]) && s[last] !in s[..last] && Elements(s) == Elements(s[..last]) + {s[last]}
  {
    var init := s[..|s| - 1];
    assert s == init + [s[|s| - 1]];
  }

  lemma Prepend<T>(x: T, a: seq<T>, b: seq<T>)
    ensures [x] + (a + b) == [x] + a + b
  {
  }

  lemma AppendOne<T>(s: seq<T>, x: T)
    requires NoDuplicates(s) && x !in Elements(s)
    ensures NoDuplicates(s + [x]) && Elements(s + [x]) == Elements(s) + {x}
  {
  }

  lemma Join<T>(a: seq<T>, b: seq<T>)
    requires NoDuplicates(a) && NoDuplicates(b) && Elements(a) !! Elements(b)
    ensures NoDuplicates(a + b) && Elements(a + b) == Elements(a) + Elements(b)
  {
    assert forall x :: x in a ==> x in Elements(a);
    assert forall x :: x in b ==> x in Elements(b);
    forall i, j | 0 <= i < j < |a + b| ensures (a + b)[i] != (a + b)[j] {
      if i < |a| <= j {
        assert a[i] in a && b[j - |a|] in b;
      }
    }
  }

  lemma EmitKeepsOrder<T(!new)>(graph: seq<(T, T)>, emitted: seq<T>, node: T)
    requires PredecessorsFirst(graph, emitted) && Pending(graph, Elements(emitted), node) == 0
    ensures PredecessorsFirst(graph, emitted + [node])
  {
    PendingZero(graph, Elements(emitted), node);
    var order := emitted + [node];
    forall i, p | 0 <= i < |order| && Edge(graph, p, order[i]) ensures p in order[..i] {
      if i == |emitted| {
        assert order[..i] == emitted;
      } else {
        assert order[..i] == emitted[..i] && order[i] == emitted[i];
      }
    }
  }

  // ------------------------------------------------- what draining tells us

  /** A path that ends in an emitted node starts in one that was emitted no later. */
  lemma {:induction false} PathGoesBack<T(!new)>(graph: seq<(T, T)>, order: seq<T>, path: seq<T>, i: nat) returns (j: nat)
    requires PredecessorsFirst(graph, order) && IsPath(graph, path)
    requires i < |order| && order[i] == path[|path| - 1]
    ensures j <= i && order[j] == path[0] && (|path| >= 2 ==> j < i)
    decreases |path|
  {
    if |path| == 1 {
      j := i;
    } else {
      var init := path[..|path| - 1];
      assert Edge(graph, path[|path| - 2], path[|path| - 1]);
      assert init[|init| - 1] in order[..i];
      var k :| 0 <= k < i && order[k] == init[|init| - 1];
      j := PathGoesBack(graph, order, init, k);
    }
  }

  lemma EmittedIsOffCycle<T(!new)>(graph: seq<(T, T)>, order: seq<T>, node: T)
    requires PredecessorsFirst(graph, order) && NoDuplicates(order) && node in order
    ensures !ReachableFromCycle(graph, node)
  {
    if ReachableFromCycle(graph, node) {
      var cycle, path :| FromCycleTo(graph, cycle, path, node);
      var i :| 0 <= i < |order| && order[i] == node;
      var j := PathGoesBack(graph, order, path, i);
      var k := PathGoesBack(graph, order, cycle, j);
      assert false;
    }
  }

  ghost predicate PredecessorIn<T(!new)>(graph: seq<(T, T)>, nodes: set<T>, node: T) {
    exists p :: p in nodes && Edge(graph, p, node)
  }

  ghost predicate PredecessorsInside<T(!new)>(graph: seq<(T, T)>, nodes: set<T>) {
    forall n {:trigger PredecessorIn(graph, nodes, n)} :: n in nodes ==> PredecessorIn(graph, nodes, n)
  }

  /** Walking backwards inside a finite set in which every node has a predecessor must close a cycle. */
  lemma {:induction false} CycleBehind<T(!new)>(graph: seq<(T, T)>, nodes: set<T>, path: seq<T>)
    requires IsPath(graph, path) && NoDuplicates(path) && Elements(path) <= nodes
    requires PredecessorsInside(graph, nodes)
    ensures ReachableFromCycle(graph, path[|path| - 1])
    decreases nodes - Elements(path)
  {
    assert path[0] in Elements(path);
    assert PredecessorIn(graph, nodes, path[0]);
    var p :| p in nodes && Edge(graph, p, path[0]);
    if p in path {
      var j :| 0 <= j < |path| && path[j] == p;
      CloseCycle(graph, path, p, j);
    } else {
      assert Elements([p] + path) == Elements(path) + {p};
      CycleBehind(graph, nodes, [p] + path);
    }
  }

  lemma CloseCycle<T(!new)>(graph: seq<(T, T)>, path: seq<T>, p: T, j: nat)
    requires IsPath(graph, path) && Edge(graph, p, path[0]) && j < |path| && path[j] == p
    ensures ReachableFromCycle(graph, path[|path| - 1])
  {
    var cycle := [p] + path[..j + 1];
    forall i | 0 <= i < |cycle| - 1 ensures Edge(graph, cycle[i], cycle[i + 1]) {
      assert i > 0 ==> cycle[i] == path[i - 1] && cycle[i + 1] == path[i];
    }
    var tail := path[j..];
    forall i | 0 <= i < |tail| - 1 ensures Edge(graph, tail[i], tail[i + 1]) {
      assert tail[i] == path[j + i] && tail[i + 1] == path[j + i + 1];
    }
    assert FromCycleTo(graph, cycle, tail, path[|path| - 1]);
  }

  /** Once the queue is empty, the nodes left in `count` are exactly those reachable from a cycle. */
  lemma DrainedLeavesCycles<T(!new)>(graph: seq<(T, T)>, edges: map<T, seq<T>>, count: map<T, nat>, emitted: seq<T>, node: T)
    requires KahnState(graph, edges, count, [], emitted)
    ensures node in count <==> ReachableFromCycle(graph, node)
  {
    assert Elements<T>([]) == {};
    if node in count {
      CountedInside(graph, edges, count, emitted);
      assert Elements([node]) == {node};
      CycleBehind(graph, count.Keys, [node]);
    } else if ReachableFromCycle(graph, node) {
      ReachableIsNode(graph, node);
      assert node in Elements(emitted);
      EmittedIsOffCycle(graph, emitted, node);
    }
  }

  lemma CountedHasPredecessor<T(!new)>(graph: seq<(T, T)>, edges: map<T, seq<T>>, count: map<T, nat>, emitted: seq<T>, n: T)
    requires KahnState(graph, edges, count, [], emitted) && n in count
    ensures PredecessorIn(graph, count.Keys, n)
  {
    PendingZero(graph, Elements(emitted), n);
    var p :| Edge(graph, p, n) && p !in Elements(emitted);
    EdgeEnds(graph, p, n);
    assert Elements<T>([]) == {};
  }

  lemma CountedInside<T(!new)>(graph: seq<(T, T)>, edges: map<T, seq<T>>, count: map<T, nat>, emitted: seq<T>)
    requires KahnState(graph, edges, count, [], emitted)
    ensures PredecessorsInside(graph, count.Keys)
  {
    forall n | n in count.Keys ensures PredecessorIn(graph, count.Keys, n) {
      CountedHasPredecessor(graph, edges, count, emitted, n);
    }
  }

  lemma ReachableIsNode<T(!new)>(graph: seq<(T, T)>, node: T)
    requires ReachableFromCycle(graph, node)
    ensures node in Nodes(graph)
  {
    var cycle, path :| FromCycleTo(graph, cycle, path, node);
    var into := if |path| >= 2 then path else cycle;
    assert Edge(graph, into[|into| - 2], into[|into| - 1]);
    EdgeEnds(graph, into[|into| - 2], into[|into| - 1]);
  }

  /** `is_valid` on a drained iterator decides acyclicity, self-loops and repeated edges included. */
  lemma DrainedIsValid<T(!new)>(graph: seq<(T, T)>, edges: map<T, seq<T>>, count: map<T, nat>, emitted: seq<T>)
    requires KahnState(graph, edges, count, [], emitted)
    ensures count == map[] <==> Acyclic(graph)
  {
    forall node ensures node in count <==> ReachableFromCycle(graph, node) {
      DrainedLeavesCycles(graph, edges, count, emitted, node);
    }
    if cycle :| IsCycle(graph, cycle) {
      assert FromCycleTo(graph, cycle, [cycle[0]], cycle[0]);
      assert cycle[0] in count;
    }
    if n :| n in count {
      var cycle, path :| FromCycleTo(graph, cycle, path, n);
      assert !Acyclic(graph);
    }
  }

  /** The `for` loop every caller runs: it ends, and what it visits is a topological order of exactly the
      nodes that no cycle reaches. */
  method Drain<T(==, !new)>(it: TopologicalSortIterator<T>) returns (order: seq<T>, valid: bool)
    requires it.Valid() && it.emitted == []
    modifies it
    ensures NoDuplicates(order) && PredecessorsFirst(it.graph, order)
    ensures forall n :: n in order <==> n in Nodes(it.graph) && !ReachableFromCycle(it.graph, n)
    ensures valid <==> Acyclic(it.graph)
    ensures valid ==> Elements(order) == Nodes(it.graph)
  {
    order := [];
    while true
      invariant it.Valid() && order == it.emitted
      decreases |Nodes(it.graph)| - |order|
    {
      var r := it.Next();
      if r.None? {
        break;
      }
      order := order + [r.value];
      EmittedBounded(order, Nodes(it.graph));
    }
    assert Elements<T>([]) == {};
    forall n ensures n in it.count <==> ReachableFromCycle(it.graph, n) {
      DrainedLeavesCycles(it.graph, it.edges, it.count, order, n);
    }
    forall n ensures n in order <==> n in Nodes(it.graph) && !ReachableFromCycle(it.graph, n) {
      assert n in order <==> n in Elements(order);
    }
    DrainedIsValid(it.graph, it.edges, it.count, order);
    valid := it.IsValid();
  }

  lemma EmittedBounded<T>(order: seq<T>, nodes: set<T>)
    requires NoDuplicates(order) && Elements(order) <= nodes
    ensures |order| <= |nodes|
  {
    NoDuplicatesCard(order);
    assert nodes == Elements(order) + (nodes - Elements(order));
  }

  lemma {:induction false} NoDuplicatesCard<T>(s: seq<T>)
    requires NoDuplicates(s)
    ensures |Elements(s)| == |s|
  {
    if s == [] {
      assert Elements(s) == {};
    } else {
      var init := s[..|s| - 1];
      NoDuplicatesCard(init);
      assert s == init + [s[|s| - 1]];
      assert Elements(s) == Elements(init) + {s[|s| - 1]};
    }
  }
}
