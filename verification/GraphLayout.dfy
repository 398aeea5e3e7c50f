/**
 computeLayout of cmd/binds/graph.go: layers by a fixpoint over a map walked in arbitrary order, then the
 layer table. Dependencies may be cyclic, repeated, or name issues outside the graph.
 */
module GraphLayout {
  import opened Order

  /** A dependency record; only those of type "blocks" count for the layout. */
  datatype Dependency = Dependency(issueId: string, dependsOnId: string, kind: string)

  const BLOCKS := "blocks"

  /** What each ID depends on, in record order. IDs without an entry depend on nothing. */
  type Graph = map<string, seq<string>>

  function Deps(g: Graph, id: string): seq<string> {
    if id in g then g[id] else []
  }

  /** dependsOn as built from the first `n` records. */
  function DependsOn(records: seq<Dependency>, id: string): seq<string> {
    if records == [] then []
    else
      var rest, last := DependsOn(records[..|records| - 1], id), records[|records| - 1];
      if last.kind == BLOCKS && last.issueId == id then rest + [last.dependsOnId] else rest
  }

  lemma {:induction false} DependsOnHasBlocks(records: seq<Dependency>, id: string, d: string)
    ensures d in DependsOn(records, id) <==> Dependency(id, d, "blocks") in records
  {
    if records != [] {
      DependsOnHasBlocks(records[..|records| - 1], id, d);
      assert records == records[..|records| - 1] + [records[|records| - 1]];
    }
  }

  /** The list follows the records: one entry for each record of the kind and issue, in their order. */
  lemma {:induction false} DependsOnAt(records: seq<Dependency>, id: string) returns (at: seq<nat>)
    ensures Positions(at, |records|) && |at| == |DependsOn(records, id)|
    ensures forall i :: i in at <==> 0 <= i < |records| && records[i].kind == "blocks" && records[i].issueId == id
    ensures forall j :: 0 <= j < |at| ==> DependsOn(records, id)[j] == records[at[j]].dependsOnId
  {
    at := [];
    if records != [] {
      var n := |records| - 1;
      at := DependsOnAt(records[..n], id);
      MorePositions(at, n);
      if records[n].kind == "blocks" && records[n].issueId == id { at := at + [n]; }
    }
  }

  // Chains.

  /** A walk along dependencies: each element depends on the next. */
  ghost predicate Chain(g: Graph, p: seq<string>) {
    p != [] && forall i :: 0 <= i < |p| - 1 ==> p[i + 1] in Deps(g, p[i])
  }

  ghost predicate ChainFrom(g: Graph, v: string, p: seq<string>) {
    Chain(g, p) && p[0] == v
  }

  /** `k` is the length, in edges, of the longest chain from `v`. */
  ghost predicate LongestChain(g: Graph, v: string, k: int) {
    && (exists p :: ChainFrom(g, v, p) && |p| == k + 1)
    && (forall p :: ChainFrom(g, v, p) ==> |p| <= k + 1)
  }

  /** A chain from `v` leads into a cycle: some later element repeats an earlier one. */
  ghost predicate ReachesCycle(g: Graph, v: string) {
    exists p, i, j :: ChainFrom(g, v, p) && 0 <= i < j < |p| && p[i] == p[j]
  }

  /** A chain from `v` leads to an ID that is no node. */
  ghost predicate ReachesMissing(g: Graph, nodes: set<string>, v: string) {
    exists p :: ChainFrom(g, v, p) && p[|p| - 1] !in nodes
  }

  // The fixpoint.

  /** The layer an ID gets once all its dependencies have theirs; -1 while unassigned. */
  predicate Ready(g: Graph, layer: map<string, int>, id: string) {
    forall d :: d in Deps(g, id) ==> d in layer && layer[d] >= 0
  }

  function MaxLayer(layer: map<string, int>, ds: seq<string>): int
    requires forall d :: d in ds ==> d in layer
  {
    if ds == [] then -1
    else
      var rest, last := MaxLayer(layer, ds[..|ds| - 1]), layer[ds[|ds| - 1]];
      if last > rest then last else rest
  }

  lemma {:induction false} MaxLayerIsMax(layer: map<string, int>, ds: seq<string>)
    requires forall d :: d in ds ==> d in layer
    ensures MaxLayer(layer, ds) >= -1
    ensures forall d :: d in ds ==> layer[d] <= MaxLayer(layer, ds)
    ensures MaxLayer(layer, ds) == -1 || exists d :: d in ds && layer[d] == MaxLayer(layer, ds)
  {
    if ds != [] {
      MaxLayerIsMax(layer, ds[..|ds| - 1]);
      assert ds == ds[..|ds| - 1] + [ds[|ds| - 1]];
    }
  }

  /** Every assigned node sits one above its highest dependency. */
  ghost predicate Consistent(g: Graph, layer: map<string, int>) {
    forall id :: id in layer && layer[id] >= 0 ==> Ready(g, layer, id) && layer[id] == MaxLayer(layer, Deps(g, id)) + 1
  }

  /** No unassigned node could be assigned. */
  ghost predicate Saturated(g: Graph, layer: map<string, int>) {
    forall id :: id in layer && layer[id] < 0 ==> !Ready(g, layer, id)
  }

  ghost predicate Fixpoint(g: Graph, layer: map<string, int>) {
    Consistent(g, layer) && Saturated(g, layer)
  }

  /** Along a chain from an assigned node layers strictly decrease, so it is no longer than its layer. */
  lemma {:induction false} AssignedBoundsChains(g: Graph, layer: map<string, int>, p: seq<string>)
    requires Consistent(g, layer) && Chain(g, p) && p[0] in layer && layer[p[0]] >= 0
    ensures |p| <= layer[p[0]] + 1
    ensures forall i :: 0 <= i < |p| ==> p[i] in layer && layer[p[i]] >= 0
    ensures forall i, j :: 0 <= i < j < |p| ==> layer[p[i]] > layer[p[j]]
    decreases |p|
  {
    if |p| > 1 {
      var q := p[1..];
      assert p[1] in Deps(g, p[0]);
      MaxLayerIsMax(layer, Deps(g, p[0]));
      assert forall i :: 0 <= i < |q| ==> q[i] == p[i + 1];
      AssignedBoundsChains(g, layer, q);
      forall i | 0 <= i < |p| ensures p[i] in layer && layer[p[i]] >= 0 && (i > 0 ==> layer[p[0]] > layer[p[i]]) {
        if i > 0 { assert p[i] == q[i - 1]; }
      }
      forall i, j | 0 <= i < j < |p| ensures layer[p[i]] > layer[p[j]] {
        if i > 0 { assert p[i] == q[i - 1] && p[j] == q[j - 1]; }
      }
    }
  }

  lemma {:induction false} AssignedHasChain(g: Graph, layer: map<string, int>, v: string) returns (p: seq<string>)
    requires Consistent(g, layer) && v in layer && layer[v] >= 0
    ensures ChainFrom(g, v, p) && |p| == layer[v] + 1
    decreases layer[v]
  {
    if layer[v] == 0 {
      p := [v];
    } else {
      MaxLayerIsMax(layer, Deps(g, v));
      var d :| d in Deps(g, v) && layer[d] == layer[v] - 1;
      var q := AssignedHasChain(g, layer, d);
      p := [v] + q;
    }
  }

  /** The fixpoint gives every assigned node its longest chain. */
  lemma AssignedIsLongest(g: Graph, layer: map<string, int>, v: string)
    requires Consistent(g, layer) && v in layer && layer[v] >= 0
    ensures LongestChain(g, v, layer[v])
  {
    var p := AssignedHasChain(g, layer, v);
    forall q | ChainFrom(g, v, q) ensures |q| <= layer[v] + 1 { AssignedBoundsChains(g, layer, q); }
  }

  /** Assigned nodes reach neither cycles nor missing IDs. */
  lemma AssignedIsClean(g: Graph, layer: map<string, int>, v: string)
    requires Consistent(g, layer) && v in layer && layer[v] >= 0
    ensures !ReachesCycle(g, v) && !ReachesMissing(g, layer.Keys, v)
  {
    forall p | ChainFrom(g, v, p)
      ensures p[|p| - 1] in layer
      ensures Distinct(p)
    {
      AssignedBoundsChains(g, layer, p);
    }
  }

  /** From an unassigned node one can walk on, staying among unassigned nodes, until a missing ID turns up. */
  lemma {:induction false} UnassignedWalk(g: Graph, layer: map<string, int>, v: string, n: nat) returns (p: seq<string>)
    requires Fixpoint(g, layer) && v in layer && layer[v] < 0
    ensures ChainFrom(g, v, p)
    ensures p[|p| - 1] !in layer || (|p| == n + 1 && forall i :: 0 <= i < |p| ==> p[i] in layer)
    decreases n
  {
    if n == 0 {
      p := [v];
    } else {
      var d :| d in Deps(g, v) && (d !in layer || layer[d] < 0);
      if d !in layer {
        p := [v, d];
      } else {
        var q := UnassignedWalk(g, layer, d, n - 1);
        p := [v] + q;
      }
    }
  }

  lemma {:induction false} UnassignedIsDirty(g: Graph, layer: map<string, int>, v: string)
    requires Fixpoint(g, layer) && v in layer && layer[v] < 0
    ensures ReachesCycle(g, v) || ReachesMissing(g, layer.Keys, v)
  {
    var p := UnassignedWalk(g, layer, v, |layer.Keys|);
    if p[|p| - 1] in layer && Distinct(p) { Pigeonhole(p, layer.Keys); }
  }

  /** The residue: the fixpoint leaves unassigned exactly the nodes from which a cycle or a missing ID
      can be reached. On a graph whose dependencies are all nodes that leaves only the cycles. */
  lemma ResidueIsCyclic(g: Graph, layer: map<string, int>, v: string)
    requires Fixpoint(g, layer) && v in layer
    ensures layer[v] < 0 <==> ReachesCycle(g, v) || ReachesMissing(g, layer.Keys, v)
    ensures (forall id, d :: id in layer && d in Deps(g, id) ==> d in layer) ==> (layer[v] < 0 <==> ReachesCycle(g, v))
  {
    if layer[v] < 0 { UnassignedIsDirty(g, layer, v); } else { AssignedIsClean(g, layer, v); }
    if forall id, d :: id in layer && d in Deps(g, id) ==> d in layer {
      forall p | ChainFrom(g, v, p) ensures p[|p| - 1] in layer { ChainStays(g, layer.Keys, p); }
    }
  }

  lemma {:induction false} ChainStays(g: Graph, nodes: set<string>, p: seq<string>)
    requires forall id, d :: id in nodes && d in Deps(g, id) ==> d in nodes
    requires Chain(g, p) && p[0] in nodes
    ensures p[|p| - 1] in nodes
    decreases |p|
  {
    if |p| > 1 { ChainStays(g, nodes, p[1..]); }
  }

  // What the whole layout promises.

  /** The layers after the fallback: longest chains, and 0 for the residue. */
  ghost predicate Layered(g: Graph, nodes: set<string>, layer: map<string, int>) {
    && layer.Keys == nodes
    && forall v :: v in nodes ==>
         if ReachesCycle(g, v) || ReachesMissing(g, nodes, v) then layer[v] == 0 else LongestChain(g, v, layer[v])
  }

  /** Confluence: the layers do not depend on the order the map was walked in. */
  lemma {:induction false} LayersAreUnique(g: Graph, nodes: set<string>, a: map<string, int>, b: map<string, int>)
    requires Layered(g, nodes, a) && Layered(g, nodes, b)
    ensures a == b
  {
    forall v | v in nodes ensures a[v] == b[v] {
      if !ReachesCycle(g, v) && !ReachesMissing(g, nodes, v) {
        var p :| ChainFrom(g, v, p) && |p| == a[v] + 1;
        var q :| ChainFrom(g, v, q) && |q| == b[v] + 1;
      }
    }
  }

  lemma FallbackLayers(g: Graph, fix: map<string, int>, layer: map<string, int>)
    requires Fixpoint(g, fix)
    requires layer.Keys == fix.Keys
    requires forall v :: v in fix ==> layer[v] == if fix[v] < 0 then 0 else fix[v]
    ensures Layered(g, fix.Keys, layer)
  {
    forall v | v in fix
      ensures if ReachesCycle(g, v) || ReachesMissing(g, fix.Keys, v) then layer[v] == 0
              else LongestChain(g, v, layer[v])
    {
      ResidueIsCyclic(g, fix, v);
      if fix[v] >= 0 { AssignedIsLongest(g, fix, v); }
    }
  }

  /** Every blocks edge goes strictly up, unless its dependent is in the residue. */
  lemma {:induction false} EdgesGoUp(g: Graph, nodes: set<string>, layer: map<string, int>, v: string, d: string)
    requires Layered(g, nodes, layer) && v in nodes && d in Deps(g, v) && d in nodes
    ensures layer[v] > layer[d] <==> !(ReachesCycle(g, v) || ReachesMissing(g, nodes, v))
  {
    if !ReachesCycle(g, v) && !ReachesMissing(g, nodes, v) {
      DependencyIsClean(g, nodes, v, d);
      var p :| ChainFrom(g, d, p) && |p| == layer[d] + 1;
      ChainCons(g, v, p);
      assert |[v] + p| <= layer[v] + 1;
    } else {
      LayersNonNegative(g, nodes, layer, d);
    }
  }

  lemma ChainCons(g: Graph, v: string, p: seq<string>)
    requires Chain(g, p) && p[0] in Deps(g, v)
    ensures ChainFrom(g, v, [v] + p) && ([v] + p)[|p|] == p[|p| - 1]
  {
    var q := [v] + p;
    forall i | 0 <= i < |q| - 1 ensures q[i + 1] in Deps(g, q[i]) {
      if i > 0 { assert p[i] in Deps(g, p[i - 1]); }
    }
  }

  lemma DependencyIsClean(g: Graph, nodes: set<string>, v: string, d: string)
    requires d in Deps(g, v)
    ensures ReachesCycle(g, d) ==> ReachesCycle(g, v)
    ensures ReachesMissing(g, nodes, d) ==> ReachesMissing(g, nodes, v)
  {
    if ReachesCycle(g, d) {
      var p, i, j :| ChainFrom(g, d, p) && 0 <= i < j < |p| && p[i] == p[j];
      ChainCons(g, v, p);
      var q := [v] + p;
      assert q[i + 1] == p[i] && q[j + 1] == p[j];
    }
    if ReachesMissing(g, nodes, d) {
      var p :| ChainFrom(g, d, p) && p[|p| - 1] !in nodes;
      ChainCons(g, v, p);
      assert ([v] + p)[|[v] + p| - 1] !in nodes;
    }
  }

  lemma LayersNonNegative(g: Graph, nodes: set<string>, layer: map<string, int>, v: string)
    requires Layered(g, nodes, layer) && v in nodes
    ensures layer[v] >= 0
  {
    assert ChainFrom(g, v, [v]);
  }

  /** Above layer 0 a node has a dependency just below it. */
  lemma OneBelow(g: Graph, nodes: set<string>, layer: map<string, int>, v: string) returns (d: string)
    requires Layered(g, nodes, layer) && v in nodes && layer[v] > 0
    ensures d in nodes && layer[d] == layer[v] - 1
  {
    var p :| ChainFrom(g, v, p) && |p| == layer[v] + 1;
    d := p[1];
    DependencyIsClean(g, nodes, v, d);
    assert d in nodes by {
      assert ChainFrom(g, v, [v, d]);
      assert [v, d][|[v, d]| - 1] == d;
    }
    var q :| ChainFrom(g, d, q) && |q| == layer[d] + 1;
    ChainCons(g, v, q);
    assert |[v] + q| <= layer[v] + 1;
    assert ChainFrom(g, d, p[1..]) && |p[1..]| <= layer[d] + 1;
  }

  /** Below every layer in use every layer is in use. */
  lemma {:induction false} LayersHaveNoGaps(g: Graph, nodes: set<string>, layer: map<string, int>, v: string, k: int)
    returns (w: string)
    requires Layered(g, nodes, layer) && v in nodes && 0 <= k <= layer[v]
    ensures w in nodes && layer[w] == k
    decreases layer[v]
  {
    if k == layer[v] {
      w := v;
    } else {
      var d := OneBelow(g, nodes, layer, v);
      w := LayersHaveNoGaps(g, nodes, layer, d, k);
    }
  }

  ghost predicate InUse(layer: map<string, int>, k: int) {
    exists w :: w in layer && layer[w] == k
  }

  ghost predicate Gapless(layer: map<string, int>) {
    && (forall v :: v in layer ==> layer[v] >= 0)
    && (forall v, k :: v in layer && 0 <= k <= layer[v] ==> InUse(layer, k))
  }

  lemma {:induction false} LayeredIsGapless(g: Graph, nodes: set<string>, layer: map<string, int>)
    requires Layered(g, nodes, layer)
    ensures Gapless(layer)
  {
    forall v | v in layer ensures layer[v] >= 0 { LayersNonNegative(g, nodes, layer, v); }
    forall v, k | v in layer && 0 <= k <= layer[v] ensures InUse(layer, k) {
      var w := LayersHaveNoGaps(g, nodes, layer, v, k);
    }
  }

  // The code.

  datatype Node = Node(layer: int, position: int, dependsOn: seq<string>)

  function LayerOf(nodes: map<string, Node>): map<string, int> {
    map id | id in nodes :: nodes[id].layer
  }

  /** The layer table: layers partition the nodes, hold no gap, are sorted, and positions index them. */
  ghost predicate Table(nodes: map<string, Node>, layers: seq<seq<string>>, maxLayer: nat) {
    && |layers| == maxLayer + 1
    && (forall id :: id in nodes ==> 0 <= nodes[id].layer <= maxLayer)
    && (forall k :: 0 <= k < |layers| ==> Increasing(layers[k]))
    && (forall k, id :: 0 <= k < |layers| ==> (id in layers[k] <==> id in nodes && nodes[id].layer == k))
    && (forall k, i :: 0 <= k < |layers| && 0 <= i < |layers[k]| ==> nodes[layers[k][i]].position == i)
    && (nodes.Keys != {} ==> forall k :: 0 <= k < |layers| ==> layers[k] != [])
  }

  class GraphLayout {
    var nodes: map<string, Node>
    var layers: seq<seq<string>>
    var maxLayer: nat

    ghost predicate Built(g: Graph)
      reads this
    {
      forall id :: id in nodes ==> nodes[id].dependsOn == Deps(g, id)
    }

    constructor ()
      ensures nodes == map[] && layers == [] && maxLayer == 0
    {
      nodes, layers, maxLayer := map[], [], 0;
    }

    /** Lines 383 to 402: the dependency map and the nodes. */
    method Build(ids: seq<string>, records: seq<Dependency>) returns (g: Graph)
      modifies this`nodes
      ensures forall id :: Deps(g, id) == DependsOn(records, id)
      ensures Built(g) && nodes.Keys == set id | id in ids
      ensures forall id :: id in nodes ==> nodes[id].layer == -1
    {
      g := map[];
      for i := 0 to |records|
        invariant forall id :: Deps(g, id) == DependsOn(records[..i], id)
        invariant nodes == old(nodes)
      {
        var dep := records[i];
        assert records[..i + 1][..i] == records[..i];
        if dep.kind == BLOCKS { g := g[dep.issueId := Deps(g, dep.issueId) + [dep.dependsOnId]]; }
      }
      assert records[..|records|] == records;
      nodes := map[];
      for i := 0 to |ids|
        invariant Built(g) && nodes.Keys == set id | id in ids[..i]
        invariant forall id :: id in nodes ==> nodes[id].layer == -1
      {
        nodes := nodes[ids[i] := Node(-1, 0, Deps(g, ids[i]))];
      }
      assert ids[..|ids|] == ids;
    }

    ghost predicate SameShape(was: map<string, Node>)
      reads this
    {
      nodes.Keys == was.Keys && forall id :: id in was ==> nodes[id].dependsOn == was[id].dependsOn
    }

    ghost function Unassigned(): set<string>
      reads this
    {
      set id | id in nodes && nodes[id].layer < 0
    }

    /** Lines 420 to 432: whether every dependency has its layer, and the highest of them. */
    method HighestDependency(g: Graph, id: string) returns (allAssigned: bool, top: int)
      ensures allAssigned <==> Ready(g, LayerOf(nodes), id)
      ensures allAssigned ==> top == MaxLayer(LayerOf(nodes), Deps(g, id))
    {
      var deps := Deps(g, id);
      top := -1;
      for i := 0 to |deps|
        invariant forall d :: d in deps[..i] ==> d in nodes && nodes[d].layer >= 0
        invariant top == MaxLayer(LayerOf(nodes), deps[..i])
      {
        assert deps[..i + 1][..i] == deps[..i] && deps[..i + 1] == deps[..i] + [deps[i]];
        assert deps[i] in deps;
        if deps[i] !in nodes || nodes[deps[i]].layer < 0 {
          return false, top;
        }
        if nodes[deps[i]].layer > top { top := nodes[deps[i]].layer; }
      }
      assert deps[..|deps|] == deps;
      return true, top;
    }

    /** Lines 410 to 437, for one node; `done` when it was given a layer. */
    method VisitNode(g: Graph, id: string) returns (done: bool)
      requires id in nodes && Consistent(g, LayerOf(nodes))
      modifies this`nodes
      ensures SameShape(old(nodes)) && Consistent(g, LayerOf(nodes))
      ensures done ==> Unassigned() < old(Unassigned())
      ensures !done ==> nodes == old(nodes) && (nodes[id].layer >= 0 || !Ready(g, LayerOf(nodes), id))
    {
      if nodes[id].layer >= 0 { return false; }
      var ready, top := HighestDependency(g, id);
      if !ready { return false; }
      AssignKeepsConsistent(g, LayerOf(nodes), id, top + 1);
      LayerAssigned(nodes, id, top + 1);
      nodes := nodes[id := nodes[id].(layer := top + 1)];
      assert id in old(Unassigned()) && id !in Unassigned();
      return true;
    }

    /** Lines 408 to 438: one sweep over the node map, in any order. */
    method Sweep(g: Graph) returns (changed: bool)
      requires Consistent(g, LayerOf(nodes))
      modifies this`nodes
      ensures SameShape(old(nodes)) && Consistent(g, LayerOf(nodes))
      ensures changed ==> Unassigned() < old(Unassigned())
      ensures !changed ==> nodes == old(nodes) && Saturated(g, LayerOf(nodes))
    {
      changed := false;
      var rest := nodes.Keys;
      while rest != {}
        invariant rest <= nodes.Keys
        invariant SameShape(old(nodes)) && Consistent(g, LayerOf(nodes))
        invariant if changed then Unassigned() < old(Unassigned()) else nodes == old(nodes)
        invariant !changed ==> forall id :: id in nodes && id !in rest && nodes[id].layer < 0 ==>
                    !Ready(g, LayerOf(nodes), id)
        decreases rest
      {
        var id :| id in rest;
        rest := rest - {id};
        var done := VisitNode(g, id);
        changed := changed || done;
      }
    }

    /** Lines 406 to 439: sweep until a sweep changes nothing. */
    method AssignLayers(g: Graph)
      requires Built(g) && forall id :: id in nodes ==> nodes[id].layer == -1
      modifies this`nodes
      ensures SameShape(old(nodes)) && Fixpoint(g, LayerOf(nodes))
    {
      var changed := true;
      while changed
        invariant SameShape(old(nodes)) && Consistent(g, LayerOf(nodes))
        invariant !changed ==> Saturated(g, LayerOf(nodes))
        decreases Unassigned(), changed
      {
        changed := Sweep(g);
      }
    }

    /** Lines 441 to 446: whatever is left goes to layer 0. */
    method ForceRemaining()
      modifies this`nodes
      ensures SameShape(old(nodes))
      ensures forall id :: id in nodes ==>
                nodes[id].layer == if old(nodes)[id].layer < 0 then 0 else old(nodes)[id].layer
    {
      var rest := nodes.Keys;
      while rest != {}
        invariant rest <= nodes.Keys && SameShape(old(nodes))
        invariant forall id :: id in nodes ==>
                    nodes[id].layer == if old(nodes)[id].layer < 0 && id !in rest then 0 else old(nodes)[id].layer
        decreases rest
      {
        var id :| id in rest;
        rest := rest - {id};
        if nodes[id].layer < 0 { nodes := nodes[id := nodes[id].(layer := 0)]; }
      }
    }

    ghost predicate Collected()
      reads this
    {
      forall k, id :: 0 <= k < |layers| ==> (id in layers[k] <==> id in nodes && nodes[id].layer == k)
    }

    /** Lines 448 to 453. */
    method FindMaxLayer()
      modifies this`maxLayer
      ensures forall id :: id in nodes ==> nodes[id].layer <= maxLayer
      ensures maxLayer > 0 ==> exists id :: id in nodes && nodes[id].layer == maxLayer
    {
      maxLayer := 0;
      var rest := nodes.Keys;
      while rest != {}
        invariant rest <= nodes.Keys
        invariant forall id :: id in nodes && id !in rest ==> nodes[id].layer <= maxLayer
        invariant maxLayer > 0 ==> exists id :: id in nodes && nodes[id].layer == maxLayer
        decreases rest
      {
        var id :| id in rest;
        rest := rest - {id};
        if nodes[id].layer > maxLayer { maxLayer := nodes[id].layer; }
      }
    }

    /** Lines 455 to 458: append each node to its layer, in any order. */
    method CollectLayers()
      requires forall id :: id in nodes ==> 0 <= nodes[id].layer <= maxLayer
      modifies this`layers
      ensures |layers| == maxLayer + 1 && Collected()
      ensures forall k :: 0 <= k < |layers| ==> Distinct(layers[k])
    {
      layers := seq(maxLayer + 1, _ => []);
      var rest := nodes.Keys;
      while rest != {}
        invariant rest <= nodes.Keys && |layers| == maxLayer + 1
        invariant forall k :: 0 <= k < |layers| ==> Distinct(layers[k])
        invariant forall k, id :: 0 <= k < |layers| ==> (id in layers[k] <==>
                    id in nodes && id !in rest && nodes[id].layer == k)
        decreases rest
      {
        var id :| id in rest;
        rest := rest - {id};
        var k := nodes[id].layer;
        layers := layers[k := layers[k] + [id]];
      }
    }

    /** Lines 460 to 463. */
    method SortLayers()
      requires Collected() && forall k :: 0 <= k < |layers| ==> Distinct(layers[k])
      modifies this`layers
      ensures |layers| == old(|layers|) && Collected()
      ensures forall k :: 0 <= k < |layers| ==> Increasing(layers[k])
    {
      var n := |layers|;
      for i := 0 to n
        invariant |layers| == n && Collected()
        invariant forall k :: i <= k < n ==> Distinct(layers[k])
        invariant forall k :: 0 <= k < i ==> Increasing(layers[k])
      {
        SortStrings(layers[i]);
        layers := layers[i := Sort(Less, layers[i])];
      }
    }

    /** Lines 465 to 470. */
    method AssignPositions()
      requires Collected() && forall k :: 0 <= k < |layers| ==> Increasing(layers[k])
      modifies this`nodes
      ensures SameShape(old(nodes)) && LayerOf(nodes) == old(LayerOf(nodes))
      ensures forall k, i :: 0 <= k < |layers| && 0 <= i < |layers[k]| ==>
                layers[k][i] in nodes && nodes[layers[k][i]].position == i
    {
      for k := 0 to |layers|
        invariant SameShape(old(nodes)) && LayerOf(nodes) == old(LayerOf(nodes))
        invariant forall k', i :: 0 <= k' < k && 0 <= i < |layers[k']| ==>
                    layers[k'][i] in nodes && nodes[layers[k'][i]].position == i
      {
        ghost var before := nodes;
        assert forall id :: id in nodes ==> LayerOf(nodes)[id] == old(LayerOf(nodes))[id];
        PositionLayer(layers[k], k);
        forall k', i | 0 <= k' < k && 0 <= i < |layers[k']| ensures nodes[layers[k'][i]] == before[layers[k'][i]] {
          assert layers[k'][i] in layers[k'];
        }
      }
    }

    /** Lines 467 to 469. */
    method PositionLayer(layer: seq<string>, ghost k: int)
      requires Increasing(layer) && forall id :: id in layer ==> id in nodes && nodes[id].layer == k
      modifies this`nodes
      ensures SameShape(old(nodes)) && LayerOf(nodes) == old(LayerOf(nodes))
      ensures forall i :: 0 <= i < |layer| ==> nodes[layer[i]].position == i
      ensures forall id :: id in nodes && id !in layer ==> nodes[id] == old(nodes)[id]
    {
      IncreasingDistinct(layer);
      for pos := 0 to |layer|
        invariant nodes.Keys == old(nodes).Keys
        invariant forall id :: id in nodes ==> nodes[id].(position := 0) == old(nodes)[id].(position := 0)
        invariant forall i :: 0 <= i < pos ==> nodes[layer[i]].position == i
        invariant forall id :: id in nodes && id !in layer ==> nodes[id] == old(nodes)[id]
      {
        var id := layer[pos];
        nodes := nodes[id := nodes[id].(position := pos)];
      }
      assert forall id :: id in nodes ==>
                    nodes[id].layer == nodes[id].(position := 0).layer &&
                    nodes[id].dependsOn == nodes[id].(position := 0).dependsOn;
    }

    /** Lines 404 to 446. */
    method LayerNodes(g: Graph)
      requires Built(g) && forall id :: id in nodes ==> nodes[id].layer == -1
      modifies this`nodes
      ensures SameShape(old(nodes)) && Layered(g, nodes.Keys, LayerOf(nodes))
    {
      AssignLayers(g);
      ghost var fix := LayerOf(nodes);
      ForceRemaining();
      FallbackLayers(g, fix, LayerOf(nodes));
    }

    /** Lines 448 to 470. */
    method Arrange()
      requires Gapless(LayerOf(nodes))
      modifies this
      ensures SameShape(old(nodes)) && LayerOf(nodes) == old(LayerOf(nodes))
      ensures Table(nodes, layers, maxLayer)
    {
      ghost var layer := LayerOf(nodes);
      assert forall id :: id in nodes ==> layer[id] == nodes[id].layer;
      FindMaxLayer();
      if maxLayer > 0 {
        ghost var top :| top in nodes && nodes[top].layer == maxLayer;
        assert layer[top] == maxLayer;
      }
      CollectLayers();
      SortLayers();
      assert layer == LayerOf(nodes);
      assert maxLayer > 0 ==> InUse(layer, maxLayer);
      TableIsFull(layer, layers, maxLayer);
      AssignPositions();
      TableAssembled(nodes, layer, layers, maxLayer);
    }

    /** computeLayout. */
    method Compute(ids: seq<string>, records: seq<Dependency>) returns (g: Graph)
      modifies this
      ensures forall id :: Deps(g, id) == DependsOn(records, id)
      ensures Built(g) && nodes.Keys == set id | id in ids
      ensures Layered(g, nodes.Keys, LayerOf(nodes))
      ensures Table(nodes, layers, maxLayer)
    {
      g := Build(ids, records);
      LayerNodes(g);
      LayeredIsGapless(g, nodes.Keys, LayerOf(nodes));
      Arrange();
    }
  }

  lemma LayerAssigned(nodes: map<string, Node>, id: string, k: int)
    requires id in nodes
    ensures LayerOf(nodes[id := nodes[id].(layer := k)]) == LayerOf(nodes)[id := k]
  {
  }

  lemma AssignKeepsConsistent(g: Graph, layer: map<string, int>, id: string, k: int)
    requires Consistent(g, layer) && id in layer && layer[id] < 0
    requires Ready(g, layer, id) && k == MaxLayer(layer, Deps(g, id)) + 1
    ensures k >= 0 && Consistent(g, layer[id := k])
  {
    var l := layer[id := k];
    MaxLayerIsMax(layer, Deps(g, id));
    forall v | v in l && l[v] >= 0 ensures Ready(g, l, v) && l[v] == MaxLayer(l, Deps(g, v)) + 1 {
      assert Ready(g, layer, v);
      assert id !in Deps(g, v);
      MaxLayerFrame(layer, l, Deps(g, v));
    }
  }

  lemma {:induction false} MaxLayerFrame(a: map<string, int>, b: map<string, int>, ds: seq<string>)
    requires forall d :: d in ds ==> d in a && d in b && a[d] == b[d]
    ensures MaxLayer(a, ds) == MaxLayer(b, ds)
  {
    if ds != [] {
      assert ds == ds[..|ds| - 1] + [ds[|ds| - 1]];
      MaxLayerFrame(a, b, ds[..|ds| - 1]);
    }
  }

  lemma TableAssembled(nodes: map<string, Node>, layer: map<string, int>, layers: seq<seq<string>>, maxLayer: nat)
    requires LayerOf(nodes) == layer && |layers| == maxLayer + 1
    requires forall id :: id in layer ==> 0 <= layer[id] <= maxLayer
    requires forall k :: 0 <= k < |layers| ==> Increasing(layers[k])
    requires forall k, id :: 0 <= k < |layers| ==> (id in layers[k] <==> id in layer && layer[id] == k)
    requires forall k, i :: 0 <= k < |layers| && 0 <= i < |layers[k]| ==>
               layers[k][i] in nodes && nodes[layers[k][i]].position == i
    requires layer.Keys != {} ==> forall k :: 0 <= k < |layers| ==> layers[k] != []
    ensures Table(nodes, layers, maxLayer)
  {
    assert forall id :: id in nodes <==> id in layer;
    assert forall id :: id in nodes ==> nodes[id].layer == layer[id];
  }

  /** No layer of the table is empty, cycles or not. */
  lemma TableIsFull(layer: map<string, int>, layers: seq<seq<string>>, maxLayer: nat)
    requires Gapless(layer)
    requires |layers| == maxLayer + 1 && (maxLayer > 0 ==> InUse(layer, maxLayer))
    requires forall k, id :: 0 <= k < |layers| ==> (id in layers[k] <==> id in layer && layer[id] == k)
    ensures layer.Keys != {} ==> forall k :: 0 <= k < |layers| ==> layers[k] != []
  {
    forall k | layer.Keys != {} && 0 <= k < |layers| ensures layers[k] != [] {
      var v :| v in layer && (maxLayer > 0 ==> layer[v] == maxLayer);
      assert InUse(layer, k);
      var w :| w in layer && layer[w] == k;
      assert w in layers[k];
    }
  }
}
