/** filterTreeByStatus of cmd/binds/dep.go: the nodes of one status, with all their ancestors. */
module TreeFilter {
  import opened Order
  import opened DepTree

  /** parentOf: the last node of an ID that names another ID as its parent decides. */
  function ParentMap(tree: seq<Node>): map<string, string> {
    if tree == [] then map[]
    else
      var m, n := ParentMap(tree[..|tree| - 1]), tree[|tree| - 1];
      if n.parentId != "" && n.parentId != n.id then m[n.id := n.parentId] else m
  }

  function Matches(tree: seq<Node>, status: string): set<string> {
    set n | n in tree && n.status == status :: n.id
  }

  /** The k-th ancestor, if there is one. */
  function Ancestor(parents: map<string, string>, id: string, k: nat): Option<string> {
    if k == 0 then Some(id)
    else
      var a := Ancestor(parents, id, k - 1);
      if a.Some? && a.value in parents then Some(parents[a.value]) else None
  }

  /** The walk from `id` to its root comes to an end. */
  ghost predicate WalkEnds(parents: map<string, string>, id: string) {
    exists k: nat :: Ancestor(parents, id, k).None?
  }

  ghost predicate AncestorClosed(parents: map<string, string>, s: set<string>) {
    forall id :: id in s && id in parents ==> parents[id] in s
  }

  /** `keep` is the least ancestor-closed set that holds `from`. */
  ghost predicate LeastClosed(parents: map<string, string>, from: set<string>, keep: set<string>) {
    && from <= keep && AncestorClosed(parents, keep)
    && forall s :: from <= s && AncestorClosed(parents, s) ==> keep <= s
  }

  function KeepIn(tree: seq<Node>, keep: set<string>): seq<Node> {
    if tree == [] then []
    else KeepIn(tree[..|tree| - 1], keep) + if tree[|tree| - 1].id in keep then [tree[|tree| - 1]] else []
  }

  // When the walk ends.

  lemma {:induction false} AncestorStep(parents: map<string, string>, id: string, k: nat)
    ensures id in parents ==> Ancestor(parents, id, k + 1) == Ancestor(parents, parents[id], k)
    ensures id !in parents ==> Ancestor(parents, id, k + 1).None?
  {
    if k == 0 {
      assert Ancestor(parents, id, 0) == Some(id);
    } else {
      AncestorStep(parents, id, k - 1);
    }
  }

  lemma WalkEndsAtParent(parents: map<string, string>, id: string)
    requires id in parents
    ensures WalkEnds(parents, id) <==> WalkEnds(parents, parents[id])
  {
    if WalkEnds(parents, id) {
      var k: nat :| Ancestor(parents, id, k).None?;
      AncestorStep(parents, id, k - 1);
    }
    if WalkEnds(parents, parents[id]) {
      var k: nat :| Ancestor(parents, parents[id], k).None?;
      AncestorStep(parents, id, k);
      assert Ancestor(parents, id, k + 1).None?;
    }
  }

  lemma {:induction false} AncestorsRepeat(parents: map<string, string>, id: string, i: nat, j: nat, k: nat)
    requires i < j && Ancestor(parents, id, i).Some? && Ancestor(parents, id, i) == Ancestor(parents, id, j)
    ensures Ancestor(parents, id, i + k) == Ancestor(parents, id, j + k)
  {
    if k > 0 { AncestorsRepeat(parents, id, i, j, k - 1); }
  }

  lemma {:induction false} AncestorsPersist(parents: map<string, string>, id: string, i: nat, j: nat)
    requires i <= j && Ancestor(parents, id, i).None?
    ensures Ancestor(parents, id, j).None?
    decreases j
  {
    if i < j { AncestorsPersist(parents, id, i, j - 1); }
  }

  lemma {:induction false} RepeatGoesOn(parents: map<string, string>, id: string, i: nat, j: nat, n: nat)
    requires i < j && Ancestor(parents, id, i).Some? && Ancestor(parents, id, i) == Ancestor(parents, id, j)
    ensures Ancestor(parents, id, n).Some?
    decreases n
  {
    if n > j {
      AncestorsRepeat(parents, id, i, j, n - j);
      RepeatGoesOn(parents, id, i, j, i + (n - j));
    } else if Ancestor(parents, id, n).None? {
      AncestorsPersist(parents, id, n, j);
    }
  }

  /** The first `n` IDs of a walk that goes on at least so far. */
  function Walk(parents: map<string, string>, id: string, n: nat): seq<string>
    requires forall k :: 0 <= k < n ==> Ancestor(parents, id, k).Some?
  {
    seq(n, k requires 0 <= k < n => Ancestor(parents, id, k).value)
  }

  /** The walk from `id` comes back at step `j` to where it was at step `i`. */
  predicate Returns(parents: map<string, string>, id: string, i: nat, j: nat) {
    i < j && Ancestor(parents, id, i).Some? && Ancestor(parents, id, i) == Ancestor(parents, id, j)
  }

  lemma ReturningNeverEnds(parents: map<string, string>, id: string, i: nat, j: nat)
    requires Returns(parents, id, i, j)
    ensures !WalkEnds(parents, id)
  {
    forall n: nat ensures Ancestor(parents, id, n).Some? { RepeatGoesOn(parents, id, i, j, n); }
  }

  lemma EndlessReturns(parents: map<string, string>, id: string)
    requires !WalkEnds(parents, id)
    ensures exists i: nat, j: nat :: Returns(parents, id, i, j)
  {
    var ids := {id} + parents.Values;
    var n := |ids| + 1;
    assert forall k: nat :: Ancestor(parents, id, k).Some?;
    var walk := Walk(parents, id, n);
    forall k | 0 <= k < n ensures walk[k] in ids {
      if k > 0 { assert Ancestor(parents, id, k - 1).Some?; }
    }
    if Distinct(walk) { Pigeonhole(walk, ids); }
    var i, j :| 0 <= i < j < n && walk[i] == walk[j];
    assert Returns(parents, id, i, j);
  }

  /** The walk from `id` ends exactly when no ancestor of it is met twice. */
  lemma WalkEndsIffNoCycle(parents: map<string, string>, id: string)
    ensures WalkEnds(parents, id) <==>
            !exists i: nat, j: nat :: Returns(parents, id, i, j)
  {
    if i: nat, j: nat :| Returns(parents, id, i, j) {
      ReturningNeverEnds(parents, id, i, j);
    } else if !WalkEnds(parents, id) {
      EndlessReturns(parents, id);
    }
  }

  /** Node `k` is the last one of its ID that names another ID as its parent. */
  ghost predicate Decides(tree: seq<Node>, k: nat, id: string) {
    && k < |tree| && tree[k].id == id && tree[k].parentId != "" && tree[k].parentId != id
    && forall j :: k < j < |tree| && tree[j].id == id ==> tree[j].parentId == "" || tree[j].parentId == id
  }

  lemma DecidesStill(tree: seq<Node>, n: Node, k: nat, id: string)
    requires Decides(tree, k, id) && !(n.id == id && n.parentId != "" && n.parentId != id)
    ensures Decides(tree + [n], k, id)
  {
  }

  lemma {:induction false} ParentMapExactly(tree: seq<Node>, id: string)
    ensures id in ParentMap(tree) <==> exists k :: 0 <= k < |tree| && tree[k].id == id && tree[k].parentId !in {"", id}
    ensures id in ParentMap(tree) ==> exists k: nat :: Decides(tree, k, id) && tree[k].parentId == ParentMap(tree)[id]
  {
    if tree != [] {
      var front, n := tree[..|tree| - 1], tree[|tree| - 1];
      assert tree == front + [n];
      ParentMapExactly(front, id);
      if n.id == id && n.parentId != "" && n.parentId != id {
        assert Decides(tree, |front|, id);
      } else if id in ParentMap(front) {
        var k: nat :| Decides(front, k, id) && front[k].parentId == ParentMap(front)[id];
        DecidesStill(front, n, k, id);
        assert tree[k] == front[k];
      } else {
        assert forall k :: 0 <= k < |front| ==> front[k] == tree[k];
      }
    }
  }

  /** Parents named in the tree sit higher than their children. */
  ghost predicate ParentsAbove(tree: seq<Node>) {
    forall n, p :: n in tree && p in tree && n.parentId == p.id && p.id != n.id ==> 0 <= p.depth < n.depth
  }

  /** On a tree with unique IDs whose parents sit above their children every walk ends. */
  lemma {:induction false} WalkEndsOnTree(tree: seq<Node>, n: Node)
    requires UniqueIds(tree) && ParentsAbove(tree) && n in tree
    ensures WalkEnds(ParentMap(tree), n.id)
    decreases if n.depth < 0 then 0 else n.depth
  {
    var parents := ParentMap(tree);
    ParentMapExactly(tree, n.id);
    if n.id !in parents {
      AncestorStep(parents, n.id, 0);
      assert Ancestor(parents, n.id, 0 + 1).None?;
    } else {
      var up := parents[n.id];
      if p :| p in tree && p.id == up {
        WalkEndsOnTree(tree, p);
      } else {
        AncestorStep(parents, up, 0);
        ParentMapExactly(tree, up);
        assert up !in parents;
        assert Ancestor(parents, up, 0 + 1).None?;
      }
      WalkEndsAtParent(parents, n.id);
    }
  }

  /** With every path of a cyclic graph shown, IDs repeat and the walk can run for ever. */
  lemma CyclicWalkNeverEnds()
    ensures var tree := [Node("r", "closed", 0, "r", false), Node("a", "open", 1, "r", false),
                         Node("b", "open", 1, "r", false),
                         Node("a", "open", 2, "b", false), Node("b", "open", 2, "a", false)];
            ParentMap(tree) == map["a" := "b", "b" := "a"] && !WalkEnds(ParentMap(tree), "a")
  {
    var tree := [Node("r", "closed", 0, "r", false), Node("a", "open", 1, "r", false), Node("b", "open", 1, "r", false),
                 Node("a", "open", 2, "b", false), Node("b", "open", 2, "a", false)];
    assert ParentMap(tree[..0]) == map[];
    assert tree[..1][..0] == tree[..0] && ParentMap(tree[..1]) == map[];
    assert tree[..2][..1] == tree[..1] && ParentMap(tree[..2]) == map["a" := "r"];
    assert tree[..3][..2] == tree[..2] && ParentMap(tree[..3]) == map["a" := "r", "b" := "r"];
    assert tree[..4][..3] == tree[..3] && ParentMap(tree[..4]) == map["a" := "b", "b" := "r"];
    assert tree[..5][..4] == tree[..4] && tree[..5] == tree;
    var parents := map["a" := "b", "b" := "a"];
    assert ParentMap(tree) == parents;
    assert Ancestor(parents, "a", 0) == Some("a") && Ancestor(parents, "a", 2) == Some("a") by {
      AncestorStep(parents, "a", 1);
      AncestorStep(parents, "b", 0);
    }
    ReturningNeverEnds(parents, "a", 0, 2);
  }

  // What the filter keeps.

  /** `filtered` is the tree restricted, in order, to the least ancestor-closed set that holds every ID of
      the status. */
  ghost predicate Filtered(tree: seq<Node>, status: string, filtered: seq<Node>) {
    exists keep :: LeastClosed(ParentMap(tree), Matches(tree, status), keep) && filtered == KeepIn(tree, keep)
  }

  /** `id` is an ancestor of, or itself, one of `from`. */
  ghost predicate Above(parents: map<string, string>, from: set<string>, id: string) {
    exists m, k: nat :: m in from && Ancestor(parents, m, k) == Some(id)
  }

  lemma {:induction false} ClosedHoldsAncestors(parents: map<string, string>, s: set<string>, m: string, k: nat)
    requires AncestorClosed(parents, s) && m in s && Ancestor(parents, m, k).Some?
    ensures Ancestor(parents, m, k).value in s
  {
    if k > 0 { ClosedHoldsAncestors(parents, s, m, k - 1); }
  }

  /** The least ancestor-closed set holds exactly the given IDs and their ancestors. */
  lemma LeastClosedIsAbove(parents: map<string, string>, from: set<string>, keep: set<string>, id: string)
    requires LeastClosed(parents, from, keep)
    ensures id in keep <==> Above(parents, from, id)
  {
    var above := set x | x in keep && Above(parents, from, x);
    forall x | x in from ensures x in above { assert Ancestor(parents, x, 0) == Some(x); }
    forall x | x in above && x in parents ensures parents[x] in above {
      var m, k: nat :| m in from && Ancestor(parents, m, k) == Some(x);
      assert Ancestor(parents, m, k + 1) == Some(parents[x]);
    }
    assert keep <= above;
    if Above(parents, from, id) {
      var m, k: nat :| m in from && Ancestor(parents, m, k) == Some(id);
      ClosedHoldsAncestors(parents, keep, m, k);
    }
  }

  /** Nodes are kept by ID, each where it stands and as often as it stands. */
  lemma {:induction false} KeepInAt(tree: seq<Node>, keep: set<string>) returns (at: seq<nat>)
    ensures Positions(at, |tree|) && |at| == |KeepIn(tree, keep)|
    ensures forall i :: i in at <==> 0 <= i < |tree| && tree[i].id in keep
    ensures forall j :: 0 <= j < |at| ==> KeepIn(tree, keep)[j] == tree[at[j]]
  {
    at := [];
    if tree != [] {
      var n := |tree| - 1;
      at := KeepInAt(tree[..n], keep);
      MorePositions(at, n);
      if tree[n].id in keep { at := at + [n]; }
    }
  }

  /** Parents followed upwards. */
  ghost predicate Climbs(parents: map<string, string>, p: seq<string>) {
    p != [] && forall i :: 0 <= i < |p| - 1 ==> p[i] in parents && parents[p[i]] == p[i + 1]
  }

  ghost predicate Leads(parents: map<string, string>, from: string, to: string) {
    exists p :: Climbs(parents, p) && p[0] == from && p[|p| - 1] == to
  }

  lemma {:induction false} ClimbIsAncestor(parents: map<string, string>, p: seq<string>, k: nat)
    requires Climbs(parents, p) && k < |p|
    ensures Ancestor(parents, p[0], k) == Some(p[k])
  {
    if k > 0 { ClimbIsAncestor(parents, p, k - 1); }
  }

  lemma {:induction false} AncestorClimbs(parents: map<string, string>, id: string, k: nat) returns (p: seq<string>)
    requires Ancestor(parents, id, k).Some?
    ensures Climbs(parents, p) && p[0] == id && Some(p[|p| - 1]) == Ancestor(parents, id, k)
  {
    if k == 0 {
      p := [id];
    } else {
      var q := AncestorClimbs(parents, id, k - 1);
      p := q + [Ancestor(parents, id, k).value];
    }
  }

  /** The filter in full: a node stays where it stood if and only if its ID is reached by following parents up
      from the ID of a node of the wanted status. */
  lemma FilterExactly(tree: seq<Node>, status: string, filtered: seq<Node>) returns (at: seq<nat>)
    requires Filtered(tree, status, filtered)
    ensures Positions(at, |tree|) && |at| == |filtered|
    ensures forall j :: 0 <= j < |at| ==> filtered[j] == tree[at[j]]
    ensures forall i :: i in at <==>
              && 0 <= i < |tree|
              && exists m :: m in tree && m.status == status && Leads(ParentMap(tree), m.id, tree[i].id)
  {
    var parents := ParentMap(tree);
    var keep :| LeastClosed(parents, Matches(tree, status), keep) && filtered == KeepIn(tree, keep);
    at := KeepInAt(tree, keep);
    forall i | 0 <= i < |tree|
      ensures tree[i].id in keep <==> exists m :: m in tree && m.status == status && Leads(parents, m.id, tree[i].id)
    {
      KeptIffLed(tree, status, keep, tree[i].id);
    }
  }

  lemma KeptIffLed(tree: seq<Node>, status: string, keep: set<string>, id: string)
    requires LeastClosed(ParentMap(tree), Matches(tree, status), keep)
    ensures id in keep <==> exists m :: m in tree && m.status == status && Leads(ParentMap(tree), m.id, id)
  {
    var parents, from := ParentMap(tree), Matches(tree, status);
    LeastClosedIsAbove(parents, from, keep, id);
    if Above(parents, from, id) {
      var x, k: nat :| x in from && Ancestor(parents, x, k) == Some(id);
      var m :| m in tree && m.status == status && m.id == x;
      var p := AncestorClimbs(parents, x, k);
      assert Leads(parents, m.id, id);
    }
    if m :| m in tree && m.status == status && Leads(parents, m.id, id) {
      var p :| Climbs(parents, p) && p[0] == m.id && p[|p| - 1] == id;
      ClimbIsAncestor(parents, p, |p| - 1);
      assert m.id in from;
    }
  }

  lemma {:induction false} KeepInElements(tree: seq<Node>, keep: set<string>, n: Node)
    ensures n in KeepIn(tree, keep) <==> n in tree && n.id in keep
  {
    if tree != [] {
      assert tree == tree[..|tree| - 1] + [tree[|tree| - 1]];
      KeepInElements(tree[..|tree| - 1], keep, n);
    }
  }

  /** A node is kept exactly when it, or a descendant of it, has the wanted status. */
  lemma FilterKeeps(tree: seq<Node>, status: string, filtered: seq<Node>, n: Node)
    requires Filtered(tree, status, filtered)
    ensures n in filtered <==> n in tree && Above(ParentMap(tree), Matches(tree, status), n.id)
  {
    var keep :| LeastClosed(ParentMap(tree), Matches(tree, status), keep) && filtered == KeepIn(tree, keep);
    LeastClosedIsAbove(ParentMap(tree), Matches(tree, status), keep, n.id);
    KeepInElements(tree, keep, n);
  }

  // The code.

  /** Lines 860 to 867: mark everything above `id`. */
  method MarkAncestors(parents: map<string, string>, id: string, keep0: set<string>, ghost from: set<string>)
    returns (keep: set<string>)
    requires WalkEnds(parents, id)
    requires forall s :: from <= s && AncestorClosed(parents, s) ==> keep0 <= s
    requires id in from && (forall x :: x in keep0 && x in parents ==> parents[x] in keep0)
    ensures keep0 <= keep && id in keep && AncestorClosed(parents, keep)
    ensures forall s :: from <= s && AncestorClosed(parents, s) ==> keep <= s
  {
    keep := keep0 + {id};
    var current := id;
    ghost var left: nat :| Ancestor(parents, id, left).None?;
    while current in parents && parents[current] != current
      invariant keep0 <= keep && id in keep && current in keep
      invariant Ancestor(parents, current, left).None?
      invariant forall x :: x in keep && x in parents && x != current ==> parents[x] in keep
      invariant forall s :: from <= s && AncestorClosed(parents, s) ==> keep <= s
      decreases left
    {
      AncestorStep(parents, current, left - 1);
      left := left - 1;
      current := parents[current];
      keep := keep + {current};
    }
  }

  /** Lines 858 to 867, the matching IDs taken in any order. */
  method MarkAll(parents: map<string, string>, matches: set<string>) returns (marked: set<string>)
    requires forall id :: id in matches ==> WalkEnds(parents, id)
    ensures LeastClosed(parents, matches, marked)
  {
    marked := {};
    var rest := matches;
    while rest != {}
      invariant rest <= matches && matches - rest <= marked
      invariant AncestorClosed(parents, marked)
      invariant forall s :: matches <= s && AncestorClosed(parents, s) ==> marked <= s
      decreases rest
    {
      var id :| id in rest;
      rest := rest - {id};
      marked := MarkAncestors(parents, id, marked, matches);
    }
  }

  /** filterTreeByStatus. It returns exactly when no walk from a matching node runs in a cycle, which the
      precondition says. */
  method FilterByStatus(tree: seq<Node>, status: string) returns (filtered: seq<Node>)
    requires forall id :: id in Matches(tree, status) ==> WalkEnds(ParentMap(tree), id)
    ensures Filtered(tree, status, filtered)
  {
    var matches: set<string> := {};
    var parents: map<string, string> := map[];
    for i := 0 to |tree|
      invariant matches == Matches(tree[..i], status)
    {
      if tree[i].status == status { matches := matches + {tree[i].id}; }
    }
    for i := 0 to |tree|
      invariant parents == ParentMap(tree[..i])
    {
      assert tree[..i + 1][..i] == tree[..i];
      if tree[i].parentId != "" && tree[i].parentId != tree[i].id {
        parents := parents[tree[i].id := tree[i].parentId];
      }
    }
    assert tree[..|tree|] == tree;
    var marked := MarkAll(parents, matches);
    filtered := [];
    for i := 0 to |tree|
      invariant filtered == KeepIn(tree[..i], marked)
    {
      assert tree[..i + 1][..i] == tree[..i];
      if tree[i].id in marked { filtered := filtered + [tree[i]]; }
    }
    assert tree[..|tree|] == tree;
  }
}
