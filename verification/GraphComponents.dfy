/**
 The breadth-first searches of cmd/binds/graph.go: loadAllGraphSubgraphs groups the open issues into
 connected components, loadGraphSubgraph collects everything that depends on one issue.
 */
module GraphComponents {
  import opened Order

  const EPIC := "epic"

  datatype Issue = Issue(id: string, issueType: string, priority: int, created: int)

  datatype Dependency = Dependency(issueId: string, dependsOnId: string, kind: string)

  datatype Subgraph = Subgraph(root: Issue, issues: seq<Issue>, dependencies: seq<Dependency>)

  function IdSet(all: seq<Issue>): set<string> {
    set x | x in all :: x.id
  }

  type Adjacency = map<string, seq<string>>

  function Neighbours(adj: Adjacency, id: string): seq<string> {
    if id in adj then adj[id] else []
  }

  // Reachability.

  ghost predicate Path(adj: Adjacency, p: seq<string>) {
    p != [] && forall i :: 0 <= i < |p| - 1 ==> p[i + 1] in Neighbours(adj, p[i])
  }

  ghost predicate Reaches(adj: Adjacency, a: string, b: string) {
    exists p :: Path(adj, p) && p[0] == a && p[|p| - 1] == b
  }

  lemma ReachesSelf(adj: Adjacency, a: string)
    ensures Reaches(adj, a, a)
  {
    assert Path(adj, [a]);
  }

  lemma ReachesStep(adj: Adjacency, a: string, b: string, c: string)
    requires Reaches(adj, a, b) && c in Neighbours(adj, b)
    ensures Reaches(adj, a, c)
  {
    var p :| Path(adj, p) && p[0] == a && p[|p| - 1] == b;
    var q := p + [c];
    forall i | 0 <= i < |q| - 1 ensures q[i + 1] in Neighbours(adj, q[i]) {
      if i < |p| - 1 { assert p[i + 1] in Neighbours(adj, p[i]); }
    }
    assert Path(adj, q);
  }

  lemma ReachesTransitive(adj: Adjacency, a: string, b: string, c: string)
    requires Reaches(adj, a, b) && Reaches(adj, b, c)
    ensures Reaches(adj, a, c)
  {
    var p :| Path(adj, p) && p[0] == a && p[|p| - 1] == b;
    var q :| Path(adj, q) && q[0] == b && q[|q| - 1] == c;
    var r := p + q[1..];
    forall i | 0 <= i < |r| - 1 ensures r[i + 1] in Neighbours(adj, r[i]) {
      if i < |p| - 1 { assert p[i + 1] in Neighbours(adj, p[i]); }
      else { assert q[i + 1 - |p| + 1] in Neighbours(adj, q[i - |p| + 1]); }
    }
    assert Path(adj, r);
  }

  ghost predicate Symmetric(adj: Adjacency) {
    forall a, b :: b in Neighbours(adj, a) ==> a in Neighbours(adj, b)
  }

  lemma ReachesSymmetric(adj: Adjacency, a: string, b: string)
    requires Symmetric(adj) && Reaches(adj, a, b)
    ensures Reaches(adj, b, a)
  {
    var p :| Path(adj, p) && p[0] == a && p[|p| - 1] == b;
    var r := seq(|p|, i requires 0 <= i < |p| => p[|p| - 1 - i]);
    forall i | 0 <= i < |r| - 1 ensures r[i + 1] in Neighbours(adj, r[i]) {
      var j := |p| - 2 - i;
      assert p[j + 1] in Neighbours(adj, p[j]);
    }
    assert Path(adj, r);
  }

  ghost predicate Closed(adj: Adjacency, s: set<string>) {
    forall a, b :: a in s && b in Neighbours(adj, a) ==> b in s
  }

  lemma {:induction false} ClosedContainsPath(adj: Adjacency, s: set<string>, p: seq<string>)
    requires Closed(adj, s) && Path(adj, p) && p[0] in s
    ensures p[|p| - 1] in s
    decreases |p|
  {
    if |p| > 1 { ClosedContainsPath(adj, s, p[1..]); }
  }

  lemma ClosedContainsReachable(adj: Adjacency, s: set<string>, a: string, b: string)
    requires Closed(adj, s) && a in s && Reaches(adj, a, b)
    ensures b in s
  {
    var p :| Path(adj, p) && p[0] == a && p[|p| - 1] == b;
    ClosedContainsPath(adj, s, p);
  }

  function Elements(s: seq<string>): set<string> {
    set x | x in s
  }

  /** A search from `start` that began with `visited0` visited: `order` is every ID met since, first the
      ones already expanded and then the queue. */
  ghost predicate Frontier(adj: Adjacency, start: string, visited0: set<string>, order: seq<string>,
                           visited: set<string>) {
    && Distinct(order)
    && order != [] && order[0] == start
    && visited == visited0 + Elements(order)
    && forall id :: id in order ==> Reaches(adj, start, id) && id !in visited0
  }

  // The order of a breadth-first search.

  /** The place of an entry: in the list of the ID that the order has at `list`, at `index`. */
  datatype Place = Place(list: nat, index: nat)

  /** `p` is looked at before `q`: in an earlier list, or earlier in the same list. */
  ghost predicate Before(p: Place, q: Place) {
    p.list < q.list || (p.list == q.list && p.index < q.index)
  }

  ghost predicate EntryAt(adj: Adjacency, order: seq<string>, p: Place, id: string) {
    p.list < |order| && p.index < |Neighbours(adj, order[p.list])| && Neighbours(adj, order[p.list])[p.index] == id
  }

  /** `id` stands in `order`, as the start or through an entry no later than `p`. */
  ghost predicate MetBy(order: seq<string>, via: seq<Place>, p: Place, id: string)
    requires |via| == |order|
  {
    exists j: nat :: j < |order| && order[j] == id && (j == 0 || !Before(p, via[j]))
  }

  /** Each ID but the first stands in `order` through the entry `via` names, in the list of an earlier ID, and
      these entries follow one another. */
  ghost predicate Through(adj: Adjacency, order: seq<string>, via: seq<Place>) {
    && |via| == |order|
    && (forall j {:trigger via[j]} :: 1 <= j < |order| ==>
          && via[j].list < j && via[j].index < |Neighbours(adj, order[via[j].list])|
          && order[j] == Neighbours(adj, order[via[j].list])[via[j].index])
    && forall i, j :: 1 <= i < j < |order| ==> Before(via[i], via[j])
  }

  /** Every entry before `now` has been looked at, and was passed over only if its ID had been met. */
  ghost predicate Searched(adj: Adjacency, visited0: set<string>, order: seq<string>, via: seq<Place>, now: Place) {
    && Through(adj, order, via)
    && (forall j :: 1 <= j < |order| ==> Before(via[j], now))
    && forall p, id :: EntryAt(adj, order, p, id) && Before(p, now) ==> id in visited0 || MetBy(order, via, p, id)
  }

  /** The whole search in order: nothing is left to look at. */
  ghost predicate BreadthFirst(adj: Adjacency, order: seq<string>, via: seq<Place>) {
    Distinct(order) && order != [] && Searched(adj, {}, order, via, Place(|order|, 0))
  }

  ghost predicate InSearchOrder(adj: Adjacency, order: seq<string>) {
    exists via :: BreadthFirst(adj, order, via)
  }

  /** The start and the lists leave a breadth-first search no choice. */
  lemma SearchOrderIsUnique(adj: Adjacency, a: seq<string>, v: seq<Place>, b: seq<string>, w: seq<Place>)
    requires BreadthFirst(adj, a, v) && BreadthFirst(adj, b, w) && a[0] == b[0]
    ensures a == b && v[1..] == w[1..]
  {
    SameUpTo(adj, a, v, b, w, |a|);
    SameUpTo(adj, b, w, a, v, |b|);
    assert a[..|a|] == a && b[..|b|] == b;
  }

  lemma {:induction false} SameUpTo(adj: Adjacency, a: seq<string>, v: seq<Place>, b: seq<string>,
                                    w: seq<Place>, n: nat)
    requires BreadthFirst(adj, a, v) && BreadthFirst(adj, b, w) && a[0] == b[0] && 1 <= n <= |a|
    ensures n <= |b| && a[..n] == b[..n] && v[1..n] == w[1..n]
  {
    if n > 1 {
      var m := n - 1;
      SameUpTo(adj, a, v, b, w, m);
      NextNoLater(adj, a, v, b, w, m);
      NextNoLater(adj, b, w, a, v, m);
      assert v[m].list == w[m].list && v[m].index == w[m].index;
      assert a[v[m].list] == a[..m][v[m].list] && b[v[m].list] == b[..m][v[m].list];
      assert a[..n] == a[..m] + [a[m]] && b[..n] == b[..m] + [b[m]];
      assert v[1..n] == v[1..m] + [v[m]] && w[1..n] == w[1..m] + [w[m]];
    }
  }

  lemma NextNoLater(adj: Adjacency, a: seq<string>, v: seq<Place>, b: seq<string>, w: seq<Place>, m: nat)
    requires BreadthFirst(adj, a, v) && BreadthFirst(adj, b, w) && 1 <= m < |a| && m <= |b| && a[..m] == b[..m]
    ensures m < |b| && !Before(v[m], w[m])
  {
    assert a[v[m].list] == a[..m][v[m].list] && b[v[m].list] == b[..m][v[m].list];
    assert EntryAt(adj, b, v[m], a[m]);
    assert MetBy(b, w, v[m], a[m]);
    forall j | 0 <= j < m ensures b[j] != a[m] { assert a[j] == a[..m][j] && b[j] == b[..m][j]; }
  }

  lemma {:induction false} ThroughReaches(adj: Adjacency, order: seq<string>, via: seq<Place>, j: nat)
    requires Through(adj, order, via) && j < |order|
    ensures Reaches(adj, order[0], order[j])
  {
    if j == 0 {
      ReachesSelf(adj, order[0]);
    } else {
      ThroughReaches(adj, order, via, via[j].list);
      ReachesStep(adj, order[0], order[via[j].list], order[j]);
    }
  }

  /** A whole search has met what can be reached from its start, and nothing else. */
  lemma MetIffReached(adj: Adjacency, order: seq<string>, via: seq<Place>, id: string)
    requires BreadthFirst(adj, order, via)
    ensures id in order <==> Reaches(adj, order[0], id)
  {
    if id in order {
      var j :| 0 <= j < |order| && order[j] == id;
      ThroughReaches(adj, order, via, j);
    }
    if Reaches(adj, order[0], id) {
      forall a, b | a in Elements(order) && b in Neighbours(adj, a) ensures b in Elements(order) {
        var i :| 0 <= i < |order| && order[i] == a;
        var k :| 0 <= k < |Neighbours(adj, a)| && Neighbours(adj, a)[k] == b;
        assert EntryAt(adj, order, Place(i, k), b);
        assert MetBy(order, via, Place(i, k), b);
      }
      ClosedContainsReachable(adj, Elements(order), order[0], id);
    }
  }

  lemma Passed(adj: Adjacency, visited0: set<string>, order: seq<string>, via: seq<Place>, i: nat, k: nat,
               id: string)
    requires i < |order| && Searched(adj, visited0, order, via, Place(i, k)) && EntryAt(adj, order, Place(i, k), id)
    requires id in visited0 || id in order
    ensures Searched(adj, visited0, order, via, Place(i, k + 1))
  {
    forall p, x | EntryAt(adj, order, p, x) && Before(p, Place(i, k + 1))
      ensures x in visited0 || MetBy(order, via, p, x)
    {
      if !Before(p, Place(i, k)) && id in order {
        var j: nat :| j < |order| && order[j] == id;
        assert j == 0 || !Before(p, via[j]);
      }
    }
  }

  lemma Taken(adj: Adjacency, visited0: set<string>, order: seq<string>, via: seq<Place>, i: nat, k: nat,
              id: string)
    requires i < |order| && Searched(adj, visited0, order, via, Place(i, k)) && EntryAt(adj, order, Place(i, k), id)
    ensures Searched(adj, visited0, order + [id], via + [Place(i, k)], Place(i, k + 1))
  {
    var o, v := order + [id], via + [Place(i, k)];
    forall p, x | EntryAt(adj, o, p, x) && Before(p, Place(i, k + 1)) ensures x in visited0 || MetBy(o, v, p, x) {
      assert EntryAt(adj, order, p, x);
      if Before(p, Place(i, k)) {
        if x !in visited0 { StillMet(order, via, p, x, id, Place(i, k)); }
      } else {
        assert o[|order|] == x && v[|order|] == Place(i, k);
      }
    }
  }

  lemma StillMet(order: seq<string>, via: seq<Place>, p: Place, x: string, id: string, now: Place)
    requires |via| == |order| && MetBy(order, via, p, x)
    ensures MetBy(order + [id], via + [now], p, x)
  {
    var j: nat :| j < |order| && order[j] == x && (j == 0 || !Before(p, via[j]));
    assert (order + [id])[j] == x && (via + [now])[j] == via[j];
  }

  /** At the end of one list the next one is up. */
  lemma ListDone(adj: Adjacency, visited0: set<string>, order: seq<string>, via: seq<Place>, i: nat)
    requires i < |order| && Searched(adj, visited0, order, via, Place(i, |Neighbours(adj, order[i])|))
    ensures Searched(adj, visited0, order, via, Place(i + 1, 0))
  {
  }

  /** A search that met no ID visited before it ran as if it were the first. */
  lemma FirstOfItsKind(adj: Adjacency, visited0: set<string>, order: seq<string>, via: seq<Place>)
    requires Distinct(order) && order != [] && Searched(adj, visited0, order, via, Place(|order|, 0))
    requires forall a, b :: a in order && b in Neighbours(adj, a) ==> b !in visited0
    ensures BreadthFirst(adj, order, via)
  {
    forall p, id | EntryAt(adj, order, p, id) ensures id !in visited0 {
      assert order[p.list] in order && id in Neighbours(adj, order[p.list]);
    }
  }

  /** Lines 297 to 302. */
  method PushNeighbours(adj: Adjacency, ghost ids: set<string>, ghost start: string, ghost visited0: set<string>,
                        ghost component: seq<string>, ghost via0: seq<Place>, current: string,
                        queue0: seq<string>, visitedBefore: set<string>)
    returns (queue: seq<string>, visited: set<string>, ghost via: seq<Place>)
    requires Closed(adj, ids) && visitedBefore <= ids
    requires Frontier(adj, start, visited0, component + queue0, visitedBefore)
    requires component != [] && component[|component| - 1] == current
    requires Searched(adj, visited0, component + queue0, via0, Place(|component| - 1, 0))
    ensures Frontier(adj, start, visited0, component + queue, visited)
    ensures Searched(adj, visited0, component + queue, via, Place(|component|, 0))
    ensures visitedBefore <= visited <= ids
    ensures forall b :: b in Neighbours(adj, current) ==> b in visited
  {
    queue, visited, via := queue0, visitedBefore, via0;
    var next := Neighbours(adj, current);
    ghost var at := |component| - 1;
    for i := 0 to |next|
      invariant Frontier(adj, start, visited0, component + queue, visited)
      invariant Searched(adj, visited0, component + queue, via, Place(at, i))
      invariant visitedBefore <= visited <= ids
      invariant forall b :: b in next[..i] ==> b in visited
    {
      var neighbour := next[i];
      ghost var order := component + queue;
      assert order[at] == current && EntryAt(adj, order, Place(at, i), neighbour);
      if neighbour !in visited {
        ReachesStep(adj, start, current, neighbour);
        FrontierGrows(adj, start, visited0, order, visited, neighbour);
        Taken(adj, visited0, order, via, at, i, neighbour);
        assert component + (queue + [neighbour]) == order + [neighbour];
        queue, visited, via := queue + [neighbour], visited + {neighbour}, via + [Place(at, i)];
      } else {
        Passed(adj, visited0, order, via, at, i, neighbour);
      }
    }
    assert (component + queue)[at] == current;
    ListDone(adj, visited0, component + queue, via, at);
  }

  lemma FrontierGrows(adj: Adjacency, start: string, visited0: set<string>, order: seq<string>,
                      visited: set<string>, id: string)
    requires Frontier(adj, start, visited0, order, visited) && id !in visited && Reaches(adj, start, id)
    ensures Frontier(adj, start, visited0, order + [id], visited + {id})
  {
    assert forall x :: x in order ==> x in Elements(order);
    assert Elements(order + [id]) == Elements(order) + {id};
  }

  /** Moving the head of the queue behind the expanded IDs leaves the order as it is. */
  lemma HeadTaken(expanded: seq<string>, queue: seq<string>)
    requires Distinct(expanded + queue) && queue != []
    ensures (expanded + [queue[0]]) + queue[1..] == expanded + queue
    ensures queue[0] in expanded + queue && queue[0] !in expanded
    ensures Elements(expanded + [queue[0]]) == Elements(expanded) + {queue[0]}
  {
    var order := expanded + queue;
    assert order[|expanded|] == queue[0] && forall i :: 0 <= i < |expanded| ==> order[i] == expanded[i];
  }

  /** Breadth-first search, lines 287 to 303: the component of `start`, and the visited set extended by it. */
  method Explore(adj: Adjacency, ghost ids: set<string>, start: string, visited0: set<string>)
    returns (component: seq<string>, visited: set<string>)
    requires Symmetric(adj) && Closed(adj, ids) && start in ids
    requires start !in visited0 && visited0 <= ids && Closed(adj, visited0)
    ensures Class(adj, ids, component) && component[0] == start && InSearchOrder(adj, component)
    ensures visited == visited0 + Elements(component) && Elements(component) !! visited0
    ensures visited <= ids && Closed(adj, visited)
  {
    component := [];
    var queue := [start];
    visited := visited0 + {start};
    ghost var via := [Place(0, 0)];
    ReachesSelf(adj, start);
    while queue != []
      invariant Frontier(adj, start, visited0, component + queue, visited) && visited <= ids
      invariant Searched(adj, visited0, component + queue, via, Place(|component|, 0))
      invariant forall a, b :: a in component && b in Neighbours(adj, a) ==> b in visited
      decreases ids - Elements(component)
    {
      var current := queue[0];
      HeadTaken(component, queue);
      component := component + [current];
      queue := queue[1..];
      queue, visited, via := PushNeighbours(adj, ids, start, visited0, component, via, current, queue, visited);
    }
    assert component + queue == component;
    SearchIsComplete(adj, start, visited0, component, visited);
    FirstOfItsKind(adj, visited0, component, via);
  }

  lemma SearchIsComplete(adj: Adjacency, start: string, visited0: set<string>, component: seq<string>,
                         visited: set<string>)
    requires Symmetric(adj) && Closed(adj, visited0) && Frontier(adj, start, visited0, component, visited)
    requires forall a, b :: a in component && b in Neighbours(adj, a) ==> b in visited
    ensures forall id :: id in component <==> Reaches(adj, start, id)
    ensures Closed(adj, visited) && Elements(component) !! visited0
    ensures forall a, b :: a in component && b in Neighbours(adj, a) ==> b !in visited0
  {
    forall a, b | a in component && b in Neighbours(adj, a) ensures b in component {
      assert b in visited0 ==> a in Neighbours(adj, b);
    }
    assert Closed(adj, Elements(component));
    forall id | Reaches(adj, start, id) ensures id in component {
      ClosedContainsReachable(adj, Elements(component), start, id);
    }
  }

  // The components of a graph.

  /** A class under reachability, led by the ID its search started from. */
  ghost predicate Class(adj: Adjacency, ids: set<string>, c: seq<string>) {
    c != [] && c[0] in ids && Distinct(c) && forall id :: id in c <==> Reaches(adj, c[0], id)
  }

  ghost predicate Covered(components: seq<seq<string>>, id: string) {
    exists c :: c in components && id in c
  }

  /** `components` are classes, no two overlap, and together they hold exactly `covered`. */
  ghost predicate Partition(adj: Adjacency, ids: set<string>, covered: set<string>, components: seq<seq<string>>) {
    && Distinct(components)
    && (forall c :: c in components ==> Class(adj, ids, c))
    && (forall c, d, id :: c in components && d in components && id in c && id in d ==> c == d)
    && (forall id :: id in covered <==> Covered(components, id))
  }

  ghost predicate Classes(adj: Adjacency, ids: set<string>, components: seq<seq<string>>) {
    Partition(adj, ids, ids, components)
  }

  lemma EmptyPartition(adj: Adjacency, ids: set<string>)
    ensures Partition(adj, ids, {}, [])
  {
  }

  lemma {:induction false} PartitionGrows(adj: Adjacency, ids: set<string>, covered: set<string>,
                                          components: seq<seq<string>>,
                                          c: seq<string>, more: set<string>)
    requires Partition(adj, ids, covered, components) && Class(adj, ids, c) && Elements(c) !! covered
    requires more == covered + Elements(c)
    ensures Partition(adj, ids, more, components + [c])
  {
    var grown := components + [c];
    assert c[0] in Elements(c);
    assert c !in components by { if c in components { assert Covered(components, c[0]); } }
    forall a, b, id | a in grown && b in grown && id in a && id in b ensures a == b {
      assert a in components ==> Covered(components, id);
      assert b in components ==> Covered(components, id);
      assert id in c ==> id in Elements(c);
    }
    forall id ensures id in more <==> Covered(grown, id) {
      if Covered(components, id) {
        var d :| d in components && id in d;
        assert d in grown;
      }
      if id in c { assert c in grown; }
    }
  }

  /** Reordering keeps a partition. */
  lemma PartitionPermutes(adj: Adjacency, ids: set<string>, covered: set<string>, a: seq<seq<string>>,
                          b: seq<seq<string>>)
    requires Partition(adj, ids, covered, a) && multiset(a) == multiset(b)
    ensures Partition(adj, ids, covered, b)
  {
    DistinctPermutation(a, b);
    forall c ensures c in a <==> c in b { assert c in a <==> c in multiset(a); assert c in b <==> c in multiset(b); }
    forall id ensures Covered(a, id) <==> Covered(b, id) {
      if Covered(a, id) { var c :| c in a && id in c; assert c in b; }
      if Covered(b, id) { var c :| c in b && id in c; assert c in a; }
    }
  }

  /** Two issues share a component exactly when one reaches the other. */
  lemma SameComponent(adj: Adjacency, ids: set<string>, components: seq<seq<string>>, a: string, b: string)
    requires Symmetric(adj) && Classes(adj, ids, components) && a in ids && b in ids
    ensures (exists c :: c in components && a in c && b in c) <==> Reaches(adj, a, b)
  {
    if Reaches(adj, a, b) {
      assert Covered(components, a);
      var c :| c in components && a in c;
      ReachesTransitive(adj, c[0], a, b);
    }
    if c :| c in components && a in c && b in c {
      ReachesSymmetric(adj, c[0], a);
      ReachesTransitive(adj, a, c[0], b);
    }
  }

  /** A component was searched breadth first from the earliest of its issues in the list. */
  ghost predicate Led(adj: Adjacency, all: seq<Issue>, c: seq<string>) {
    && c != [] && InSearchOrder(adj, c)
    && exists n: nat :: n < |all| && all[n].id == c[0] && forall k :: 0 <= k < n ==> all[k].id !in c
  }

  /** The components of the first `n` issues have been found. */
  ghost predicate Found(adj: Adjacency, all: seq<Issue>, n: nat, visited: set<string>, components: seq<seq<string>>) {
    && n <= |all| && visited <= IdSet(all) && Closed(adj, visited)
    && Partition(adj, IdSet(all), visited, components)
    && (forall c :: c in components ==> Led(adj, all, c))
    && forall k :: 0 <= k < n ==> all[k].id in visited
  }

  lemma AlreadyFound(adj: Adjacency, all: seq<Issue>, n: nat, visited: set<string>, components: seq<seq<string>>)
    requires n < |all| && Found(adj, all, n, visited, components) && all[n].id in visited
    ensures Found(adj, all, n + 1, visited, components)
  {
  }

  lemma AllFound(adj: Adjacency, all: seq<Issue>, visited: set<string>, components: seq<seq<string>>)
    requires Found(adj, all, |all|, visited, components)
    ensures Classes(adj, IdSet(all), components) && forall c :: c in components ==> Led(adj, all, c)
  {
    assert forall x :: x in all ==> x.id in visited;
    assert visited == IdSet(all);
  }

  lemma NextFound(adj: Adjacency, all: seq<Issue>, n: nat, visited: set<string>, components: seq<seq<string>>,
                  c: seq<string>, more: set<string>)
    requires n < |all| && Found(adj, all, n, visited, components) && Class(adj, IdSet(all), c) && c[0] == all[n].id
    requires InSearchOrder(adj, c)
    requires more == visited + Elements(c) && Elements(c) !! visited && more <= IdSet(all) && Closed(adj, more)
    ensures Found(adj, all, n + 1, more, components + [c])
  {
    assert c[0] in Elements(c);
    forall k | 0 <= k < n ensures all[k].id !in c {
      var id := all[k].id;
      assert id in visited && (id in c ==> id in Elements(c));
    }
    PartitionGrows(adj, IdSet(all), visited, components, c, more);
  }

  /** Lines 287 to 305, for one issue not yet visited. */
  method FindNext(adj: Adjacency, all: seq<Issue>, n: nat, visited0: set<string>, components0: seq<seq<string>>)
    returns (visited: set<string>, components: seq<seq<string>>)
    requires Symmetric(adj) && Closed(adj, IdSet(all))
    requires n < |all| && Found(adj, all, n, visited0, components0) && all[n].id !in visited0
    ensures Found(adj, all, n + 1, visited, components)
  {
    var component;
    component, visited := Explore(adj, IdSet(all), all[n].id, visited0);
    NextFound(adj, all, n, visited0, components0, component, visited);
    components := components0 + [component];
  }

  /** Lines 279 to 306. */
  method FindComponents(adj: Adjacency, all: seq<Issue>) returns (components: seq<seq<string>>)
    requires Symmetric(adj) && Closed(adj, IdSet(all))
    ensures Classes(adj, IdSet(all), components) && forall c :: c in components ==> Led(adj, all, c)
  {
    var visited: set<string> := {};
    components := [];
    EmptyPartition(adj, IdSet(all));
    for i := 0 to |all|
      invariant Found(adj, all, i, visited, components)
    {
      if all[i].id !in visited {
        visited, components := FindNext(adj, all, i, visited, components);
      } else {
        AlreadyFound(adj, all, i, visited, components);
      }
    }
    AllFound(adj, all, visited, components);
  }

  // Lines 250 to 276: the issue map, the dependencies inside it, and the adjacency lists.

  function IssueMap(all: seq<Issue>): map<string, Issue> {
    if all == [] then map[] else IssueMap(all[..|all| - 1])[all[|all| - 1].id := all[|all| - 1]]
  }

  /** Of several issues with one ID the last one of the list counts. */
  ghost predicate LastOf(all: seq<Issue>, id: string, x: Issue) {
    exists k: nat :: k < |all| && all[k] == x && x.id == id && forall j :: k < j < |all| ==> all[j].id != id
  }

  function Inside(deps: seq<Dependency>, ids: set<string>): seq<Dependency> {
    if deps == [] then []
    else
      var rest, last := Inside(deps[..|deps| - 1], ids), deps[|deps| - 1];
      if last.dependsOnId in ids then rest + [last] else rest
  }

  /** GetDependencyRecords; an error drops the records of that issue. */
  function Records(store: map<string, Option<seq<Dependency>>>, id: string): seq<Dependency> {
    if id in store && store[id].Some? then store[id].value else []
  }

  function LoadedDeps(all: seq<Issue>, store: map<string, Option<seq<Dependency>>>, ids: set<string>): seq<Dependency> {
    if all == [] then []
    else LoadedDeps(all[..|all| - 1], store, ids) + Inside(Records(store, all[|all| - 1].id), ids)
  }

  /** The records the store returns for an issue are records of that issue. */
  ghost predicate OwnRecords(store: map<string, Option<seq<Dependency>>>) {
    forall id, d :: d in Records(store, id) ==> d.issueId == id
  }

  lemma {:induction false} IssueMapKeys(all: seq<Issue>)
    ensures IssueMap(all).Keys == IdSet(all)
    ensures forall id :: id in IssueMap(all) ==> IssueMap(all)[id] in all && IssueMap(all)[id].id == id
    ensures forall id :: id in IssueMap(all) ==> LastOf(all, id, IssueMap(all)[id])
  {
    if all != [] {
      var front, last := all[..|all| - 1], all[|all| - 1];
      assert all == front + [last];
      IssueMapKeys(front);
      forall id | id in IssueMap(all) ensures LastOf(all, id, IssueMap(all)[id]) {
        if id == last.id { assert all[|front|] == last; } else { StillLast(front, last, id, IssueMap(front)[id]); }
      }
    }
  }

  lemma StillLast(front: seq<Issue>, last: Issue, id: string, x: Issue)
    requires LastOf(front, id, x) && last.id != id
    ensures LastOf(front + [last], id, x)
  {
    var k: nat :| k < |front| && front[k] == x && x.id == id && forall j :: k < j < |front| ==> front[j].id != id;
    assert (front + [last])[k] == x;
  }

  lemma {:induction false} InsideElements(deps: seq<Dependency>, ids: set<string>, d: Dependency)
    ensures d in Inside(deps, ids) <==> d in deps && d.dependsOnId in ids
  {
    if deps != [] {
      assert deps == deps[..|deps| - 1] + [deps[|deps| - 1]];
      InsideElements(deps[..|deps| - 1], ids, d);
    }
  }

  /** A dependency is loaded exactly when it belongs to a listed issue and points at one. */
  lemma {:induction false} LoadedElements(all: seq<Issue>, store: map<string, Option<seq<Dependency>>>,
                                          ids: set<string>, d: Dependency)
    requires OwnRecords(store)
    ensures d in LoadedDeps(all, store, ids) <==>
            && (exists x :: x in all && x.id == d.issueId) && d.dependsOnId in ids
            && d.issueId in store && store[d.issueId].Some? && d in store[d.issueId].value
  {
    if all != [] {
      var last := all[|all| - 1];
      assert all == all[..|all| - 1] + [last];
      LoadedElements(all[..|all| - 1], store, ids, d);
      InsideElements(Records(store, last.id), ids, d);
    }
  }

  /** The loaded records of one issue are those that point at a listed one, in the order they have. */
  lemma {:induction false} InsideAt(deps: seq<Dependency>, ids: set<string>) returns (at: seq<nat>)
    ensures Positions(at, |deps|) && |at| == |Inside(deps, ids)|
    ensures forall i :: i in at <==> 0 <= i < |deps| && deps[i].dependsOnId in ids
    ensures forall j :: 0 <= j < |at| ==> Inside(deps, ids)[j] == deps[at[j]]
  {
    at := [];
    if deps != [] {
      var n := |deps| - 1;
      at := InsideAt(deps[..n], ids);
      MorePositions(at, n);
      if deps[n].dependsOnId in ids { at := at + [n]; }
    }
  }

  /** Places in order: issue by issue, and record by record of each issue. */
  ghost predicate Places(at: seq<Place>) {
    forall i, j :: 0 <= i < j < |at| ==> Before(at[i], at[j])
  }

  /** A record of a listed issue that points at a listed issue. */
  ghost predicate Loads(all: seq<Issue>, store: map<string, Option<seq<Dependency>>>, ids: set<string>, p: Place) {
    && p.list < |all| && p.index < |Records(store, all[p.list].id)|
    && Records(store, all[p.list].id)[p.index].dependsOnId in ids
  }

  ghost predicate RecordAt(all: seq<Issue>, store: map<string, Option<seq<Dependency>>>, p: Place, d: Dependency) {
    && p.list < |all| && p.index < |Records(store, all[p.list].id)|
    && Records(store, all[p.list].id)[p.index] == d
  }

  ghost predicate RecordsAt(all: seq<Issue>, store: map<string, Option<seq<Dependency>>>, at: seq<Place>,
                            deps: seq<Dependency>) {
    |at| == |deps| && forall j :: 0 <= j < |at| ==> RecordAt(all, store, at[j], deps[j])
  }

  /** Every such record is loaded once for each place it has, issue by issue and in the order of the records. */
  lemma {:induction false} LoadedAt(all: seq<Issue>, store: map<string, Option<seq<Dependency>>>, ids: set<string>)
    returns (at: seq<Place>)
    ensures Places(at) && RecordsAt(all, store, at, LoadedDeps(all, store, ids))
    ensures forall p :: p in at <==> Loads(all, store, ids, p)
  {
    at := [];
    if all != [] {
      var n := |all| - 1;
      var front := LoadedAt(all[..n], store, ids);
      var last := LastLoadedAt(all, store, ids);
      at := front + last;
      RecordsJoin(all, store, front, LoadedDeps(all[..n], store, ids), last, Inside(Records(store, all[n].id), ids));
      PlacesJoin(all, store, ids, front, last);
    }
  }

  lemma RecordsJoin(all: seq<Issue>, store: map<string, Option<seq<Dependency>>>, front: seq<Place>,
                    before: seq<Dependency>, last: seq<Place>, own: seq<Dependency>)
    requires all != [] && RecordsAt(all[..|all| - 1], store, front, before) && RecordsAt(all, store, last, own)
    ensures RecordsAt(all, store, front + last, before + own)
  {
    var at, deps := front + last, before + own;
    forall j | 0 <= j < |at| ensures RecordAt(all, store, at[j], deps[j]) {
      if j < |front| {
        assert RecordAt(all[..|all| - 1], store, front[j], before[j]);
      } else {
        assert RecordAt(all, store, last[j - |front|], own[j - |front|]);
      }
    }
  }

  lemma LastLoadedAt(all: seq<Issue>, store: map<string, Option<seq<Dependency>>>, ids: set<string>)
    returns (last: seq<Place>)
    requires all != []
    ensures Places(last) && RecordsAt(all, store, last, Inside(Records(store, all[|all| - 1].id), ids))
    ensures forall p :: p in last <==> p.list == |all| - 1 && Loads(all, store, ids, p)
  {
    var n := |all| - 1;
    var at := InsideAt(Records(store, all[n].id), ids);
    last := seq(|at|, j requires 0 <= j < |at| => Place(n, at[j]));
    forall p ensures p in last <==> p.list == n && p.index in at {
      if p.list == n && p.index in at {
        var j :| 0 <= j < |at| && at[j] == p.index;
        assert last[j] == p;
      }
    }
  }

  lemma PlacesJoin(all: seq<Issue>, store: map<string, Option<seq<Dependency>>>, ids: set<string>, front: seq<Place>,
                   last: seq<Place>)
    requires all != [] && Places(front) && Places(last)
    requires forall p :: p in front <==> Loads(all[..|all| - 1], store, ids, p)
    requires forall p :: p in last <==> p.list == |all| - 1 && Loads(all, store, ids, p)
    ensures Places(front + last) && forall p :: p in front + last <==> Loads(all, store, ids, p)
  {
    var at := front + last;
    forall p ensures p in at <==> Loads(all, store, ids, p) {
      assert p in at <==> p in front || p in last;
    }
    forall i, j | 0 <= i < j < |at| ensures Before(at[i], at[j]) {
      assert i < |front| ==> front[i] in front;
      assert j >= |front| ==> last[j - |front|] in last;
    }
  }

  method LoadDeps(all: seq<Issue>, store: map<string, Option<seq<Dependency>>>, issueMap: map<string, Issue>)
    returns (allDeps: seq<Dependency>)
    ensures allDeps == LoadedDeps(all, store, issueMap.Keys)
  {
    allDeps := [];
    for i := 0 to |all|
      invariant allDeps == LoadedDeps(all[..i], store, issueMap.Keys)
    {
      assert all[..i + 1][..i] == all[..i];
      ghost var before := allDeps;
      if all[i].id in store && store[all[i].id].Some? {
        var deps := store[all[i].id].value;
        for k := 0 to |deps|
          invariant allDeps == before + Inside(deps[..k], issueMap.Keys)
        {
          assert deps[..k + 1][..k] == deps[..k];
          if deps[k].dependsOnId in issueMap { allDeps := allDeps + [deps[k]]; }
        }
        assert deps[..|deps|] == deps;
      }
    }
    assert all[..|all|] == all;
  }

  /** The adjacency list of `a`: the other ends of its dependencies in loading order. */
  function Ends(allDeps: seq<Dependency>, a: string): seq<string> {
    if allDeps == [] then []
    else
      var rest, last := Ends(allDeps[..|allDeps| - 1], a), allDeps[|allDeps| - 1];
      rest + (if last.issueId == a then [last.dependsOnId] else [])
      + (if last.dependsOnId == a then [last.issueId] else [])
  }

  /** A way out of `a`: along dependency `p.list`, forwards if `p.index` is 0 and back if it is 1. */
  ghost predicate WayOut(allDeps: seq<Dependency>, p: Place, a: string) {
    && p.list < |allDeps|
    && ((p.index == 0 && allDeps[p.list].issueId == a) || (p.index == 1 && allDeps[p.list].dependsOnId == a))
  }

  ghost predicate WayTo(allDeps: seq<Dependency>, p: Place, b: string) {
    p.list < |allDeps| && b == if p.index == 0 then allDeps[p.list].dependsOnId else allDeps[p.list].issueId
  }

  /** An adjacency list holds the end of every way out once, in loading order. */
  lemma {:induction false} EndsAt(allDeps: seq<Dependency>, a: string) returns (at: seq<Place>)
    ensures Places(at) && |at| == |Ends(allDeps, a)|
    ensures forall p :: p in at <==> WayOut(allDeps, p, a)
    ensures forall j :: 0 <= j < |at| ==> WayTo(allDeps, at[j], Ends(allDeps, a)[j])
  {
    at := [];
    if allDeps != [] {
      var n := |allDeps| - 1;
      var front := EndsAt(allDeps[..n], a);
      var out := if allDeps[n].issueId == a then [Place(n, 0)] else [];
      var back := if allDeps[n].dependsOnId == a then [Place(n, 1)] else [];
      at := front + out + back;
      WaysOut(allDeps, a, front, out, back);
      forall j | 0 <= j < |front| ensures WayTo(allDeps, front[j], Ends(allDeps, a)[j]) {
        assert WayTo(allDeps[..n], front[j], Ends(allDeps[..n], a)[j]);
      }
    }
  }

  lemma WaysOut(allDeps: seq<Dependency>, a: string, front: seq<Place>, out: seq<Place>, back: seq<Place>)
    requires allDeps != [] && Places(front)
    requires forall p :: p in front <==> WayOut(allDeps[..|allDeps| - 1], p, a)
    requires out == if allDeps[|allDeps| - 1].issueId == a then [Place(|allDeps| - 1, 0)] else []
    requires back == if allDeps[|allDeps| - 1].dependsOnId == a then [Place(|allDeps| - 1, 1)] else []
    ensures Places(front + out + back)
    ensures forall p :: p in front + out + back <==> WayOut(allDeps, p, a)
  {
    forall p ensures p in front + out + back <==> WayOut(allDeps, p, a) {
      assert p in front <==> WayOut(allDeps[..|allDeps| - 1], p, a);
      assert p in front + out + back <==> p in front || p in out || p in back;
    }
    forall j | 0 <= j < |front| ensures front[j].list < |allDeps| - 1 {
      assert front[j] in front;
    }
  }

  /** Lines 273 and 274 add the two ends to the lists. */
  lemma AdjacencyGrows(deps: seq<Dependency>, dep: Dependency, was: Adjacency, adj: Adjacency, a: string)
    requires Neighbours(was, a) == Ends(deps, a)
    requires Neighbours(adj, a) == Neighbours(was, a) + (if dep.issueId == a then [dep.dependsOnId] else [])
                                   + (if dep.dependsOnId == a then [dep.issueId] else [])
    ensures Neighbours(adj, a) == Ends(deps + [dep], a)
  {
    assert (deps + [dep])[..|deps|] == deps;
  }

  lemma EndsAreJoined(allDeps: seq<Dependency>, a: string, b: string)
    ensures b in Ends(allDeps, a) <==> Joined(allDeps, a, b)
  {
    var at := EndsAt(allDeps, a);
    if b in Ends(allDeps, a) {
      var j :| 0 <= j < |at| && Ends(allDeps, a)[j] == b;
      assert WayTo(allDeps, at[j], b) && at[j] in at;
      assert allDeps[at[j].list] in allDeps;
    }
    if Joined(allDeps, a, b) {
      var d :| d in allDeps && ((d.issueId == a && d.dependsOnId == b) || (d.issueId == b && d.dependsOnId == a));
      var i :| 0 <= i < |allDeps| && allDeps[i] == d;
      var p := Place(i, if d.issueId == a && d.dependsOnId == b then 0 else 1);
      assert WayOut(allDeps, p, a) && p in at;
      var j :| 0 <= j < |at| && at[j] == p;
      assert WayTo(allDeps, p, Ends(allDeps, a)[j]);
    }
  }

  method BuildAdjacency(allDeps: seq<Dependency>) returns (adj: Adjacency)
    ensures forall a :: Neighbours(adj, a) == Ends(allDeps, a)
    ensures forall a, b :: b in Neighbours(adj, a) <==> Joined(allDeps, a, b)
  {
    adj := map[];
    for i := 0 to |allDeps|
      invariant forall a :: Neighbours(adj, a) == Ends(allDeps[..i], a)
    {
      var dep := allDeps[i];
      assert allDeps[..i + 1] == allDeps[..i] + [dep];
      ghost var was := adj;
      adj := adj[dep.issueId := Neighbours(adj, dep.issueId) + [dep.dependsOnId]];
      adj := adj[dep.dependsOnId := Neighbours(adj, dep.dependsOnId) + [dep.issueId]];
      forall a ensures Neighbours(adj, a) == Ends(allDeps[..i + 1], a) {
        AdjacencyGrows(allDeps[..i], dep, was, adj, a);
      }
    }
    assert allDeps[..|allDeps|] == allDeps;
    forall a, b ensures b in Neighbours(adj, a) <==> Joined(allDeps, a, b) { EndsAreJoined(allDeps, a, b); }
  }

  // Lines 308 to 371: order the components and make a subgraph of each.

  function FirstPriority(issueMap: map<string, Issue>, c: seq<string>): int {
    if c != [] && c[0] in issueMap then issueMap[c[0]].priority else 0
  }

  /** Larger components first, then the smaller priority number of the first issue. */
  function ComponentOrder(issueMap: map<string, Issue>): (seq<string>, seq<string>) -> bool {
    (a: seq<string>, b: seq<string>) =>
      if |a| != |b| then |a| > |b| else FirstPriority(issueMap, a) < FirstPriority(issueMap, b)
  }

  /** Larger components come first, and of equally large ones none whose first issue has the larger number. */
  ghost predicate LargestFirst(issueMap: map<string, Issue>, components: seq<seq<string>>) {
    && (forall i :: 0 <= i < |components| ==> components[i] != [] && components[i][0] in issueMap)
    && forall i, j :: 0 <= i < j < |components| ==>
         || |components[i]| > |components[j]|
         || (&& |components[i]| == |components[j]|
             && issueMap[components[i][0]].priority <= issueMap[components[j][0]].priority)
  }

  lemma OrderedByRank(issueMap: map<string, Issue>, components: seq<seq<string>>)
    requires SortedBy(ComponentOrder(issueMap), components)
    requires forall c :: c in components ==> c != [] && c[0] in issueMap
    ensures LargestFirst(issueMap, components)
  {
    forall i, j | 0 <= i < j < |components|
      ensures |components[i]| >= |components[j]|
      ensures |components[i]| == |components[j]| ==>
                issueMap[components[i][0]].priority <= issueMap[components[j][0]].priority
    {
      assert !ComponentOrder(issueMap)(components[j], components[i]);
    }
  }

  /** `a` is the better root: an epic against a non-epic, or of equal kind with the smaller priority number. */
  predicate Better(a: Issue, b: Issue) {
    if (a.issueType == EPIC) != (b.issueType == EPIC) then a.issueType == EPIC else a.priority < b.priority
  }

  /** The root is the first issue that no other issue of the component beats. */
  ghost predicate BestRoot(root: Issue, issues: seq<Issue>) {
    && (forall x :: x in issues ==> !Better(x, root))
    && exists i :: 0 <= i < |issues| && issues[i] == root && forall j :: 0 <= j < i ==> Better(root, issues[j])
  }

  /** In other words: the root is an epic if there is one, it has the smallest priority number of its kind, and
      every issue before it is of the lesser kind or has a larger number. */
  lemma RootIsBest(root: Issue, issues: seq<Issue>) returns (at: nat)
    requires BestRoot(root, issues)
    ensures at < |issues| && issues[at] == root
    ensures (exists x :: x in issues && x.issueType == "epic") <==> root.issueType == "epic"
    ensures forall x :: x in issues && (x.issueType == "epic" <==> root.issueType == "epic") ==>
              root.priority <= x.priority
    ensures forall j :: 0 <= j < at ==>
              || (root.issueType == "epic" && issues[j].issueType != "epic")
              || root.priority < issues[j].priority
  {
    at :| 0 <= at < |issues| && issues[at] == root && forall j :: 0 <= j < at ==> Better(root, issues[j]);
    assert issues[at] in issues;
    forall x | x in issues ensures x.issueType == "epic" ==> root.issueType == "epic" { assert !Better(x, root); }
  }

  ghost predicate Unbeaten(x: Issue, issues: seq<Issue>) {
    forall y :: y in issues ==> !Better(y, x)
  }

  /** Exactly when the root is also the oldest of the best: when the first of them in search order is. */
  lemma RootIsOldestIff(root: Issue, issues: seq<Issue>, i: nat)
    requires BestRoot(root, issues) && i < |issues| && Unbeaten(issues[i], issues)
    requires forall j :: 0 <= j < i ==> !Unbeaten(issues[j], issues)
    ensures (forall x :: x in issues && Unbeaten(x, issues) ==> root.created <= x.created)
            <==> forall j :: i < j < |issues| && Unbeaten(issues[j], issues) ==> issues[i].created <= issues[j].created
  {
    var k :| 0 <= k < |issues| && issues[k] == root && forall j :: 0 <= j < k ==> Better(root, issues[j]);
    assert root in issues && Unbeaten(issues[k], issues) && issues[i] in issues;
    assert !(k < i) && !(i < k);
    forall x | x in issues && Unbeaten(x, issues) ensures exists j :: i <= j < |issues| && issues[j] == x {
      var j :| 0 <= j < |issues| && issues[j] == x;
      assert !(j < i);
    }
    forall j | i < j < |issues| && Unbeaten(issues[j], issues) ensures issues[j] in issues {}
  }

  /** Age does not decide: of two equally good issues the one met first is the root, here the younger one. */
  lemma YoungerRootIsKept(root: Issue, young: Issue, elder: Issue)
    requires BestRoot(root, [young, elder])
    requires young.issueType == elder.issueType && young.priority == elder.priority && elder.created < young.created
    ensures root == young
  {
    var issues := [young, elder];
    var at := RootIsBest(root, issues);
    assert issues[0] == young && issues[1] == elder;
  }

  method ChooseRoot(issues: seq<Issue>) returns (root: Issue)
    requires issues != []
    ensures BestRoot(root, issues)
  {
    root := issues[0];
    ghost var at := 0;
    for i := 1 to |issues|
      invariant 0 <= at < i && issues[at] == root
      invariant forall j :: 0 <= j < i ==> !Better(issues[j], root)
      invariant forall j :: 0 <= j < at ==> Better(root, issues[j])
    {
      var issue := issues[i];
      if issue.issueType == EPIC && root.issueType != EPIC {
        root, at := issue, i;
        continue;
      }
      if root.issueType == EPIC && issue.issueType != EPIC { continue; }
      if issue.priority < root.priority { root, at := issue, i; }
    }
  }

  function Within(deps: seq<Dependency>, ids: set<string>): seq<Dependency> {
    if deps == [] then []
    else
      var rest, last := Within(deps[..|deps| - 1], ids), deps[|deps| - 1];
      if last.issueId in ids && last.dependsOnId in ids then rest + [last] else rest
  }

  /** A component's dependencies are the loaded ones with both ends inside, in loading order. */
  lemma {:induction false} WithinAt(deps: seq<Dependency>, ids: set<string>) returns (at: seq<nat>)
    ensures Positions(at, |deps|) && |at| == |Within(deps, ids)|
    ensures forall i :: i in at <==> 0 <= i < |deps| && deps[i].issueId in ids && deps[i].dependsOnId in ids
    ensures forall j :: 0 <= j < |at| ==> Within(deps, ids)[j] == deps[at[j]]
  {
    at := [];
    if deps != [] {
      var n := |deps| - 1;
      at := WithinAt(deps[..n], ids);
      MorePositions(at, n);
      if deps[n].issueId in ids && deps[n].dependsOnId in ids { at := at + [n]; }
    }
  }

  function IssuesAt(issueMap: map<string, Issue>, c: seq<string>): seq<Issue>
    requires forall id :: id in c ==> id in issueMap
  {
    seq(|c|, i requires 0 <= i < |c| => issueMap[c[i]])
  }

  /** The subgraph of a component: its issues in search order, the best root, and the loaded
      dependencies inside it in loading order. */
  ghost predicate SubgraphOf(g: Subgraph, c: seq<string>, issueMap: map<string, Issue>, allDeps: seq<Dependency>) {
    && (forall id :: id in c ==> id in issueMap)
    && g.issues == IssuesAt(issueMap, c)
    && BestRoot(g.root, g.issues)
    && g.dependencies == Within(allDeps, Elements(c))
  }

  method BuildSubgraph(c: seq<string>, issueMap: map<string, Issue>, allDeps: seq<Dependency>) returns (g: Subgraph)
    requires c != [] && forall id :: id in c ==> id in issueMap
    ensures SubgraphOf(g, c, issueMap, allDeps)
  {
    var issues := IssuesAt(issueMap, c);
    var root := ChooseRoot(issues);
    var deps := [];
    for i := 0 to |allDeps|
      invariant deps == Within(allDeps[..i], Elements(c))
    {
      assert allDeps[..i + 1][..i] == allDeps[..i];
      if allDeps[i].issueId in c && allDeps[i].dependsOnId in c { deps := deps + [allDeps[i]]; }
    }
    assert allDeps[..|allDeps|] == allDeps;
    g := Subgraph(root, issues, deps);
  }

  lemma AdjacencyIsSound(all: seq<Issue>, store: map<string, Option<seq<Dependency>>>, adj: Adjacency)
    requires OwnRecords(store)
    requires forall a, b :: b in Neighbours(adj, a) <==> Joined(LoadedDeps(all, store, IdSet(all)), a, b)
    ensures Symmetric(adj) && Closed(adj, IdSet(all))
  {
    var ids := IdSet(all);
    var allDeps := LoadedDeps(all, store, ids);
    forall a, b | Joined(allDeps, a, b) ensures Joined(allDeps, b, a) && b in ids {
      var d :| d in allDeps && ((d.issueId == a && d.dependsOnId == b) || (d.issueId == b && d.dependsOnId == a));
      LoadedElements(all, store, ids, d);
    }
  }

  method BuildSubgraphs(components: seq<seq<string>>, issueMap: map<string, Issue>, allDeps: seq<Dependency>)
    returns (subgraphs: seq<Subgraph>)
    requires forall c :: c in components ==> c != []
    requires forall c, id :: c in components && id in c ==> id in issueMap
    ensures |subgraphs| == |components|
    ensures forall k :: 0 <= k < |components| ==> SubgraphOf(subgraphs[k], components[k], issueMap, allDeps)
  {
    subgraphs := [];
    for k := 0 to |components|
      invariant |subgraphs| == k
      invariant forall j :: 0 <= j < k ==> SubgraphOf(subgraphs[j], components[j], issueMap, allDeps)
    {
      assert components[k] in components;
      var g := BuildSubgraph(components[k], issueMap, allDeps);
      subgraphs := subgraphs + [g];
    }
  }

  /** One subgraph for each class of the issues under the loaded dependencies, in order. */
  ghost predicate Grouped(all: seq<Issue>, store: map<string, Option<seq<Dependency>>>, subgraphs: seq<Subgraph>,
                          adj: Adjacency, components: seq<seq<string>>) {
    var ids := IdSet(all);
    var allDeps := LoadedDeps(all, store, ids);
    && (forall a, b :: b in Neighbours(adj, a) <==> Joined(allDeps, a, b))
    && (forall a :: Neighbours(adj, a) == Ends(allDeps, a))
    && Symmetric(adj) && Classes(adj, ids, components)
    && (forall c :: c in components ==> Led(adj, all, c))
    && LargestFirst(IssueMap(all), components)
    && |subgraphs| == |components|
    && forall k :: 0 <= k < |components| ==> SubgraphOf(subgraphs[k], components[k], IssueMap(all), allDeps)
  }

  /** Issue by issue a subgraph holds what the list has last under each ID of its component, and its root is one of
      them. */
  lemma SubgraphIssues(all: seq<Issue>, g: Subgraph, c: seq<string>, allDeps: seq<Dependency>)
    requires SubgraphOf(g, c, IssueMap(all), allDeps)
    ensures IdsOf(g.issues) == c && g.root in g.issues
    ensures forall i :: 0 <= i < |c| ==> LastOf(all, c[i], g.issues[i])
  {
    IssueMapKeys(all);
    forall i | 0 <= i < |c| ensures g.issues[i].id == c[i] && LastOf(all, c[i], g.issues[i]) {
      assert c[i] in c && g.issues[i] == IssueMap(all)[c[i]];
    }
  }

  /** loadAllGraphSubgraphs, from the issues and dependency records the store returned. */
  method LoadAll(all: seq<Issue>, store: map<string, Option<seq<Dependency>>>)
    returns (subgraphs: seq<Subgraph>)
    requires OwnRecords(store)
    ensures exists adj, components :: Grouped(all, store, subgraphs, adj, components)
  {
    ghost var ids := IdSet(all);
    if |all| == 0 {
      assert Grouped(all, store, [], map[], []);
      return [];
    }
    IssueMapKeys(all);
    var issueMap := IssueMap(all);
    var allDeps := LoadDeps(all, store, issueMap);
    var lists := BuildAdjacency(allDeps);
    AdjacencyIsSound(all, store, lists);
    var found := FindComponents(lists, all);
    var ordered := OrderComponents(found, issueMap, lists, ids);
    assert forall c :: c in ordered ==> c in found;
    subgraphs := BuildSubgraphs(ordered, issueMap, allDeps);
    assert Grouped(all, store, subgraphs, lists, ordered);
  }

  /** Lines 308 to 318. sort.Slice leaves ties in no particular order, so the contract says nothing of them. */
  method OrderComponents(found: seq<seq<string>>, issueMap: map<string, Issue>, ghost adj: Adjacency,
                         ghost ids: set<string>)
    returns (ordered: seq<seq<string>>)
    requires Classes(adj, ids, found) && Closed(adj, ids) && issueMap.Keys == ids
    ensures Classes(adj, ids, ordered) && LargestFirst(issueMap, ordered)
    ensures multiset(ordered) == multiset(found) && forall c :: c in ordered ==> c in found
    ensures forall c :: c in ordered ==> c != []
    ensures forall c, id :: c in ordered && id in c ==> id in ids
  {
    ordered := Sort(ComponentOrder(issueMap), found);
    SortSorts(ComponentOrder(issueMap), found);
    SortPermutes(ComponentOrder(issueMap), found);
    PartitionPermutes(adj, ids, ids, found, ordered);
    ClassesStayInside(adj, ids, ordered);
    OrderedByRank(issueMap, ordered);
  }

  lemma ClassesStayInside(adj: Adjacency, ids: set<string>, components: seq<seq<string>>)
    requires Closed(adj, ids) && forall c :: c in components ==> Class(adj, ids, c)
    ensures forall c, id :: c in components && id in c ==> id in ids
  {
    forall c, id | c in components && id in c ensures id in ids {
      ClosedContainsReachable(adj, ids, c[0], id);
    }
  }

  /** A loaded dependency joins `a` and `b`, in either direction. */
  ghost predicate Joined(allDeps: seq<Dependency>, a: string, b: string) {
    exists d :: d in allDeps && ((d.issueId == a && d.dependsOnId == b) || (d.issueId == b && d.dependsOnId == a))
  }

  lemma {:induction false} WithinMultiplicity(deps: seq<Dependency>, ids: set<string>, d: Dependency)
    ensures multiset(Within(deps, ids))[d] ==
            if d.issueId in ids && d.dependsOnId in ids then multiset(deps)[d] else 0
  {
    if deps != [] {
      assert deps == deps[..|deps| - 1] + [deps[|deps| - 1]];
      WithinMultiplicity(deps[..|deps| - 1], ids, d);
    }
  }

  /** Every loaded dependency lands in exactly one component's subgraph, as often as it was loaded. */
  lemma {:induction false} DependencyLandsOnce(adj: Adjacency, ids: set<string>, components: seq<seq<string>>,
                            allDeps: seq<Dependency>, d: Dependency) returns (home: seq<string>)
    requires Symmetric(adj) && Classes(adj, ids, components)
    requires forall a, b :: b in Neighbours(adj, a) <==> Joined(allDeps, a, b)
    requires d in allDeps && d.issueId in ids
    ensures home in components
    ensures forall c :: c in components ==>
              multiset(Within(allDeps, Elements(c)))[d] == if c == home then multiset(allDeps)[d] else 0
  {
    assert Covered(components, d.issueId);
    home :| home in components && d.issueId in home;
    assert Joined(allDeps, d.issueId, d.dependsOnId);
    ReachesStep(adj, home[0], d.issueId, d.dependsOnId);
    forall c | c in components
      ensures multiset(Within(allDeps, Elements(c)))[d] == if c == home then multiset(allDeps)[d] else 0
    {
      WithinMultiplicity(allDeps, Elements(c), d);
    }
  }

  // loadGraphSubgraph.

  /** GetDependents; an error makes the issue a dead end. */
  function Dependents(store: map<string, Option<seq<Issue>>>, id: string): seq<Issue> {
    if id in store && store[id].Some? then store[id].value else []
  }

  function DependentIds(store: map<string, Option<seq<Issue>>>): Adjacency {
    map id | id in store :: IdsOf(Dependents(store, id))
  }

  function IdsOf(issues: seq<Issue>): seq<string> {
    seq(|issues|, i requires 0 <= i < |issues| => issues[i].id)
  }

  /** Every issue but the first is the very row of the store through which the search first met its ID. */
  ghost predicate RowsOf(store: map<string, Option<seq<Issue>>>, issues: seq<Issue>, via: seq<Place>) {
    && |via| == |issues|
    && forall j {:trigger via[j]} :: 1 <= j < |issues| ==>
         && via[j].list < j && via[j].index < |Dependents(store, issues[via[j].list].id)|
         && issues[j] == Dependents(store, issues[via[j].list].id)[via[j].index]
  }

  /** The issues a breadth-first search from the first one meets, each as the store returned it. */
  ghost predicate DependentsInOrder(store: map<string, Option<seq<Issue>>>, issues: seq<Issue>) {
    exists via :: BreadthFirst(DependentIds(store), IdsOf(issues), via) && RowsOf(store, issues, via)
  }

  /** The first issue and the store leave no choice of rows or of their order. */
  lemma DependentsAreUnique(store: map<string, Option<seq<Issue>>>, a: seq<Issue>, b: seq<Issue>)
    requires DependentsInOrder(store, a) && DependentsInOrder(store, b) && a != [] && b != [] && a[0] == b[0]
    ensures a == b
  {
    var adj, x, y := DependentIds(store), IdsOf(a), IdsOf(b);
    var v: seq<Place> :| BreadthFirst(adj, x, v) && RowsOf(store, a, v);
    var w: seq<Place> :| BreadthFirst(adj, y, w) && RowsOf(store, b, w);
    assert x[0] == y[0];
    SearchOrderIsUnique(adj, x, v, y, w);
    assert |a| == |x| == |y| == |b|;
    forall j | 1 <= j < |a| ensures a[j] == b[j] {
      assert v[j] == v[1..][j - 1] == w[1..][j - 1] == w[j];
      assert a[v[j].list].id == x[v[j].list] == y[v[j].list] == b[v[j].list].id;
    }
  }

  /** The IDs a search can meet. */
  ghost function Universe(root: Issue, store: map<string, Option<seq<Issue>>>): (u: set<string>)
    ensures RowsWithin(store, u) && root.id in u
  {
    {root.id} + set k, x | k in store && x in Dependents(store, k) :: x.id
  }

  ghost predicate RowsWithin(store: map<string, Option<seq<Issue>>>, universe: set<string>) {
    forall k, x :: x in Dependents(store, k) ==> x.id in universe
  }

  lemma NeighbourIds(store: map<string, Option<seq<Issue>>>, id: string)
    ensures Neighbours(DependentIds(store), id) == IdsOf(Dependents(store, id))
  {
  }

  lemma IdsOfAppend(issues: seq<Issue>, dep: Issue, done: seq<string>, queue: seq<string>)
    requires IdsOf(issues) == done + queue
    ensures IdsOf(issues + [dep]) == IdsOf(issues) + [dep.id] == done + (queue + [dep.id])
  {
  }

  lemma RowsGrow(store: map<string, Option<seq<Issue>>>, issues: seq<Issue>, via: seq<Place>, p: Place, dep: Issue)
    requires RowsOf(store, issues, via) && p.list < |issues|
    requires p.index < |Dependents(store, issues[p.list].id)| && Dependents(store, issues[p.list].id)[p.index] == dep
    ensures RowsOf(store, issues + [dep], via + [p])
  {
  }

  /** The state of the search: the issues met so far and, in `via`, the row each was met through. */
  ghost predicate Gathered(root: Issue, store: map<string, Option<seq<Issue>>>, issues: seq<Issue>, via: seq<Place>,
                           visited: set<string>, now: Place) {
    && issues != [] && issues[0] == root
    && Distinct(IdsOf(issues)) && visited == Elements(IdsOf(issues))
    && Searched(DependentIds(store), {}, IdsOf(issues), via, now) && RowsOf(store, issues, via)
  }

  ghost predicate Gathering(root: Issue, store: map<string, Option<seq<Issue>>>, issues: seq<Issue>,
                            visited: set<string>, now: Place) {
    exists via :: Gathered(root, store, issues, via, visited, now)
  }

  /** Lines 193 to 197, for one row whose ID has not been met. */
  lemma Gathers(root: Issue, store: map<string, Option<seq<Issue>>>, issues: seq<Issue>, visited: set<string>, at: nat,
                i: nat, dep: Issue)
    requires Gathering(root, store, issues, visited, Place(at, i)) && at < |issues|
    requires i < |Dependents(store, issues[at].id)| && dep == Dependents(store, issues[at].id)[i]
    requires dep.id !in visited
    ensures Gathering(root, store, issues + [dep], visited + {dep.id}, Place(at, i + 1))
  {
    var via :| Gathered(root, store, issues, via, visited, Place(at, i));
    var adj, order := DependentIds(store), IdsOf(issues);
    NeighbourIds(store, issues[at].id);
    assert order[at] == issues[at].id;
    assert EntryAt(adj, order, Place(at, i), dep.id);
    assert forall x :: x in order ==> x in Elements(order);
    assert Elements(order + [dep.id]) == Elements(order) + {dep.id};
    Taken(adj, {}, order, via, at, i, dep.id);
    RowsGrow(store, issues, via, Place(at, i), dep);
    assert IdsOf(issues + [dep]) == order + [dep.id];
    assert Gathered(root, store, issues + [dep], via + [Place(at, i)], visited + {dep.id}, Place(at, i + 1));
  }

  /** A row whose ID has been met is passed over. */
  lemma GathersNothing(root: Issue, store: map<string, Option<seq<Issue>>>, issues: seq<Issue>, visited: set<string>,
                       at: nat, i: nat)
    requires Gathering(root, store, issues, visited, Place(at, i)) && at < |issues|
    requires i < |Dependents(store, issues[at].id)| && Dependents(store, issues[at].id)[i].id in visited
    ensures Gathering(root, store, issues, visited, Place(at, i + 1))
  {
    var via :| Gathered(root, store, issues, via, visited, Place(at, i));
    var adj, order := DependentIds(store), IdsOf(issues);
    NeighbourIds(store, issues[at].id);
    assert order[at] == issues[at].id;
    assert EntryAt(adj, order, Place(at, i), Dependents(store, issues[at].id)[i].id);
    Passed(adj, {}, order, via, at, i, Dependents(store, issues[at].id)[i].id);
    assert Gathered(root, store, issues, via, visited, Place(at, i + 1));
  }

  /** After its last row an issue is done with, and the next one is up. */
  lemma GatheredAll(root: Issue, store: map<string, Option<seq<Issue>>>, issues: seq<Issue>, visited: set<string>,
                    at: nat)
    requires at < |issues|
    requires Gathering(root, store, issues, visited, Place(at, |Dependents(store, issues[at].id)|))
    ensures Gathering(root, store, issues, visited, Place(at + 1, 0))
  {
    var now := Place(at, |Dependents(store, issues[at].id)|);
    var via :| Gathered(root, store, issues, via, visited, now);
    assert IdsOf(issues)[at] == issues[at].id;
    NeighbourIds(store, issues[at].id);
    ListDone(DependentIds(store), {}, IdsOf(issues), via, at);
    assert Gathered(root, store, issues, via, visited, Place(at + 1, 0));
  }

  lemma IdAt(issues: seq<Issue>, done: seq<string>, queue: seq<string>, at: nat)
    requires IdsOf(issues) == done + queue && at < |done|
    ensures at < |issues| && issues[at].id == done[at]
  {
    assert IdsOf(issues)[at] == (done + queue)[at];
  }

  /** Lines 191 to 198. */
  method PushDependents(ghost universe: set<string>, root: Issue, store: map<string, Option<seq<Issue>>>,
                        ghost done: seq<string>, currentId: string, issues0: seq<Issue>, queue0: seq<string>,
                        visitedBefore: set<string>)
    returns (issues: seq<Issue>, queue: seq<string>, visited: set<string>)
    requires visitedBefore <= universe && forall x :: x in Dependents(store, currentId) ==> x.id in universe
    requires IdsOf(issues0) == done + queue0 && done != [] && done[|done| - 1] == currentId
    requires Gathering(root, store, issues0, visitedBefore, Place(|done| - 1, 0))
    ensures IdsOf(issues) == done + queue && visited <= universe
    ensures Gathering(root, store, issues, visited, Place(|done|, 0))
  {
    var dependents := Dependents(store, currentId);
    issues, queue, visited := issues0, queue0, visitedBefore;
    ghost var at := |done| - 1;
    for i := 0 to |dependents|
      invariant IdsOf(issues) == done + queue && visited <= universe
      invariant Gathering(root, store, issues, visited, Place(at, i))
    {
      var dep := dependents[i];
      IdAt(issues, done, queue, at);
      if dep.id !in visited {
        Gathers(root, store, issues, visited, at, i, dep);
        IdsOfAppend(issues, dep, done, queue);
        issues, queue, visited := issues + [dep], queue + [dep.id], visited + {dep.id};
      } else {
        GathersNothing(root, store, issues, visited, at, i);
      }
    }
    IdAt(issues, done, queue, at);
    GatheredAll(root, store, issues, visited, at);
  }

  lemma GatheredRoot(root: Issue, store: map<string, Option<seq<Issue>>>)
    ensures Gathering(root, store, [root], {root.id}, Place(0, 0))
  {
    assert IdsOf([root]) == [root.id] && Elements([root.id]) == {root.id};
    assert Gathered(root, store, [root], [Place(0, 0)], {root.id}, Place(0, 0));
  }

  /** Taking the head of the queue leaves the issues as they are and one ID fewer to expand. */
  lemma HeadGathered(root: Issue, store: map<string, Option<seq<Issue>>>, universe: set<string>, issues: seq<Issue>,
                     visited: set<string>, done: seq<string>, queue: seq<string>)
    requires IdsOf(issues) == done + queue && queue != [] && visited <= universe
    requires Gathering(root, store, issues, visited, Place(|done|, 0))
    ensures IdsOf(issues) == (done + [queue[0]]) + queue[1..]
    ensures Elements(done + [queue[0]]) == Elements(done) + {queue[0]}
    ensures queue[0] in universe && queue[0] !in Elements(done)
  {
    var via :| Gathered(root, store, issues, via, visited, Place(|done|, 0));
    HeadTaken(done, queue);
    assert queue[0] in Elements(IdsOf(issues));
  }

  /** Lines 171 to 206: the root and, once each, every issue that depends on it directly or through others, each
      as the store returned it and in the order the search meets them. */
  method LoadDependents(root: Issue, store: map<string, Option<seq<Issue>>>, ghost universe: set<string>)
    returns (issues: seq<Issue>)
    requires RowsWithin(store, universe) && root.id in universe
    ensures issues != [] && issues[0] == root && Distinct(IdsOf(issues))
    ensures forall id :: id in IdsOf(issues) <==> Reaches(DependentIds(store), root.id, id)
    ensures DependentsInOrder(store, issues)
    ensures RowsExactly(store, issues)
  {
    issues := [root];
    var queue := [root.id];
    var visited := {root.id};
    ghost var done: seq<string> := [];
    GatheredRoot(root, store);
    while queue != []
      invariant IdsOf(issues) == done + queue && visited <= universe
      invariant Gathering(root, store, issues, visited, Place(|done|, 0))
      decreases universe - Elements(done)
    {
      var currentId := queue[0];
      HeadGathered(root, store, universe, issues, visited, done, queue);
      done := done + [currentId];
      queue := queue[1..];
      issues, queue, visited := PushDependents(universe, root, store, done, currentId, issues, queue, visited);
    }
    assert done == IdsOf(issues);
    GatheredInOrder(root, store, issues, visited);
  }

  lemma GatheredInOrder(root: Issue, store: map<string, Option<seq<Issue>>>, issues: seq<Issue>, visited: set<string>)
    requires Gathering(root, store, issues, visited, Place(|issues|, 0))
    ensures issues != [] && issues[0] == root && Distinct(IdsOf(issues))
    ensures forall id :: id in IdsOf(issues) <==> Reaches(DependentIds(store), root.id, id)
    ensures DependentsInOrder(store, issues)
    ensures RowsExactly(store, issues)
  {
    var via :| Gathered(root, store, issues, via, visited, Place(|issues|, 0));
    var adj, order := DependentIds(store), IdsOf(issues);
    assert BreadthFirst(adj, order, via);
    forall id ensures id in order <==> Reaches(adj, root.id, id) { MetIffReached(adj, order, via, id); }
    EveryRow(store, issues, via);
  }

  /** Every issue but the first is a row the store returned for one of the issues, and all rows it returned for
      them are among the issues by ID. */
  ghost predicate RowsExactly(store: map<string, Option<seq<Issue>>>, issues: seq<Issue>) {
    && issues != []
    && (forall x :: x in issues[1..] ==>
          exists y :: y in issues && y.id in store && store[y.id].Some? && x in store[y.id].value)
    && forall x, y :: y in issues && y.id in store && store[y.id].Some? && x in store[y.id].value ==>
         exists z :: z in issues && z.id == x.id
  }

  lemma EveryRow(store: map<string, Option<seq<Issue>>>, issues: seq<Issue>, via: seq<Place>)
    requires issues != [] && RowsOf(store, issues, via) && BreadthFirst(DependentIds(store), IdsOf(issues), via)
    ensures RowsExactly(store, issues)
  {
    forall x | x in issues[1..]
      ensures exists y :: y in issues && y.id in store && store[y.id].Some? && x in store[y.id].value
    {
      var j :| 0 <= j < |issues[1..]| && issues[1..][j] == x;
      var y := issues[via[j + 1].list];
      assert y in issues && issues[j + 1] in Dependents(store, y.id);
    }
    forall x, y | y in issues && y.id in store && store[y.id].Some? && x in store[y.id].value
      ensures exists z :: z in issues && z.id == x.id
    {
      RowIsMet(store, issues, via, x, y);
    }
  }

  lemma RowIsMet(store: map<string, Option<seq<Issue>>>, issues: seq<Issue>, via: seq<Place>, x: Issue, y: Issue)
    requires BreadthFirst(DependentIds(store), IdsOf(issues), via) && y in issues && x in Dependents(store, y.id)
    ensures exists z :: z in issues && z.id == x.id
  {
    var adj, order := DependentIds(store), IdsOf(issues);
    var i :| 0 <= i < |issues| && issues[i] == y;
    var k :| 0 <= k < |Dependents(store, y.id)| && Dependents(store, y.id)[k] == x;
    NeighbourIds(store, y.id);
    assert order[i] == y.id && EntryAt(adj, order, Place(i, k), x.id);
    assert MetBy(order, via, Place(i, k), x.id);
    var j: nat :| j < |order| && order[j] == x.id;
    assert issues[j] in issues;
  }

  /** loadGraphSubgraph: the issues that reach the root, and the loaded dependencies among them. */
  method LoadSubgraph(root: Issue, dependents: map<string, Option<seq<Issue>>>, store: map<string,
                      Option<seq<Dependency>>>)
    returns (g: Subgraph)
    ensures g.root == root && g.issues != [] && g.issues[0] == root && Distinct(IdsOf(g.issues))
    ensures forall id :: id in IdsOf(g.issues) <==> Reaches(DependentIds(dependents), root.id, id)
    ensures DependentsInOrder(dependents, g.issues)
    ensures RowsExactly(dependents, g.issues)
    ensures g.dependencies == LoadedDeps(g.issues, store, IdSet(g.issues))
  {
    var issues := LoadDependents(root, dependents, Universe(root, dependents));
    IssueMapKeys(issues);
    var deps := LoadDeps(issues, store, IssueMap(issues));
    g := Subgraph(root, issues, deps);
  }
}
