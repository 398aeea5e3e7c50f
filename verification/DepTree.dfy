/** Tree rendering and filtering of cmd/binds/dep.go. */
module DepTree {
  import opened Order

  datatype Node = Node(id: string, status: string, depth: int, parentId: string, truncated: bool)

  /** A printed line. `bars` says for each column whether a vertical line is drawn; `last` picks the branch. */
  datatype Line =
    | Full(id: string, bars: seq<bool>, last: bool, more: bool)
    | ShownAbove(id: string, bars: seq<bool>, last: bool)

  type Children = map<string, seq<Node>>

  function Kids(children: Children, id: string): seq<Node> {
    if id in children then children[id] else []
  }

  /** The IDs of all nodes that can be visited below the root. */
  ghost function Below(children: Children): set<string> {
    set k, n | k in children && n in children[k] :: n.id
  }

  datatype Rendered = Rendered(lines: seq<Line>, seen: set<string>)

  // Specification: rendering with the seen set and the bars passed as values.

  /** Whether the line is marked with an ellipsis. */
  predicate HasMore(children: Children, maxDepth: int, n: Node, depth: nat) {
    n.truncated || (depth == maxDepth && |Kids(children, n.id)| > 0)
  }

  /** Column `depth` for the children of a node at `depth`; the root's column is never drawn. */
  function Bar(depth: nat, i: nat, count: nat): bool {
    depth > 0 && i + 1 < count
  }

  ghost function Render(children: Children, universe: set<string>, maxDepth: int, n: Node, bars: seq<bool>, last: bool,
                        seen: set<string>): (r: Rendered)
    requires n.id in universe && Below(children) <= universe
    ensures seen <= r.seen
    decreases universe - seen, 1, 0
  {
    if n.id in seen then Rendered([ShownAbove(n.id, bars, last)], seen)
    else
      var line := Full(n.id, bars, last, HasMore(children, maxDepth, n, |bars|));
      var rest := RenderKids(children, universe, maxDepth, n.id, 0, bars, seen + {n.id});
      Rendered([line] + rest.lines, rest.seen)
  }

  /** The children of `id` from the i-th on. */
  ghost function RenderKids(children: Children, universe: set<string>, maxDepth: int, id: string, i: nat,
                            bars: seq<bool>,
                            seen: set<string>): (r: Rendered)
    requires Below(children) <= universe && i <= |Kids(children, id)|
    ensures seen <= r.seen
    decreases universe - seen, 2, |Kids(children, id)| - i
  {
    var kids := Kids(children, id);
    if i == |kids| then Rendered([], seen)
    else
      var first := Render(children, universe, maxDepth, kids[i], bars + [Bar(|bars|, i, |kids|)], i + 1 == |kids|,
          seen);
      var rest := RenderKids(children, universe, maxDepth, id, i + 1, bars, first.seen);
      Rendered(first.lines + rest.lines, rest.seen)
  }

  // What rendering promises.

  ghost predicate Child(children: Children, a: string, b: string) {
    exists n :: n in Kids(children, a) && n.id == b
  }

  ghost predicate Path(children: Children, p: seq<string>) {
    p != [] && forall i :: 0 <= i < |p| - 1 ==> Child(children, p[i], p[i + 1])
  }

  ghost predicate Reaches(children: Children, a: string, b: string) {
    exists p :: Path(children, p) && p[0] == a && p[|p| - 1] == b
  }

  /** How often an ID is printed in full. */
  function FullCount(lines: seq<Line>, id: string): nat {
    if lines == [] then 0
    else (if lines[0].Full? && lines[0].id == id then 1 else 0) + FullCount(lines[1..], id)
  }

  lemma {:induction false} FullCountConcat(a: seq<Line>, b: seq<Line>, id: string)
    ensures FullCount(a + b, id) == FullCount(a, id) + FullCount(b, id)
  {
    if a == [] {
      assert a + b == b;
    } else {
      assert (a + b)[1..] == a[1..] + b;
      FullCountConcat(a[1..], b, id);
    }
  }

  /** A reminder only ever follows the full line of its ID. */
  ghost predicate RemindersFollow(lines: seq<Line>, seen: set<string>) {
    forall j :: 0 <= j < |lines| && lines[j].ShownAbove? ==>
      lines[j].id in seen || exists i :: 0 <= i < j && lines[i].Full? && lines[i].id == lines[j].id
  }

  /** Everything new has all its children seen. */
  ghost predicate ClosedOver(children: Children, before: set<string>, after: set<string>) {
    forall id, n :: id in after && id !in before && n in Kids(children, id) ==> n.id in after
  }

  ghost predicate Sound(children: Children, r: Rendered, seen: set<string>) {
    && (forall id :: FullCount(r.lines, id) == if id in r.seen && id !in seen then 1 else 0)
    && RemindersFollow(r.lines, seen)
  }

  lemma {:induction false} FullCountPositive(lines: seq<Line>, id: string)
    ensures FullCount(lines, id) > 0 ==> exists i :: 0 <= i < |lines| && lines[i].Full? && lines[i].id == id
  {
    if lines != [] {
      FullCountPositive(lines[1..], id);
      if FullCount(lines[1..], id) > 0 {
        var i :| 0 <= i < |lines[1..]| && lines[1..][i].Full? && lines[1..][i].id == id;
        assert lines[i + 1] == lines[1..][i];
      }
    }
  }

  lemma SoundConcat(children: Children, a: Rendered, b: Rendered, seen: set<string>)
    requires seen <= a.seen <= b.seen && Sound(children, a, seen) && Sound(children, b, a.seen)
    ensures Sound(children, Rendered(a.lines + b.lines, b.seen), seen)
  {
    forall id ensures FullCount(a.lines + b.lines, id) == if id in b.seen && id !in seen then 1 else 0 {
      FullCountConcat(a.lines, b.lines, id);
    }
    var lines := a.lines + b.lines;
    forall j | 0 <= j < |lines| && lines[j].ShownAbove?
      ensures lines[j].id in seen || exists i :: 0 <= i < j && lines[i].Full? && lines[i].id == lines[j].id
    {
      if j >= |a.lines| {
        var k := j - |a.lines|;
        assert b.lines[k] == lines[j];
        if lines[j].id in a.seen {
          FullCountPositive(a.lines, lines[j].id);
          if lines[j].id !in seen {
            var i :| 0 <= i < |a.lines| && a.lines[i].Full? && a.lines[i].id == lines[j].id;
            assert lines[i] == a.lines[i];
          }
        } else {
          var i :| 0 <= i < k && b.lines[i].Full? && b.lines[i].id == b.lines[k].id;
          assert lines[|a.lines| + i] == b.lines[i];
        }
      } else {
        assert a.lines[j] == lines[j];
        if lines[j].id !in seen {
          var i :| 0 <= i < j && a.lines[i].Full? && a.lines[i].id == a.lines[j].id;
          assert lines[i] == a.lines[i];
        }
      }
    }
  }

  /** Each newly seen ID is printed in full exactly once, and every other line is a reminder of one. */
  lemma {:induction false} RenderSound(children: Children, universe: set<string>, maxDepth: int, n: Node,
                                       bars: seq<bool>,
                                       last: bool, seen: set<string>)
    requires n.id in universe && Below(children) <= universe
    ensures Sound(children, Render(children, universe, maxDepth, n, bars, last, seen), seen)
    decreases universe - seen, 1, 0
  {
    if n.id !in seen {
      RenderKidsSound(children, universe, maxDepth, n.id, 0, bars, seen + {n.id});
      var line := Full(n.id, bars, last, HasMore(children, maxDepth, n, |bars|));
      var head := Rendered([line], seen + {n.id});
      var rest := RenderKids(children, universe, maxDepth, n.id, 0, bars, seen + {n.id});
      assert head.lines[1..] == [];
      SoundConcat(children, head, rest, seen);
    } else {
      assert [ShownAbove(n.id, bars, last)][1..] == [];
    }
  }

  lemma {:induction false} RenderKidsSound(children: Children, universe: set<string>, maxDepth: int, id: string, i: nat,
                                           bars: seq<bool>, seen: set<string>)
    requires Below(children) <= universe && i <= |Kids(children, id)|
    ensures Sound(children, RenderKids(children, universe, maxDepth, id, i, bars, seen), seen)
    decreases universe - seen, 2, |Kids(children, id)| - i
  {
    var kids := Kids(children, id);
    if i < |kids| {
      var first := Render(children, universe, maxDepth, kids[i], bars + [Bar(|bars|, i, |kids|)], i + 1 == |kids|,
          seen);
      RenderSound(children, universe, maxDepth, kids[i], bars + [Bar(|bars|, i, |kids|)], i + 1 == |kids|, seen);
      RenderKidsSound(children, universe, maxDepth, id, i + 1, bars, first.seen);
      SoundConcat(children, first, RenderKids(children, universe, maxDepth, id, i + 1, bars, first.seen), seen);
    }
  }

  /** What one call adds to the seen set: its node, with everything new closed under children. */
  lemma {:induction false} RenderCloses(children: Children, universe: set<string>, maxDepth: int, n: Node,
                                        bars: seq<bool>,
                                        last: bool, seen: set<string>)
    requires n.id in universe && Below(children) <= universe
    ensures var after := Render(children, universe, maxDepth, n, bars, last, seen).seen;
            n.id in after && ClosedOver(children, seen, after)
    decreases universe - seen, 1, 0
  {
    if n.id !in seen { RenderKidsClose(children, universe, maxDepth, n.id, 0, bars, seen + {n.id}); }
  }

  lemma {:induction false} RenderKidsClose(children: Children, universe: set<string>, maxDepth: int, id: string, i: nat,
                                           bars: seq<bool>, seen: set<string>)
    requires Below(children) <= universe && i <= |Kids(children, id)|
    ensures var after := RenderKids(children, universe, maxDepth, id, i, bars, seen).seen;
            && (forall k :: i <= k < |Kids(children, id)| ==> Kids(children, id)[k].id in after)
            && ClosedOver(children, seen, after)
    decreases universe - seen, 2, |Kids(children, id)| - i
  {
    var kids := Kids(children, id);
    if i < |kids| {
      var first := Render(children, universe, maxDepth, kids[i], bars + [Bar(|bars|, i, |kids|)], i + 1 == |kids|,
          seen);
      RenderCloses(children, universe, maxDepth, kids[i], bars + [Bar(|bars|, i, |kids|)], i + 1 == |kids|, seen);
      RenderKidsClose(children, universe, maxDepth, id, i + 1, bars, first.seen);
    }
  }

  /** And nothing that cannot be reached from the node. */
  lemma {:induction false} RenderReaches(children: Children, universe: set<string>, maxDepth: int, n: Node,
                                         bars: seq<bool>,
                                         last: bool, seen: set<string>, x: string)
    requires n.id in universe && Below(children) <= universe
    requires x in Render(children, universe, maxDepth, n, bars, last, seen).seen && x !in seen
    ensures Reaches(children, n.id, x)
    decreases universe - seen, 1, 0
  {
    ReachesSelf(children, n.id);
    if x != n.id { RenderKidsReach(children, universe, maxDepth, n.id, 0, bars, seen + {n.id}, x); }
  }

  lemma {:induction false} RenderKidsReach(children: Children, universe: set<string>, maxDepth: int, id: string, i: nat,
                                           bars: seq<bool>, seen: set<string>, x: string)
    requires Below(children) <= universe && i <= |Kids(children, id)|
    requires x in RenderKids(children, universe, maxDepth, id, i, bars, seen).seen && x !in seen
    ensures Reaches(children, id, x)
    decreases universe - seen, 2, |Kids(children, id)| - i
  {
    var kids := Kids(children, id);
    var first := Render(children, universe, maxDepth, kids[i], bars + [Bar(|bars|, i, |kids|)], i + 1 == |kids|, seen);
    if x in first.seen {
      RenderReaches(children, universe, maxDepth, kids[i], bars + [Bar(|bars|, i, |kids|)], i + 1 == |kids|, seen, x);
      ReachesVia(children, id, kids[i], x);
    } else {
      RenderKidsReach(children, universe, maxDepth, id, i + 1, bars, first.seen, x);
    }
  }

  lemma ReachesSelf(children: Children, a: string)
    ensures Reaches(children, a, a)
  {
    assert Path(children, [a]);
  }

  lemma ReachesVia(children: Children, a: string, n: Node, b: string)
    requires n in Kids(children, a) && Reaches(children, n.id, b)
    ensures Reaches(children, a, b)
  {
    var p :| Path(children, p) && p[0] == n.id && p[|p| - 1] == b;
    var q := [a] + p;
    forall i | 0 <= i < |q| - 1 ensures Child(children, q[i], q[i + 1]) {
      if i > 0 { assert Child(children, p[i - 1], p[i - 1 + 1]); }
    }
    assert Path(children, q);
  }

  lemma {:induction false} ClosedContainsPath(children: Children, s: set<string>, p: seq<string>)
    requires ClosedOver(children, {}, s) && Path(children, p) && p[0] in s
    ensures p[|p| - 1] in s
    decreases |p|
  {
    if |p| > 1 {
      assert Child(children, p[0], p[0 + 1]);
      ClosedContainsPath(children, s, p[1..]);
    }
  }

  /** On any children map, cyclic or not, rendering prints in full exactly the IDs reachable from the
      root, each once; every other line is a reminder below the full line of its ID. */
  lemma RenderIsExact(children: Children, universe: set<string>, maxDepth: int, root: Node, id: string)
    requires root.id in universe && Below(children) <= universe
    ensures var lines := Render(children, universe, maxDepth, root, [], true, {}).lines;
            && FullCount(lines, id) == (if Reaches(children, root.id, id) then 1 else 0)
            && RemindersFollow(lines, {})
  {
    RenderSound(children, universe, maxDepth, root, [], true, {});
    RenderCloses(children, universe, maxDepth, root, [], true, {});
    var after := Render(children, universe, maxDepth, root, [], true, {}).seen;
    if Reaches(children, root.id, id) {
      var p :| Path(children, p) && p[0] == root.id && p[|p| - 1] == id;
      ClosedContainsPath(children, after, p);
    }
    if id in after { RenderReaches(children, universe, maxDepth, root, [], true, {}, id); }
  }

  // What each printed line looks like.

  /** The node at the end of a path of child indices from the root. */
  function NodeAt(children: Children, root: Node, w: seq<nat>): Option<Node> {
    if w == [] then Some(root)
    else
      var parent, i := NodeAt(children, root, w[..|w| - 1]), w[|w| - 1];
      if parent.Some? && i < |Kids(children, parent.value.id)| then Some(Kids(children, parent.value.id)[i]) else None
  }

  /** Index path `w` takes the last child in its step from column `c`. */
  ghost predicate LastStep(children: Children, root: Node, w: seq<nat>, c: nat)
    requires c < |w|
  {
    NodeAt(children, root, w[..c]).Some? && w[c] + 1 == |Kids(children, NodeAt(children, root, w[..c]).value.id)|
  }

  /** The vertical bars left of the node at `w`: none in the root's column, and one in each other column whose node
      on the path is not the last child of its parent. */
  ghost predicate BarsAt(children: Children, root: Node, w: seq<nat>, bars: seq<bool>) {
    |bars| == |w| && forall c :: 0 <= c < |w| ==> (bars[c] <==> c > 0 && !LastStep(children, root, w, c))
  }

  /** The line printed for the node at `w`. */
  ghost predicate LineAt(children: Children, maxDepth: int, root: Node, w: seq<nat>, line: Line) {
    var n := NodeAt(children, root, w);
    && n.Some? && line.id == n.value.id
    && BarsAt(children, root, w, line.bars)
    && (line.last <==> w == [] || LastStep(children, root, w, |w| - 1))
    && (line.Full? ==> (line.more <==> n.value.truncated || (|w| == maxDepth && Kids(children, n.value.id) != [])))
  }

  /** The order in which a tree is read: a node before what is below it, and what is below an earlier child before
      what is below a later one. */
  ghost predicate Before(u: seq<nat>, v: seq<nat>) {
    exists i: nat :: i <= |u| && i < |v| && u[..i] == v[..i] && (i == |u| || u[i] < v[i])
  }

  /** Each line stands where the index path of the same number leads. */
  ghost predicate Walks(children: Children, maxDepth: int, root: Node, lines: seq<Line>, ws: seq<seq<nat>>) {
    |ws| == |lines| && forall k :: 0 <= k < |ws| ==> LineAt(children, maxDepth, root, ws[k], lines[k])
  }

  ghost predicate InOrder(ws: seq<seq<nat>>) {
    forall i, j :: 0 <= i < j < |ws| ==> Before(ws[i], ws[j])
  }

  /** Below every full line each child has its line. */
  ghost predicate AllChildren(children: Children, lines: seq<Line>, ws: seq<seq<nat>>) {
    && |ws| == |lines|
    && forall k, j: nat :: 0 <= k < |lines| && lines[k].Full? && j < |Kids(children, lines[k].id)| ==> ws[k] + [j] in ws
  }

  /** All below `w`, by its i-th child or a later one. */
  ghost predicate BelowFrom(w: seq<nat>, i: nat, ws: seq<seq<nat>>) {
    forall k :: 0 <= k < |ws| ==> w < ws[k] && ws[k][|w|] >= i
  }

  ghost predicate BelowChild(w: seq<nat>, i: nat, ws: seq<seq<nat>>) {
    forall k :: 0 <= k < |ws| ==> w + [i] <= ws[k]
  }

  lemma NodeAtChild(children: Children, root: Node, w: seq<nat>, n: Node, i: nat)
    requires NodeAt(children, root, w) == Some(n) && i < |Kids(children, n.id)|
    ensures NodeAt(children, root, w + [i]) == Some(Kids(children, n.id)[i])
  {
    assert (w + [i])[..|w|] == w;
  }

  lemma BarsAtChild(children: Children, root: Node, w: seq<nat>, n: Node, bars: seq<bool>, i: nat)
    requires NodeAt(children, root, w) == Some(n) && i < |Kids(children, n.id)| && BarsAt(children, root, w, bars)
    ensures BarsAt(children, root, w + [i], bars + [Bar(|bars|, i, |Kids(children, n.id)|)])
    ensures LastStep(children, root, w + [i], |w|) <==> i + 1 == |Kids(children, n.id)|
  {
    var v := w + [i];
    assert v[..|w|] == w;
    forall c | 0 <= c < |w| ensures LastStep(children, root, v, c) <==> LastStep(children, root, w, c) {
      assert v[..c] == w[..c];
    }
  }

  lemma WalksConcat(children: Children, maxDepth: int, root: Node, a: seq<Line>, ws: seq<seq<nat>>, b: seq<Line>,
                    vs: seq<seq<nat>>)
    requires Walks(children, maxDepth, root, a, ws) && Walks(children, maxDepth, root, b, vs)
    ensures Walks(children, maxDepth, root, a + b, ws + vs)
  {
  }

  lemma AllChildrenConcat(children: Children, a: seq<Line>, ws: seq<seq<nat>>, b: seq<Line>, vs: seq<seq<nat>>)
    requires AllChildren(children, a, ws) && AllChildren(children, b, vs)
    ensures AllChildren(children, a + b, ws + vs)
  {
    var lines, us := a + b, ws + vs;
    forall k, j: nat | 0 <= k < |lines| && lines[k].Full? && j < |Kids(children, lines[k].id)|
      ensures us[k] + [j] in us
    {
      if k < |a| { assert ws[k] + [j] in ws; } else { assert vs[k - |a|] + [j] in vs; }
    }
  }

  lemma SiblingsInOrder(w: seq<nat>, i: nat, ws: seq<seq<nat>>, vs: seq<seq<nat>>)
    requires InOrder(ws) && InOrder(vs) && BelowChild(w, i, ws) && BelowFrom(w, i + 1, vs)
    ensures InOrder(ws + vs) && BelowFrom(w, i, ws + vs)
  {
    var us := ws + vs;
    forall k | 0 <= k < |ws| ensures w < ws[k] && ws[k][|w|] == i { assert (w + [i])[|w|] == i; }
    forall k, l | 0 <= k < l < |us| ensures Before(us[k], us[l]) {
      if k < |ws| <= l {
        assert us[k][..|w|] == w == us[l][..|w|];
      }
    }
  }

  lemma ParentInOrder(w: seq<nat>, ws: seq<seq<nat>>)
    requires InOrder(ws) && BelowFrom(w, 0, ws)
    ensures InOrder([w] + ws)
  {
    forall k | 0 <= k < |ws| ensures Before(w, ws[k]) { assert w[..|w|] == ws[k][..|w|]; }
  }

  /** Node, bars and branch are those that belong to the index path `w`. */
  ghost predicate Placed(children: Children, root: Node, w: seq<nat>, n: Node, bars: seq<bool>, last: bool) {
    && NodeAt(children, root, w) == Some(n) && BarsAt(children, root, w, bars)
    && (last <==> w == [] || LastStep(children, root, w, |w| - 1))
  }

  lemma ChildPlaced(children: Children, root: Node, w: seq<nat>, n: Node, bars: seq<bool>, last: bool, i: nat)
    requires Placed(children, root, w, n, bars, last) && i < |Kids(children, n.id)|
    ensures Placed(children, root, w + [i], Kids(children, n.id)[i],
                   bars + [Bar(|bars|, i, |Kids(children, n.id)|)], i + 1 == |Kids(children, n.id)|)
  {
    NodeAtChild(children, root, w, n, i);
    BarsAtChild(children, root, w, n, bars, i);
  }

  /** `ws` says where the lines for the node at `w` stand. */
  ghost predicate NodeWalks(children: Children, maxDepth: int, root: Node, w: seq<nat>, lines: seq<Line>,
                            ws: seq<seq<nat>>) {
    && Walks(children, maxDepth, root, lines, ws) && AllChildren(children, lines, ws)
    && InOrder(ws) && ws != [] && ws[0] == w && forall k :: 0 <= k < |ws| ==> w <= ws[k]
  }

  /** `ws` says where the lines for the children of `w` from the i-th on stand. */
  ghost predicate KidsWalk(children: Children, maxDepth: int, root: Node, w: seq<nat>, i: nat, count: nat,
                           lines: seq<Line>, ws: seq<seq<nat>>) {
    && Walks(children, maxDepth, root, lines, ws) && AllChildren(children, lines, ws)
    && InOrder(ws) && BelowFrom(w, i, ws) && forall j: nat :: i <= j < count ==> w + [j] in ws
  }

  ghost predicate NodeStands(children: Children, maxDepth: int, root: Node, w: seq<nat>, lines: seq<Line>) {
    exists ws :: NodeWalks(children, maxDepth, root, w, lines, ws)
  }

  ghost predicate KidsStand(children: Children, maxDepth: int, root: Node, w: seq<nat>, i: nat, count: nat,
                            lines: seq<Line>) {
    exists ws :: KidsWalk(children, maxDepth, root, w, i, count, lines, ws)
  }

  lemma {:induction false} RenderStands(children: Children, universe: set<string>, maxDepth: int, root: Node,
                                        w: seq<nat>, n: Node, bars: seq<bool>, last: bool, seen: set<string>)
    requires n.id in universe && Below(children) <= universe && Placed(children, root, w, n, bars, last)
    ensures NodeStands(children, maxDepth, root, w, Render(children, universe, maxDepth, n, bars, last, seen).lines)
    decreases universe - seen, 1, 0
  {
    var lines := Render(children, universe, maxDepth, n, bars, last, seen).lines;
    if n.id !in seen {
      var line := Full(n.id, bars, last, HasMore(children, maxDepth, n, |bars|));
      var rest := RenderKids(children, universe, maxDepth, n.id, 0, bars, seen + {n.id}).lines;
      RenderKidsStand(children, universe, maxDepth, root, w, n, 0, bars, last, seen + {n.id});
      assert Walks(children, maxDepth, root, [line], [w]);
      ParentStands(children, maxDepth, root, w, n, line, rest);
    } else {
      assert NodeWalks(children, maxDepth, root, w, lines, [w]);
    }
  }

  /** The line of a node joins those of its children. */
  lemma ParentStands(children: Children, maxDepth: int, root: Node, w: seq<nat>, n: Node, line: Line, rest: seq<Line>)
    requires line.Full? && line.id == n.id && Walks(children, maxDepth, root, [line], [w])
    requires KidsStand(children, maxDepth, root, w, 0, |Kids(children, n.id)|, rest)
    ensures NodeStands(children, maxDepth, root, w, [line] + rest)
  {
    var vs :| KidsWalk(children, maxDepth, root, w, 0, |Kids(children, n.id)|, rest, vs);
    WalksConcat(children, maxDepth, root, [line], [w], rest, vs);
    ParentInOrder(w, vs);
    FirstHasChildren(children, line, w, rest, vs);
    assert NodeWalks(children, maxDepth, root, w, [line] + rest, [w] + vs);
  }

  lemma FirstHasChildren(children: Children, line: Line, w: seq<nat>, rest: seq<Line>, vs: seq<seq<nat>>)
    requires AllChildren(children, rest, vs)
    requires forall j: nat :: j < |Kids(children, line.id)| ==> w + [j] in vs
    ensures AllChildren(children, [line] + rest, [w] + vs)
  {
    var lines, ws := [line] + rest, [w] + vs;
    forall k, j: nat | 0 <= k < |lines| && lines[k].Full? && j < |Kids(children, lines[k].id)|
      ensures ws[k] + [j] in ws
    {
      if k > 0 { assert vs[k - 1] + [j] in vs; } else { assert w + [j] in vs; }
    }
  }

  /** The lines of one child and those of its later siblings join. */
  lemma KidsJoin(children: Children, maxDepth: int, root: Node, w: seq<nat>, i: nat, count: nat, first: seq<Line>,
                 rest: seq<Line>)
    requires NodeStands(children, maxDepth, root, w + [i], first)
    requires KidsStand(children, maxDepth, root, w, i + 1, count, rest)
    ensures KidsStand(children, maxDepth, root, w, i, count, first + rest)
  {
    var us :| NodeWalks(children, maxDepth, root, w + [i], first, us);
    var vs :| KidsWalk(children, maxDepth, root, w, i + 1, count, rest, vs);
    WalksConcat(children, maxDepth, root, first, us, rest, vs);
    AllChildrenConcat(children, first, us, rest, vs);
    SiblingsInOrder(w, i, us, vs);
    assert us[0] in us + vs;
    forall j: nat | i <= j < count ensures w + [j] in us + vs { if j > i { assert w + [j] in vs; } }
    assert KidsWalk(children, maxDepth, root, w, i, count, first + rest, us + vs);
  }

  lemma {:induction false} RenderKidsStand(children: Children, universe: set<string>, maxDepth: int, root: Node,
                                           w: seq<nat>, n: Node, i: nat, bars: seq<bool>, last: bool,
                                           seen: set<string>)
    requires Below(children) <= universe && i <= |Kids(children, n.id)| && Placed(children, root, w, n, bars, last)
    ensures KidsStand(children, maxDepth, root, w, i, |Kids(children, n.id)|,
                      RenderKids(children, universe, maxDepth, n.id, i, bars, seen).lines)
    decreases universe - seen, 2, |Kids(children, n.id)| - i
  {
    var kids := Kids(children, n.id);
    if i < |kids| {
      var inner, at := bars + [Bar(|bars|, i, |kids|)], i + 1 == |kids|;
      ChildPlaced(children, root, w, n, bars, last, i);
      var first := Render(children, universe, maxDepth, kids[i], inner, at, seen);
      RenderStands(children, universe, maxDepth, root, w + [i], kids[i], inner, at, seen);
      RenderKidsStand(children, universe, maxDepth, root, w, n, i + 1, bars, last, first.seen);
      var rest := RenderKids(children, universe, maxDepth, n.id, i + 1, bars, first.seen).lines;
      KidsJoin(children, maxDepth, root, w, i, |kids|, first.lines, rest);
    } else {
      NoKidsStand(children, maxDepth, root, w, i);
    }
  }

  lemma NoKidsStand(children: Children, maxDepth: int, root: Node, w: seq<nat>, i: nat)
    ensures KidsStand(children, maxDepth, root, w, i, i, [])
  {
    assert KidsWalk(children, maxDepth, root, w, i, i, [], []);
  }

  /** The whole output: line by line the nodes in reading order, each with the bars and the branch that its place in
      the tree calls for, starting from the root, and below every full line a line for each child. */
  lemma OutputExactly(children: Children, universe: set<string>, maxDepth: int, root: Node) returns (ws: seq<seq<nat>>)
    requires root.id in universe && Below(children) <= universe
    ensures var lines := Render(children, universe, maxDepth, root, [], true, {}).lines;
            && Walks(children, maxDepth, root, lines, ws) && InOrder(ws) && ws != [] && ws[0] == []
            && AllChildren(children, lines, ws)
  {
    RenderStands(children, universe, maxDepth, root, [], root, [], true, {});
    var lines := Render(children, universe, maxDepth, root, [], true, {}).lines;
    ws :| NodeWalks(children, maxDepth, root, [], lines, ws);
  }

  /** The children lists hold the nodes below depth 0 that name the parent, each once and in tree order. */
  lemma {:induction false} ChildListAt(tree: seq<Node>, p: string) returns (at: seq<nat>)
    ensures Positions(at, |tree|) && |at| == |ChildList(tree, p)|
    ensures forall i :: 0 <= i < |tree| ==> (i in at <==> tree[i].depth != 0 && tree[i].parentId == p)
    ensures forall j :: 0 <= j < |at| ==> ChildList(tree, p)[j] == tree[at[j]]
  {
    at := [];
    if tree != [] {
      var n := |tree| - 1;
      at := ChildListAt(tree[..n], p);
      MorePositions(at, n);
      if tree[n].depth != 0 && tree[n].parentId == p { at := at + [n]; }
    }
  }

  // Connector bounds.

  /** A node below the last column is expanded: the write to its own column would be out of range. */
  ghost predicate Overflows(children: Children, maxDepth: nat, lines: seq<Line>) {
    exists k :: 0 <= k < |lines| && lines[k].Full? && |lines[k].bars| > maxDepth && Kids(children, lines[k].id) != []
  }

  /** Every child sits one below its parent, and nothing sits below `maxDepth`. */
  ghost predicate Graded(children: Children, maxDepth: nat, depthOf: map<string, nat>) {
    forall id, n :: n in Kids(children, id) ==>
      id in depthOf && n.id in depthOf && depthOf[n.id] == depthOf[id] + 1 && depthOf[n.id] <= maxDepth
  }

  /** `ok` passes from an ID at a depth to its children one deeper. */
  ghost predicate PassedDown(children: Children, ok: (string, nat) -> bool) {
    forall id, d: nat, n :: ok(id, d) && n in Kids(children, id) ==> ok(n.id, d + 1)
  }

  ghost predicate LinesOk(lines: seq<Line>, ok: (string, nat) -> bool) {
    forall k :: 0 <= k < |lines| ==> ok(lines[k].id, |lines[k].bars|)
  }

  /** What is passed down from the node holds of every line printed for it. */
  lemma {:induction false} RenderPassesDown(children: Children, universe: set<string>, maxDepth: int, n: Node,
                                            bars: seq<bool>, last: bool, seen: set<string>, ok: (string, nat) -> bool)
    requires n.id in universe && Below(children) <= universe
    requires PassedDown(children, ok) && ok(n.id, |bars|)
    ensures LinesOk(Render(children, universe, maxDepth, n, bars, last, seen).lines, ok)
    decreases universe - seen, 1, 0
  {
    if n.id !in seen { RenderKidsPassDown(children, universe, maxDepth, n.id, 0, bars, seen + {n.id}, ok); }
  }

  lemma {:induction false} RenderKidsPassDown(children: Children, universe: set<string>, maxDepth: int, id: string,
                                              i: nat,
                                              bars: seq<bool>, seen: set<string>, ok: (string, nat) -> bool)
    requires Below(children) <= universe && i <= |Kids(children, id)|
    requires PassedDown(children, ok) && ok(id, |bars|)
    ensures LinesOk(RenderKids(children, universe, maxDepth, id, i, bars, seen).lines, ok)
    decreases universe - seen, 2, |Kids(children, id)| - i
  {
    var kids := Kids(children, id);
    if i < |kids| {
      assert kids[i] in Kids(children, id);
      var bar := Bar(|bars|, i, |kids|);
      var first := Render(children, universe, maxDepth, kids[i], bars + [bar], i + 1 == |kids|, seen);
      RenderPassesDown(children, universe, maxDepth, kids[i], bars + [bar], i + 1 == |kids|, seen, ok);
      RenderKidsPassDown(children, universe, maxDepth, id, i + 1, bars, first.seen, ok);
    }
  }

  /** On a graded tree no connector access is out of range. */
  lemma GradedFits(children: Children, universe: set<string>, maxDepth: nat, root: Node, depthOf: map<string, nat>)
    requires root.id in universe && Below(children) <= universe
    requires Graded(children, maxDepth, depthOf) && root.id in depthOf && depthOf[root.id] == 0
    ensures !Overflows(children, maxDepth, Render(children, universe, maxDepth, root, [], true, {}).lines)
  {
    RenderPassesDown(children, universe, maxDepth, root, [], true, {},
                     (id: string, d: nat) => id in depthOf && depthOf[id] == d);
    forall id | Kids(children, id) != [] ensures id in depthOf && depthOf[id] <= maxDepth {
      var n := Kids(children, id)[0];
      assert n in Kids(children, id) && depthOf[n.id] == depthOf[id] + 1;
    }
  }

  // The exact condition on the tree.

  /** A path from `a` to `b` around the IDs of `stack`. */
  ghost predicate Leads(children: Children, stack: set<string>, a: string, b: string) {
    exists q :: Path(children, q) && q[0] == a && q[|q| - 1] == b && forall i :: 0 <= i < |q| ==> q[i] !in stack
  }

  /** `next` is a child of `id` before which no other child leads to `t`. */
  ghost predicate FirstStep(children: Children, stack: set<string>, id: string, next: string, t: string) {
    var kids := Kids(children, id);
    exists j :: 0 <= j < |kids| && kids[j].id == next &&
                forall k :: 0 <= k < j ==> !Leads(children, stack, kids[k].id, t)
  }

  /** The path by which a search that looks at children in order first comes to the end of `p`: it repeats no ID,
      and at no step does an earlier child lead there around the path so far. */
  ghost predicate First(children: Children, stack: set<string>, p: seq<string>)
    decreases |p|
  {
    && p != [] && p[0] !in stack
    && (|p| > 1 ==>
          && FirstStep(children, stack + {p[0]}, p[0], p[1], p[|p| - 1])
          && First(children, stack + {p[0]}, p[1..]))
  }

  ghost predicate FirstTo(children: Children, stack: set<string>, a: string, t: string, n: int) {
    exists p :: First(children, stack, p) && p[0] == a && p[|p| - 1] == t && |p| == n
  }

  /** The same from a child of `id`, which is on the stack. */
  ghost predicate KidFirst(children: Children, stack: set<string>, id: string, t: string, n: int) {
    exists p :: First(children, stack, p) && FirstStep(children, stack, id, p[0], t) && p[|p| - 1] == t && |p| == n
  }

  lemma {:induction false} FirstIsPath(children: Children, stack: set<string>, p: seq<string>)
    requires First(children, stack, p)
    ensures Path(children, p) && forall i :: 0 <= i < |p| ==> p[i] !in stack
    ensures |p| > 1 ==> p[|p| - 1] != p[0]
    decreases |p|
  {
    if |p| > 1 {
      var q := p[1..];
      FirstIsPath(children, stack + {p[0]}, q);
      assert forall i :: 0 <= i < |q| ==> q[i] == p[i + 1];
      var j :| 0 <= j < |Kids(children, p[0])| && Kids(children, p[0])[j].id == p[1];
      assert Kids(children, p[0])[j] in Kids(children, p[0]);
      forall i | 0 <= i < |p| - 1 ensures Child(children, p[i], p[i + 1]) {
        if i > 0 { assert Child(children, q[i - 1], q[i - 1 + 1]); }
      }
      assert p[|p| - 1] == q[|q| - 1];
    }
  }

  /** The first path to an ID is the only one. */
  lemma {:induction false} FirstIsUnique(children: Children, stack: set<string>, p: seq<string>, q: seq<string>)
    requires First(children, stack, p) && First(children, stack, q)
    requires p[0] == q[0] && p[|p| - 1] == q[|q| - 1]
    ensures p == q
    decreases |p|
  {
    FirstIsPath(children, stack, p);
    FirstIsPath(children, stack, q);
    if |p| > 1 && |q| > 1 {
      FirstLeads(children, stack + {p[0]}, p[1..]);
      FirstLeads(children, stack + {p[0]}, q[1..]);
      SameStep(children, stack + {p[0]}, p[0], p[1], q[1], p[|p| - 1]);
      FirstIsUnique(children, stack + {p[0]}, p[1..], q[1..]);
      assert p == [p[0]] + p[1..] && q == [q[0]] + q[1..];
    } else {
      assert p == [p[0]] && q == [q[0]];
    }
  }

  lemma FirstLeads(children: Children, stack: set<string>, p: seq<string>)
    requires First(children, stack, p)
    ensures Leads(children, stack, p[0], p[|p| - 1])
  {
    FirstIsPath(children, stack, p);
  }

  lemma SameStep(children: Children, stack: set<string>, id: string, a: string, b: string, t: string)
    requires Leads(children, stack, a, t) && Leads(children, stack, b, t)
    requires FirstStep(children, stack, id, a, t) && FirstStep(children, stack, id, b, t)
    ensures a == b
  {
    var kids := Kids(children, id);
    var i :| 0 <= i < |kids| && kids[i].id == a && forall k :: 0 <= k < i ==> !Leads(children, stack, kids[k].id, t);
    var j :| 0 <= j < |kids| && kids[j].id == b && forall k :: 0 <= k < j ==> !Leads(children, stack, kids[k].id, t);
    assert !(i < j) && !(j < i);
  }

  lemma {:induction false} SeenPath(children: Children, stack: set<string>, seen: set<string>, q: seq<string>)
    requires ClosedOver(children, stack, seen) && Path(children, q) && q[0] in seen
    requires forall i :: 0 <= i < |q| ==> q[i] !in stack
    ensures q[|q| - 1] in seen
    decreases |q|
  {
    if |q| > 1 {
      assert Child(children, q[0], q[0 + 1]);
      SeenPath(children, stack, seen, q[1..]);
    }
  }

  /** Nothing new can be reached from what has been seen, but over the stack. */
  lemma SeenLeadsToSeen(children: Children, stack: set<string>, seen: set<string>, a: string, b: string)
    requires ClosedOver(children, stack, seen) && a in seen && Leads(children, stack, a, b)
    ensures b in seen
  {
    var q :| Path(children, q) && q[0] == a && q[|q| - 1] == b && forall i :: 0 <= i < |q| ==> q[i] !in stack;
    SeenPath(children, stack, seen, q);
  }

  lemma {:induction false} FullIsCounted(lines: seq<Line>, k: nat)
    requires k < |lines| && lines[k].Full?
    ensures FullCount(lines, lines[k].id) > 0
  {
    if k > 0 {
      assert lines[1..][k - 1] == lines[k];
      FullIsCounted(lines[1..], k - 1);
    }
  }

  ghost predicate NewLines(lines: seq<Line>, seen: set<string>) {
    forall k :: 0 <= k < |lines| && lines[k].Full? ==> lines[k].id !in seen
  }

  lemma FullIsNew(children: Children, universe: set<string>, maxDepth: int, n: Node, bars: seq<bool>, last: bool,
                  seen: set<string>)
    requires n.id in universe && Below(children) <= universe
    ensures NewLines(Render(children, universe, maxDepth, n, bars, last, seen).lines, seen)
  {
    RenderSound(children, universe, maxDepth, n, bars, last, seen);
    var lines := Render(children, universe, maxDepth, n, bars, last, seen).lines;
    forall k | 0 <= k < |lines| && lines[k].Full? ensures lines[k].id !in seen { FullIsCounted(lines, k); }
  }

  ghost predicate LinesFirst(children: Children, stack: set<string>, a: string, depth: nat, lines: seq<Line>) {
    forall k :: 0 <= k < |lines| && lines[k].Full? ==>
      FirstTo(children, stack, a, lines[k].id, |lines[k].bars| + 1 - depth)
  }

  ghost predicate LinesKidFirst(children: Children, stack: set<string>, id: string, depth: nat, lines: seq<Line>) {
    forall k :: 0 <= k < |lines| && lines[k].Full? ==>
      KidFirst(children, stack, id, lines[k].id, |lines[k].bars| - depth)
  }

  lemma KidFirstConcat(children: Children, stack: set<string>, id: string, depth: nat, a: seq<Line>, b: seq<Line>)
    requires LinesKidFirst(children, stack, id, depth, a) && LinesKidFirst(children, stack, id, depth, b)
    ensures LinesKidFirst(children, stack, id, depth, a + b)
  {
  }

  /** What is first from a child, when the children before it have been seen, is first among all children. */
  lemma FirstFromKid(children: Children, stack: set<string>, seen: set<string>, id: string, i: nat, depth: nat,
                     lines: seq<Line>)
    requires i < |Kids(children, id)| && ClosedOver(children, stack, seen)
    requires forall k :: 0 <= k < i ==> Kids(children, id)[k].id in seen
    requires LinesFirst(children, stack, Kids(children, id)[i].id, depth + 1, lines) && NewLines(lines, seen)
    ensures LinesKidFirst(children, stack, id, depth, lines)
  {
    var kids := Kids(children, id);
    forall l | 0 <= l < |lines| && lines[l].Full?
      ensures KidFirst(children, stack, id, lines[l].id, |lines[l].bars| - depth)
    {
      var t := lines[l].id;
      forall k | 0 <= k < i ensures !Leads(children, stack, kids[k].id, t) {
        if Leads(children, stack, kids[k].id, t) { SeenLeadsToSeen(children, stack, seen, kids[k].id, t); }
      }
      var n := |lines[l].bars| - depth;
      assert FirstTo(children, stack, kids[i].id, t, n);
      var p :| First(children, stack, p) && p[0] == kids[i].id && p[|p| - 1] == t && |p| == n;
      assert FirstStep(children, stack, id, p[0], t);
    }
  }

  /** Every full line printed for a node ends the first path to its ID, as long as its depth. */
  lemma {:induction false} RenderFirst(children: Children, universe: set<string>, maxDepth: int, n: Node,
                                       bars: seq<bool>, last: bool, seen: set<string>, stack: set<string>)
    requires n.id in universe && Below(children) <= universe
    requires stack <= seen && ClosedOver(children, stack, seen)
    ensures LinesFirst(children, stack, n.id, |bars|, Render(children, universe, maxDepth, n, bars, last, seen).lines)
    decreases universe - seen, 1, 0
  {
    if n.id !in seen {
      RenderKidsFirst(children, universe, maxDepth, n.id, 0, bars, seen + {n.id}, stack + {n.id});
      FirstFromParent(children, stack, n.id, Full(n.id, bars, last, HasMore(children, maxDepth, n, |bars|)),
                      RenderKids(children, universe, maxDepth, n.id, 0, bars, seen + {n.id}).lines);
    }
  }

  lemma FirstFromParent(children: Children, stack: set<string>, id: string, line: Line, rest: seq<Line>)
    requires id !in stack && line.Full? && line.id == id
    requires LinesKidFirst(children, stack + {id}, id, |line.bars|, rest)
    ensures LinesFirst(children, stack, id, |line.bars|, [line] + rest)
  {
    var lines, depth := [line] + rest, |line.bars|;
    assert First(children, stack, [id]);
    forall k | 0 <= k < |lines| && lines[k].Full?
      ensures FirstTo(children, stack, id, lines[k].id, |lines[k].bars| + 1 - depth)
    {
      if k > 0 {
        assert lines[k] == rest[k - 1];
        KidFirstIsFirst(children, stack, id, lines[k].id, |lines[k].bars| - depth);
      }
    }
  }

  lemma KidFirstIsFirst(children: Children, stack: set<string>, id: string, t: string, n: int)
    requires id !in stack && KidFirst(children, stack + {id}, id, t, n)
    ensures FirstTo(children, stack, id, t, n + 1)
  {
    var p :| First(children, stack + {id}, p) && FirstStep(children, stack + {id}, id, p[0], t) &&
             p[|p| - 1] == t && |p| == n;
    var q := [id] + p;
    assert q[1..] == p && q[1] == p[0] && q[|q| - 1] == t;
    assert First(children, stack, q);
  }

  lemma {:induction false} RenderKidsFirst(children: Children, universe: set<string>, maxDepth: int, id: string, i: nat,
                                           bars: seq<bool>, seen: set<string>, stack: set<string>)
    requires Below(children) <= universe && i <= |Kids(children, id)|
    requires stack <= seen && ClosedOver(children, stack, seen)
    requires forall k :: 0 <= k < i ==> Kids(children, id)[k].id in seen
    ensures LinesKidFirst(children, stack, id, |bars|,
                          RenderKids(children, universe, maxDepth, id, i, bars, seen).lines)
    decreases universe - seen, 2, |Kids(children, id)| - i
  {
    var kids := Kids(children, id);
    if i < |kids| {
      var inner, last := bars + [Bar(|bars|, i, |kids|)], i + 1 == |kids|;
      var first := Render(children, universe, maxDepth, kids[i], inner, last, seen);
      RenderFirst(children, universe, maxDepth, kids[i], inner, last, seen, stack);
      FullIsNew(children, universe, maxDepth, kids[i], inner, last, seen);
      FirstFromKid(children, stack, seen, id, i, |bars|, first.lines);
      RenderCloses(children, universe, maxDepth, kids[i], inner, last, seen);
      RenderKidsFirst(children, universe, maxDepth, id, i + 1, bars, first.seen, stack);
      KidFirstConcat(children, stack, id, |bars|, first.lines,
                     RenderKids(children, universe, maxDepth, id, i + 1, bars, first.seen).lines);
    }
  }

  /** The first path to some ID with children has more than `maxDepth` steps. */
  ghost predicate TooDeep(children: Children, maxDepth: nat, root: string) {
    exists p :: First(children, {}, p) && p[0] == root && |p| > maxDepth + 1 && Kids(children, p[|p| - 1]) != []
  }

  lemma OverflowIsTooDeep(children: Children, maxDepth: nat, root: string, lines: seq<Line>)
    requires LinesFirst(children, {}, root, 0, lines) && Overflows(children, maxDepth, lines)
    ensures TooDeep(children, maxDepth, root)
  {
    var k :| 0 <= k < |lines| && lines[k].Full? && |lines[k].bars| > maxDepth && Kids(children, lines[k].id) != [];
    var t, n := lines[k].id, |lines[k].bars| + 1;
    assert FirstTo(children, {}, root, t, n);
    var p :| First(children, {}, p) && p[0] == root && p[|p| - 1] == t && |p| == n;
  }

  /** Exactly when a connector access is out of range, on any children map, repeated IDs and cycles included. */
  lemma OverflowsExactly(children: Children, universe: set<string>, maxDepth: nat, root: Node)
    requires root.id in universe && Below(children) <= universe
    ensures Overflows(children, maxDepth, Render(children, universe, maxDepth, root, [], true, {}).lines)
            <==> TooDeep(children, maxDepth, root.id)
  {
    var lines := Render(children, universe, maxDepth, root, [], true, {}).lines;
    RenderFirst(children, universe, maxDepth, root, [], true, {}, {});
    if Overflows(children, maxDepth, lines) { OverflowIsTooDeep(children, maxDepth, root.id, lines); }
    if TooDeep(children, maxDepth, root.id) { TooDeepOverflows(children, universe, maxDepth, root); }
  }

  lemma TooDeepOverflows(children: Children, universe: set<string>, maxDepth: nat, root: Node)
    requires root.id in universe && Below(children) <= universe && TooDeep(children, maxDepth, root.id)
    ensures Overflows(children, maxDepth, Render(children, universe, maxDepth, root, [], true, {}).lines)
  {
    var p :| First(children, {}, p) && p[0] == root.id && |p| > maxDepth + 1 && Kids(children, p[|p| - 1]) != [];
    FirstIsPrinted(children, universe, maxDepth, root, p);
  }

  /** The end of a first path is printed in full at the depth of that path. */
  lemma FirstIsPrinted(children: Children, universe: set<string>, maxDepth: int, root: Node, p: seq<string>)
    requires root.id in universe && Below(children) <= universe && First(children, {}, p) && p[0] == root.id
    ensures var lines := Render(children, universe, maxDepth, root, [], true, {}).lines;
            exists k :: 0 <= k < |lines| && lines[k].Full? && lines[k].id == p[|p| - 1] && |lines[k].bars| == |p| - 1
  {
    var lines, t := Render(children, universe, maxDepth, root, [], true, {}).lines, p[|p| - 1];
    FirstIsPath(children, {}, p);
    assert Reaches(children, root.id, t);
    RenderIsExact(children, universe, maxDepth, root, t);
    FullCountPositive(lines, t);
    var k :| 0 <= k < |lines| && lines[k].Full? && lines[k].id == t;
    RenderFirst(children, universe, maxDepth, root, [], true, {}, {});
    FirstHasLength(children, p, |lines[k].bars| + 1);
  }

  lemma FirstHasLength(children: Children, p: seq<string>, n: int)
    requires First(children, {}, p) && FirstTo(children, {}, p[0], p[|p| - 1], n)
    ensures |p| == n
  {
    var q :| First(children, {}, q) && q[0] == p[0] && q[|q| - 1] == p[|p| - 1] && |q| == n;
    FirstIsUnique(children, {}, p, q);
  }

  /** So if no path of more than `maxDepth` steps from the root leads to an ID with children, all accesses are in
      range. */
  lemma ShallowFits(children: Children, universe: set<string>, maxDepth: nat, root: Node)
    requires root.id in universe && Below(children) <= universe
    requires forall p :: Path(children, p) && p[0] == root.id && |p| > maxDepth + 1 ==> Kids(children, p[|p| - 1]) == []
    ensures !Overflows(children, maxDepth, Render(children, universe, maxDepth, root, [], true, {}).lines)
  {
    OverflowsExactly(children, universe, maxDepth, root);
    forall p | First(children, {}, p) ensures Path(children, p) { FirstIsPath(children, {}, p); }
  }

  /** It does happen when all paths are shown: the first visit of an ID need not be its shallowest, and is the one
      that is expanded. Here the limit is 2, every row lies within it, and c is expanded in column 3. */
  lemma AllPathsOverflow()
    ensures var r, a, b, c, d := Node("r", "open", 0, "r", false), Node("a", "open", 1, "r", false),
                                 Node("b", "open", 1, "r", false), Node("c", "open", 1, "r", false),
                                 Node("d", "open", 2, "c", true);
            var b2, c2 := Node("b", "open", 2, "a", true), Node("c", "open", 2, "b", true);
            var children := map["r" := [a, b, c], "a" := [b2], "b" := [c2], "c" := [d]];
            && (forall p :: Kids(children, p) == ChildList([r] + [a] + [b] + [c] + [b2] + [c2] + [d], p))
            && Overflows(children, 2, Render(children, {r.id} + Below(children), 2, r, [], true, {}).lines)
  {
    var r, a, b, c, d := Node("r", "open", 0, "r", false), Node("a", "open", 1, "r", false),
                         Node("b", "open", 1, "r", false), Node("c", "open", 1, "r", false),
                         Node("d", "open", 2, "c", true);
    var b2, c2 := Node("b", "open", 2, "a", true), Node("c", "open", 2, "b", true);
    var children := map["r" := [a, b, c], "a" := [b2], "b" := [c2], "c" := [d]];
    forall p
      ensures Kids(children, p) == ChildList([r] + [a] + [b] + [c] + [b2] + [c2] + [d], p)
    {
      SevenRows(r, a, b, c, b2, c2, d, p);
    }
    ChainIsFirst(children);
    OverflowsExactly(children, {r.id} + Below(children), 2, r);
  }

  lemma SevenRows(r: Node, a: Node, b: Node, c: Node, b2: Node, c2: Node, d: Node, p: string)
    requires r.depth == 0 && a.depth == b.depth == c.depth == 1 && b2.depth == c2.depth == d.depth == 2
    ensures ChildList([r] + [a] + [b] + [c] + [b2] + [c2] + [d], p)
         == [] + One(a, p) + One(b, p) + One(c, p) + One(b2, p) + One(c2, p) + One(d, p)
  {
    var t1 := [r] + [a];
    var t2 := t1 + [b];
    var t3 := t2 + [c];
    var t4 := t3 + [b2];
    ChildListAppend(t4 + [c2], d, p);
    ChildListAppend(t4, c2, p);
    ChildListAppend(t3, b2, p);
    ChildListAppend(t2, c, p);
    ChildListAppend(t1, b, p);
    ChildListAppend([r], a, p);
    assert ChildList([r], p) == [] by { assert [r][..0] == []; }
  }

  function One(n: Node, p: string): seq<Node> {
    if n.depth != 0 && n.parentId == p then [n] else []
  }

  lemma ChildListAppend(tree: seq<Node>, n: Node, p: string)
    ensures ChildList(tree + [n], p) == ChildList(tree, p) + One(n, p)
  {
    assert (tree + [n])[..|tree|] == tree;
  }

  /** Over first children alone the path is first. */
  lemma ChainIsFirst(children: Children)
    requires Kids(children, "r") != [] && Kids(children, "r")[0].id == "a"
    requires Kids(children, "a") != [] && Kids(children, "a")[0].id == "b"
    requires Kids(children, "b") != [] && Kids(children, "b")[0].id == "c" && Kids(children, "c") != []
    ensures TooDeep(children, 2, "r")
  {
    var p := ["r", "a", "b", "c"];
    assert p[1..] == ["a", "b", "c"] && p[1..][1..] == ["b", "c"] && p[1..][1..][1..] == ["c"];
    var s := {} + {"r"} + {"a"} + {"b"};
    assert First(children, s, ["c"]);
    assert FirstStep(children, s, "b", "c", "c") && First(children, {} + {"r"} + {"a"}, ["b", "c"]) by {
      assert ["b", "c"][1..] == ["c"];
    }
    assert FirstStep(children, {} + {"r"} + {"a"}, "a", "b", "c") && First(children, {} + {"r"}, ["a", "b", "c"]) by {
      assert ["a", "b", "c"][1..] == ["b", "c"];
    }
    assert FirstStep(children, {} + {"r"}, "r", "a", "c") && First(children, {}, p);
  }

  // renderTree.

  /** The children list of `p`: the nodes below depth 0 that name `p` as parent, in tree order. */
  function ChildList(tree: seq<Node>, p: string): seq<Node> {
    if tree == [] then []
    else
      var rest, last := ChildList(tree[..|tree| - 1], p), tree[|tree| - 1];
      if last.depth != 0 && last.parentId == p then rest + [last] else rest
  }

  /** The last node of depth 0, or the first node if there is none. */
  ghost predicate IsRoot(tree: seq<Node>, root: Node) {
    if forall n :: n in tree ==> n.depth != 0 then tree != [] && root == tree[0]
    else exists i :: 0 <= i < |tree| && tree[i] == root && root.depth == 0 &&
                     forall j :: i < j < |tree| ==> tree[j].depth != 0
  }

  lemma {:induction false} ChildListElements(tree: seq<Node>, p: string, n: Node)
    ensures n in ChildList(tree, p) <==> n in tree && n.depth != 0 && n.parentId == p
  {
    if tree != [] {
      assert tree == tree[..|tree| - 1] + [tree[|tree| - 1]];
      ChildListElements(tree[..|tree| - 1], p, n);
    }
  }

  ghost predicate UniqueIds(tree: seq<Node>) {
    forall a, b :: a in tree && b in tree && a.id == b.id ==> a == b
  }

  /** Depths as the store computes them: each node below the root sits one below its parent. */
  ghost predicate DepthsConsistent(tree: seq<Node>, maxDepth: nat) {
    forall n :: n in tree ==>
      && 0 <= n.depth <= maxDepth
      && (n.depth != 0 ==> exists p :: p in tree && p.id == n.parentId && p.depth + 1 == n.depth)
  }

  function DepthMap(tree: seq<Node>): map<string, int> {
    if tree == [] then map[] else DepthMap(tree[..|tree| - 1])[tree[|tree| - 1].id := tree[|tree| - 1].depth]
  }

  lemma {:induction false} DepthMapHolds(tree: seq<Node>)
    requires UniqueIds(tree)
    ensures forall n :: n in tree ==> n.id in DepthMap(tree) && DepthMap(tree)[n.id] == n.depth
    ensures forall id :: id in DepthMap(tree) ==> exists n :: n in tree && n.id == id
  {
    if tree != [] {
      assert tree == tree[..|tree| - 1] + [tree[|tree| - 1]];
      DepthMapHolds(tree[..|tree| - 1]);
    }
  }

  /** So on a tree with unique IDs and consistent depths every connector access is in range. */
  lemma {:induction false} ConsistentTreeFits(tree: seq<Node>, maxDepth: nat, children: Children,
                                              universe: set<string>, root: Node)
    requires UniqueIds(tree) && DepthsConsistent(tree, maxDepth) && root in tree && root.depth == 0
    requires forall p :: Kids(children, p) == ChildList(tree, p)
    requires root.id in universe && Below(children) <= universe
    ensures !Overflows(children, maxDepth, Render(children, universe, maxDepth, root, [], true, {}).lines)
  {
    DepthMapHolds(tree);
    var depthOf: map<string, nat> := map id | id in DepthMap(tree) :: DepthMap(tree)[id];
    forall id, n | n in Kids(children, id)
      ensures id in depthOf && n.id in depthOf && depthOf[n.id] == depthOf[id] + 1 && depthOf[n.id] <= maxDepth
    {
      ChildListElements(tree, id, n);
      var p :| p in tree && p.id == n.parentId && p.depth + 1 == n.depth;
    }
    GradedFits(children, universe, maxDepth, root, depthOf);
  }

  class TreeRenderer {
    var seen: set<string>
    var activeConnectors: array<bool>
    const maxDepth: nat
    var output: seq<Line>

    ghost predicate Valid()
      reads this, activeConnectors
    {
      activeConnectors.Length == maxDepth + 1 && !activeConnectors[0]
    }

    constructor (maxDepth: nat)
      ensures Valid() && fresh(activeConnectors) && this.maxDepth == maxDepth && seen == {} && output == []
    {
      seen, output := {}, [];
      this.maxDepth := maxDepth;
      activeConnectors := new bool[maxDepth + 1](_ => false);
    }

    /** renderNode. `ok` is false when an index into activeConnectors is out of range, which in Go ends the
        program. Columns at or beyond `depth` may hold anything: they never show. */
    method RenderNode(node: Node, children: Children, depth: nat, isLast: bool,
                      ghost universe: set<string>, ghost bars: seq<bool>)
      returns (ok: bool)
      requires Valid() && node.id in universe && Below(children) <= universe
      requires |bars| == depth <= maxDepth + 1 && bars == activeConnectors[..depth]
      modifies this`seen, this`output, activeConnectors
      ensures Valid() && activeConnectors == old(activeConnectors)
      ensures ok ==> bars == activeConnectors[..depth]
      ensures ghost var r := Render(children, universe, maxDepth, node, bars, isLast, old(seen));
              && (ok <==> !Overflows(children, maxDepth, r.lines))
              && (ok ==> output == old(output) + r.lines && seen == r.seen)
      decreases universe - seen, 1
    {
      var prefix := activeConnectors[..depth];
      if node.id in seen {
        output := output + [ShownAbove(node.id, prefix, isLast)];
        return true;
      }
      seen := seen + {node.id};
      var kids := Kids(children, node.id);
      var line := Full(node.id, prefix, isLast, node.truncated || (depth == maxDepth && |kids| > 0));
      output := output + [line];
      ok := RenderChildren(kids, children, depth, node.id, universe, bars);
      ghost var rest := RenderKids(children, universe, maxDepth, node.id, 0, bars, old(seen) + {node.id});
      OverflowsCons(children, maxDepth, line, rest.lines);
    }

    /** Lines 768 to 776. */
    method RenderChildren(kids: seq<Node>, children: Children, depth: nat, ghost id: string,
                          ghost universe: set<string>, ghost bars: seq<bool>)
      returns (ok: bool)
      requires Valid() && Below(children) <= universe && kids == Kids(children, id)
      requires |bars| == depth <= maxDepth + 1 && bars == activeConnectors[..depth]
      modifies this`seen, this`output, activeConnectors
      ensures Valid() && activeConnectors == old(activeConnectors)
      ensures ok ==> bars == activeConnectors[..depth]
      ensures ghost var r := RenderKids(children, universe, maxDepth, id, 0, bars, old(seen));
              && (ok <==> (kids != [] ==> depth <= maxDepth) && !Overflows(children, maxDepth, r.lines))
              && (ok ==> output == old(output) + r.lines && seen == r.seen)
      decreases universe - seen, 3
    {
      ghost var all := RenderKids(children, universe, maxDepth, id, 0, bars, seen);
      ghost var printed: seq<Line> := [];
      for i := 0 to |kids|
        invariant Valid() && activeConnectors == old(activeConnectors)
        invariant bars == activeConnectors[..depth]
        invariant old(seen) <= seen
        invariant output == old(output) + printed
        invariant !Overflows(children, maxDepth, printed)
        invariant i > 0 ==> depth <= maxDepth
        invariant all.lines == printed + RenderKids(children, universe, maxDepth, id, i, bars, seen).lines
        invariant all.seen == RenderKids(children, universe, maxDepth, id, i, bars, seen).seen
      {
        ghost var first := Render(children, universe, maxDepth, kids[i], bars + [Bar(depth, i, |kids|)],
            i + 1 == |kids|, seen);
        ghost var rest := RenderKids(children, universe, maxDepth, id, i + 1, bars, first.seen);
        ok := RenderChild(kids, i, children, depth, id, universe, bars);
        assert all.lines == printed + first.lines + rest.lines;
        if !ok {
          if depth <= maxDepth { OverflowsInside(children, maxDepth, printed, first.lines, rest.lines); }
          return false;
        }
        OverflowsJoin(children, maxDepth, printed, first.lines);
        printed := printed + first.lines;
      }
      return true;
    }

    /** Lines 769 to 776, for one child. */
    method RenderChild(kids: seq<Node>, i: nat, children: Children, depth: nat, ghost id: string,
                       ghost universe: set<string>, ghost bars: seq<bool>)
      returns (ok: bool)
      requires Valid() && Below(children) <= universe
      requires kids == Kids(children, id) && i < |kids|
      requires |bars| == depth <= maxDepth + 1 && bars == activeConnectors[..depth]
      modifies this`seen, this`output, activeConnectors
      ensures Valid() && activeConnectors == old(activeConnectors)
      ensures ok ==> bars == activeConnectors[..depth]
      ensures ghost var r := Render(children, universe, maxDepth, kids[i], bars + [Bar(depth, i, |kids|)],
                i + 1 == |kids|, old(seen));
              && (ok <==> depth <= maxDepth && !Overflows(children, maxDepth, r.lines))
              && (ok ==> output == old(output) + r.lines && seen == r.seen)
      decreases universe - seen, 2
    {
      if depth > 0 {
        if depth >= activeConnectors.Length { return false; }
        activeConnectors[depth] := i < |kids| - 1;
      }
      ghost var childBars := bars + [Bar(depth, i, |kids|)];
      assert activeConnectors[..depth + 1] == childBars;
      ok := RenderNode(kids[i], children, depth + 1, i == |kids| - 1, universe, childBars);
      assert activeConnectors[..depth + 1][..depth] == activeConnectors[..depth];
    }

    /** renderTree. An empty tree prints nothing. */
    method RenderTree(tree: seq<Node>) returns (ok: bool, ghost children: Children, ghost root: Node)
      requires Valid() && seen == {} && output == []
      modifies this, activeConnectors
      ensures tree == [] ==> ok && output == []
      ensures tree != [] ==> IsRoot(tree, root) && forall p :: Kids(children, p) == ChildList(tree, p)
      ensures tree != [] ==>
                ghost var r := Render(children, {root.id} + Below(children), maxDepth, root, [], true, {});
                (ok <==> !Overflows(children, maxDepth, r.lines)) && (ok ==> output == r.lines)
      ensures tree != [] ==> (ok <==> !TooDeep(children, maxDepth, root.id))
      ensures tree != [] && ok ==> NodeStands(children, maxDepth, root, [], output)
    {
      if |tree| == 0 {
        children, root := map[], Node("", "", 0, "", false);
        return true, children, root;
      }
      var lists, start := ListChildren(tree);
      children, root := lists, start;
      ok := RenderNode(start, lists, 0, true, {start.id} + Below(lists), []);
      OverflowsExactly(lists, {start.id} + Below(lists), maxDepth, start);
      RenderStands(lists, {start.id} + Below(lists), maxDepth, start, [], start, [], true, {});
    }
  }

  /** The last node of depth 0 among the first `n`, if there is one. */
  ghost predicate LastTop(tree: seq<Node>, n: nat, found: Option<Node>) {
    n <= |tree| &&
    match found
    case None => forall j :: 0 <= j < n ==> tree[j].depth != 0
    case Some(x) =>
      exists k :: 0 <= k < n && tree[k] == x && x.depth == 0 && forall j :: k < j < n ==> tree[j].depth != 0
  }

  lemma LastTopMore(tree: seq<Node>, n: nat, found: Option<Node>)
    requires n < |tree| && LastTop(tree, n, found)
    ensures LastTop(tree, n + 1, if tree[n].depth == 0 then Some(tree[n]) else found)
  {
  }

  lemma LastTopIsRoot(tree: seq<Node>, found: Option<Node>)
    requires tree != [] && LastTop(tree, |tree|, found)
    ensures IsRoot(tree, if found.Some? then found.value else tree[0])
  {
    assert found.Some? ==> found.value in tree;
  }

  lemma ListedMore(tree: seq<Node>, n: nat, children: Children)
    requires n < |tree| && forall p :: Kids(children, p) == ChildList(tree[..n], p)
    ensures var node := tree[n];
            var more := if node.depth == 0 then children
                        else children[node.parentId := Kids(children, node.parentId) + [node]];
            forall p :: Kids(more, p) == ChildList(tree[..n + 1], p)
  {
    assert tree[..n + 1] == tree[..n] + [tree[n]];
    forall p ensures ChildList(tree[..n + 1], p) == ChildList(tree[..n], p) + One(tree[n], p) {
      ChildListAppend(tree[..n], tree[n], p);
    }
  }

  /** Lines 703 to 718: the children of each ID, and the root. */
  method ListChildren(tree: seq<Node>) returns (children: Children, root: Node)
    requires tree != []
    ensures IsRoot(tree, root) && forall p :: Kids(children, p) == ChildList(tree, p)
  {
    children := map[];
    var found: Option<Node> := None;
    for i := 0 to |tree|
      invariant forall p :: Kids(children, p) == ChildList(tree[..i], p)
      invariant LastTop(tree, i, found)
    {
      var node := tree[i];
      ListedMore(tree, i, children);
      LastTopMore(tree, i, found);
      if node.depth == 0 {
        found := Some(node);
      } else {
        children := children[node.parentId := Kids(children, node.parentId) + [node]];
      }
    }
    assert tree[..|tree|] == tree;
    LastTopIsRoot(tree, found);
    root := if found.Some? then found.value else tree[0];
  }

  lemma OverflowsInside(children: Children, maxDepth: nat, a: seq<Line>, b: seq<Line>, c: seq<Line>)
    requires Overflows(children, maxDepth, b)
    ensures Overflows(children, maxDepth, a + b + c)
  {
    var k :| 0 <= k < |b| && b[k].Full? && |b[k].bars| > maxDepth && Kids(children, b[k].id) != [];
    assert (a + b + c)[|a| + k] == b[k];
  }

  lemma OverflowsCons(children: Children, maxDepth: nat, line: Line, rest: seq<Line>)
    requires line.Full?
    ensures Overflows(children, maxDepth, [line] + rest) <==>
            (|line.bars| > maxDepth && Kids(children, line.id) != []) || Overflows(children, maxDepth, rest)
  {
    assert ([line] + rest)[0] == line;
    if Overflows(children, maxDepth, rest) {
      OverflowsInside(children, maxDepth, [line], rest, []);
      assert [line] + rest + [] == [line] + rest;
    }
    OverflowsJoin(children, maxDepth, [line], rest);
  }

  lemma OverflowsJoin(children: Children, maxDepth: nat, a: seq<Line>, b: seq<Line>)
    ensures Overflows(children, maxDepth, a + b) ==>
              Overflows(children, maxDepth, a) || Overflows(children, maxDepth, b)
  {
    if Overflows(children, maxDepth, a + b) {
      var k :| 0 <= k < |a + b| && (a + b)[k].Full? && |(a + b)[k].bars| > maxDepth &&
          Kids(children, (a + b)[k].id) != [];
      if k < |a| { assert a[k] == (a + b)[k]; } else { assert b[k - |a|] == (a + b)[k]; }
    }
  }
}
