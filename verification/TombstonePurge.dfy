/** The two ways cmd/binds/compact_tombstone.go thins out issues.jsonl, from the already parsed list. */
module TombstonePurge {
  import opened Order

  datatype Dependency = Dependency(dependsOnId: string, kind: string)

  /** `deletedAt` is in nanoseconds. */
  datatype Issue = Issue(id: string, status: string, deletedAt: Option<int>, dependencies: seq<Dependency>)

  datatype PurgeResult = PurgeResult(before: nat, deleted: nat, kept: nat, depsRemoved: nat,
                                     deletedIds: seq<string>, keptIds: seq<string>)

  // Specification. Everything is keyed by ID, as the code's maps are.

  predicate Tombstone(i: Issue) {
    i.deletedAt.Some?
  }

  predicate Open(i: Issue) {
    i.deletedAt.None? && i.status == "open"
  }

  function Ids(issues: seq<Issue>): set<string> {
    set i | i in issues :: i.id
  }

  function TombstoneIds(issues: seq<Issue>): set<string> {
    set i | i in issues && Tombstone(i) :: i.id
  }

  function OpenIds(issues: seq<Issue>): set<string> {
    set i | i in issues && Open(i) :: i.id
  }

  /** Live issues of any status but open, in the code's words the closed ones. */
  function ClosedIds(issues: seq<Issue>): set<string> {
    set i | i in issues && !Tombstone(i) && !Open(i) :: i.id
  }

  predicate Mentions(deps: seq<Dependency>, id: string) {
    exists d :: d in deps && d.dependsOnId == id
  }

  predicate DependsOn(i: Issue, id: string) {
    Mentions(i.dependencies, id)
  }

  /** An open issue depends on `id`; dependencies on the empty ID are not looked at. */
  predicate Needed(issues: seq<Issue>, id: string) {
    id != "" && exists i :: i in issues && i.id in OpenIds(issues) && DependsOn(i, id)
  }

  function Safe(issues: seq<Issue>): set<string> {
    set id | id in TombstoneIds(issues) && !Needed(issues, id)
  }

  function CleanDeps(deps: seq<Dependency>, removed: set<string>): seq<Dependency> {
    if deps == [] then []
    else
      var rest, last := CleanDeps(deps[..|deps| - 1], removed), deps[|deps| - 1];
      if last.dependsOnId in removed then rest else rest + [last]
  }

  function Clean(i: Issue, removed: set<string>): Issue {
    i.(dependencies := CleanDeps(i.dependencies, removed))
  }

  /** The list without the issues of `removed` and without dependencies on them. */
  function Without(issues: seq<Issue>, removed: set<string>): seq<Issue> {
    if issues == [] then []
    else
      var rest, last := Without(issues[..|issues| - 1], removed), issues[|issues| - 1];
      if last.id in removed then rest else rest + [Clean(last, removed)]
  }

  function Purged(issues: seq<Issue>): seq<Issue> {
    Without(issues, Safe(issues))
  }

  // What the purge promises.

  ghost predicate UniqueIds(issues: seq<Issue>) {
    forall i, j :: 0 <= i < j < |issues| ==> issues[i].id != issues[j].id
  }

  /** Removing `removed` costs no open issue a dependency. */
  ghost predicate CostsNothing(issues: seq<Issue>, removed: set<string>) {
    forall i, d :: i in issues && i.deletedAt.None? && i.status == "open" && d in i.dependencies ==>
      d.dependsOnId !in removed
  }

  /** Cleaning drops the dependencies on removed IDs and keeps the others where they stand. */
  lemma {:induction false} CleanDepsAt(deps: seq<Dependency>, removed: set<string>) returns (at: seq<nat>)
    ensures Positions(at, |deps|) && |at| == |CleanDeps(deps, removed)|
    ensures forall i :: i in at <==> 0 <= i < |deps| && deps[i].dependsOnId !in removed
    ensures forall j :: 0 <= j < |at| ==> CleanDeps(deps, removed)[j] == deps[at[j]]
  {
    at := [];
    if deps != [] {
      var n := |deps| - 1;
      at := CleanDepsAt(deps[..n], removed);
      MorePositions(at, n);
      if deps[n].dependsOnId !in removed { at := at + [n]; }
    }
  }

  /** Issues of other IDs stay in order, each with nothing changed but its cleaned dependencies. */
  lemma {:induction false} WithoutAt(issues: seq<Issue>, removed: set<string>) returns (at: seq<nat>)
    ensures Positions(at, |issues|) && |at| == |Without(issues, removed)|
    ensures forall i :: i in at <==> 0 <= i < |issues| && issues[i].id !in removed
    ensures forall j :: 0 <= j < |at| ==> CleanedFrom(Without(issues, removed)[j], issues[at[j]], removed)
  {
    at := [];
    if issues != [] {
      var n := |issues| - 1;
      at := WithoutAt(issues[..n], removed);
      MorePositions(at, n);
      if issues[n].id !in removed { at := at + [n]; }
    }
  }

  ghost predicate CleanedFrom(x: Issue, i: Issue, removed: set<string>) {
    && x.id == i.id && x.status == i.status && x.deletedAt == i.deletedAt
    && x.dependencies == CleanDeps(i.dependencies, removed)
  }

  lemma {:induction false} CleanDepsElements(deps: seq<Dependency>, removed: set<string>)
    ensures forall d :: d in CleanDeps(deps, removed) <==> d in deps && d.dependsOnId !in removed
    ensures (forall d :: d in deps ==> d.dependsOnId !in removed) ==> CleanDeps(deps, removed) == deps
  {
    if deps != [] {
      assert deps == deps[..|deps| - 1] + [deps[|deps| - 1]];
      CleanDepsElements(deps[..|deps| - 1], removed);
    }
  }

  lemma {:induction false} WithoutElements(issues: seq<Issue>, removed: set<string>)
    ensures forall x :: x in Without(issues, removed) <==>
              exists i :: i in issues && i.id !in removed && x == Clean(i, removed)
  {
    if issues != [] {
      var front, last := issues[..|issues| - 1], issues[|issues| - 1];
      assert issues == front + [last];
      WithoutElements(front, removed);
      forall x
        ensures x in Without(issues, removed) <==> exists i :: i in issues && i.id !in removed && x == Clean(i, removed)
      {
        if i :| i in front && i.id !in removed && x == Clean(i, removed) { assert i in issues; }
        if last.id !in removed && x == Clean(last, removed) { assert last in issues; }
      }
    }
  }

  /** With unique IDs an ID is of one kind only. */
  lemma KindsAreDisjoint(issues: seq<Issue>)
    requires UniqueIds(issues)
    ensures OpenIds(issues) !! TombstoneIds(issues) && OpenIds(issues) !! ClosedIds(issues)
    ensures TombstoneIds(issues) !! ClosedIds(issues)
    ensures forall i :: i in issues ==> (i.id in OpenIds(issues) <==> Open(i))
    ensures forall i :: i in issues ==> (i.id in TombstoneIds(issues) <==> Tombstone(i))
  {
    forall i, j | i in issues && j in issues && i.id == j.id ensures i == j {
      var a :| 0 <= a < |issues| && issues[a] == i;
      var b :| 0 <= b < |issues| && issues[b] == j;
    }
  }

  /** Safe: no open issue loses a dependency, provided no tombstone has the empty ID. */
  lemma PurgeCostsNothing(issues: seq<Issue>)
    ensures CostsNothing(issues, Safe(issues)) <==>
            ("" in TombstoneIds(issues) ==> forall i :: i in issues && Open(i) ==> !DependsOn(i, ""))
  {
    forall i, d | i in issues && Open(i) && d in i.dependencies
      ensures d.dependsOnId in Safe(issues) <==> d.dependsOnId == "" && "" in TombstoneIds(issues)
    {
      assert i.id in OpenIds(issues) && DependsOn(i, d.dependsOnId);
    }
  }

  /** It does happen: a tombstone of empty ID goes although an open issue depends on it. */
  lemma EmptyTombstoneIsTaken()
    ensures var issues := [Issue("", "tombstone", Some(0), []), Issue("o", "open", None, [Dependency("", "blocks")])];
            "" in Safe(issues) && !CostsNothing(issues, Safe(issues))
  {
    var o := Issue("o", "open", None, [Dependency("", "blocks")]);
    var issues := [Issue("", "tombstone", Some(0), []), o];
    assert issues[0] in issues && o in issues;
    assert Dependency("", "blocks") in o.dependencies;
  }

  /** No remaining dependency points at a removed tombstone, and every other one remains. */
  lemma PurgeLeavesNoDanglers(issues: seq<Issue>)
    ensures forall x, d :: x in Purged(issues) && d in x.dependencies ==> d.dependsOnId !in Safe(issues)
    ensures forall i, d | i in issues && d in i.dependencies && i.id !in Safe(issues) && d.dependsOnId !in Safe(issues)
              :: d in Clean(i, Safe(issues)).dependencies && Clean(i, Safe(issues)) in Purged(issues)
  {
    WithoutElements(issues, Safe(issues));
    forall i
      ensures forall d :: d in Clean(i, Safe(issues)).dependencies <==>
                d in i.dependencies && d.dependsOnId !in Safe(issues)
    {
      CleanDepsElements(i.dependencies, Safe(issues));
    }
  }

  /** Maximal: any set of tombstones whose removal costs nothing is among the removed ones. */
  lemma PurgeIsMaximal(issues: seq<Issue>, removed: set<string>)
    requires UniqueIds(issues)
    requires removed <= TombstoneIds(issues) && CostsNothing(issues, removed)
    ensures removed <= Safe(issues)
  {
    KindsAreDisjoint(issues);
    assert forall id :: id in removed ==> !Needed(issues, id);
  }

  function LiveIds(issues: seq<Issue>): seq<string> {
    if issues == [] then []
    else LiveIds(issues[..|issues| - 1]) + if Tombstone(issues[|issues| - 1]) then [] else [issues[|issues| - 1].id]
  }

  lemma {:induction false} WithoutLive(issues: seq<Issue>, removed: set<string>)
    ensures (forall i :: i in issues && !Tombstone(i) ==> i.id !in removed) ==>
              LiveIds(Without(issues, removed)) == LiveIds(issues)
    ensures |LiveIds(Without(issues, removed))| <= |LiveIds(issues)|
    ensures (exists i :: i in issues && !Tombstone(i) && i.id in removed) ==>
              |LiveIds(Without(issues, removed))| < |LiveIds(issues)|
  {
    if issues != [] {
      var front, last := issues[..|issues| - 1], issues[|issues| - 1];
      assert issues == front + [last];
      WithoutLive(front, removed);
      var w := Without(front, removed);
      if last.id !in removed {
        assert Without(issues, removed) == w + [Clean(last, removed)];
        assert (w + [Clean(last, removed)])[..|w|] == w;
      } else {
        assert Without(issues, removed) == w;
      }
    }
  }

  /** Conservation: the live issues all stay, in order, exactly when no live issue shares the ID of a
      removed tombstone; unique IDs see to that. */
  lemma LiveIssuesStay(issues: seq<Issue>)
    ensures LiveIds(Purged(issues)) == LiveIds(issues) <==>
            forall i :: i in issues && !Tombstone(i) ==> i.id !in Safe(issues)
    ensures UniqueIds(issues) ==> LiveIds(Purged(issues)) == LiveIds(issues)
  {
    WithoutLive(issues, Safe(issues));
    if UniqueIds(issues) { KindsAreDisjoint(issues); }
  }

  lemma PurgedIds(issues: seq<Issue>)
    ensures TombstoneIds(Purged(issues)) == TombstoneIds(issues) - Safe(issues)
    ensures OpenIds(Purged(issues)) == OpenIds(issues) - Safe(issues)
  {
    var removed := Safe(issues);
    WithoutElements(issues, removed);
    forall i | i in issues && i.id !in removed
      ensures Clean(i, removed) in Purged(issues) && Clean(i, removed).id == i.id
    {
    }
  }

  /** Idempotent: a second purge finds nothing to delete and rewrites the same list. */
  lemma PurgeIsIdempotent(issues: seq<Issue>)
    requires UniqueIds(issues)
    ensures Safe(Purged(issues)) == {} && Purged(Purged(issues)) == Purged(issues)
  {
    var removed, p := Safe(issues), Purged(issues);
    PurgedIds(issues);
    KindsAreDisjoint(issues);
    WithoutElements(issues, removed);
    forall id | id in TombstoneIds(p) ensures Needed(p, id) {
      var i :| i in issues && i.id in OpenIds(issues) && DependsOn(i, id);
      var d :| d in i.dependencies && d.dependsOnId == id;
      CleanDepsElements(i.dependencies, removed);
      assert d in Clean(i, removed).dependencies;
      assert Clean(i, removed) in p && DependsOn(Clean(i, removed), id);
    }
    WithoutNothing(p);
  }

  lemma {:induction false} WithoutNothing(issues: seq<Issue>)
    ensures Without(issues, {}) == issues
  {
    if issues != [] {
      var last := issues[|issues| - 1];
      assert issues == issues[..|issues| - 1] + [last];
      CleanDepsElements(last.dependencies, {});
      WithoutNothing(issues[..|issues| - 1]);
    }
  }

  // The reported number of removed dependencies.

  /** How many dependencies point into `targets`. */
  function Into(deps: seq<Dependency>, targets: set<string>): nat {
    if deps == [] then 0
    else Into(deps[..|deps| - 1], targets) + if deps[|deps| - 1].dependsOnId in targets then 1 else 0
  }

  lemma {:induction false} IntoAt(deps: seq<Dependency>, targets: set<string>) returns (at: seq<nat>)
    ensures Positions(at, |deps|) && |at| == Into(deps, targets)
    ensures forall i :: i in at <==> 0 <= i < |deps| && deps[i].dependsOnId in targets
  {
    at := [];
    if deps != [] {
      var n := |deps| - 1;
      at := IntoAt(deps[..n], targets);
      MorePositions(at, n);
      if deps[n].dependsOnId in targets { at := at + [n]; }
    }
  }

  /** How many dependencies of the issues of `sources` point into `targets`. */
  function Links(issues: seq<Issue>, sources: set<string>, targets: set<string>): nat {
    if issues == [] then 0
    else Links(issues[..|issues| - 1], sources, targets)
         + if issues[|issues| - 1].id in sources then Into(issues[|issues| - 1].dependencies, targets) else 0
  }

  function DepCount(issues: seq<Issue>, sources: set<string>): nat {
    if issues == [] then 0
    else DepCount(issues[..|issues| - 1], sources)
         + if issues[|issues| - 1].id in sources then |issues[|issues| - 1].dependencies| else 0
  }

  lemma {:induction false} IntoSplits(deps: seq<Dependency>, a: set<string>, b: set<string>)
    requires a !! b
    ensures Into(deps, a + b) == Into(deps, a) + Into(deps, b)
  {
    if deps != [] { IntoSplits(deps[..|deps| - 1], a, b); }
  }

  lemma {:induction false} LinksSplit(issues: seq<Issue>, s: set<string>, t: set<string>, a: set<string>,
                                      b: set<string>)
    requires s !! t && a !! b
    ensures Links(issues, s + t, a) == Links(issues, s, a) + Links(issues, t, a)
    ensures Links(issues, s, a + b) == Links(issues, s, a) + Links(issues, s, b)
  {
    if issues != [] {
      LinksSplit(issues[..|issues| - 1], s, t, a, b);
      IntoSplits(issues[|issues| - 1].dependencies, a, b);
    }
  }

  lemma {:induction false} CleanDepsCount(deps: seq<Dependency>, removed: set<string>)
    ensures |deps| == |CleanDeps(deps, removed)| + Into(deps, removed)
  {
    if deps != [] { CleanDepsCount(deps[..|deps| - 1], removed); }
  }

  /** The dependencies that actually disappear from the issues that stay. */
  lemma {:induction false} WithoutCount(issues: seq<Issue>, removed: set<string>, stay: set<string>)
    requires Ids(issues) - removed <= stay && stay !! removed
    ensures DepCount(issues, stay) == DepCount(Without(issues, removed), stay) + Links(issues, stay, removed)
  {
    if issues != [] {
      var front, last := issues[..|issues| - 1], issues[|issues| - 1];
      assert issues == front + [last];
      var w := Without(front, removed);
      assert last in issues && forall i :: i in front ==> i in issues;
      WithoutCount(front, removed, stay);
      CleanDepsCount(last.dependencies, removed);
      if last.id !in removed {
        assert Without(issues, removed) == w + [Clean(last, removed)];
        assert (w + [Clean(last, removed)])[..|w|] == w;
      } else {
        assert Without(issues, removed) == w;
      }
    }
  }

  lemma {:induction false} LinksNone(issues: seq<Issue>, sources: set<string>, targets: set<string>)
    requires forall i, d :: i in issues && i.id in sources && d in i.dependencies ==> d.dependsOnId !in targets
    ensures Links(issues, sources, targets) == 0
  {
    if issues != [] {
      var last := issues[|issues| - 1];
      assert issues == issues[..|issues| - 1] + [last];
      LinksNone(issues[..|issues| - 1], sources, targets);
      CleanDepsElements(last.dependencies, targets);
      CleanDepsCount(last.dependencies, targets);
    }
  }

  /** The reported count against the dependencies that actually go: it adds those of closed issues on
      tombstones that stay, and misses those of staying tombstones on removed ones. */
  lemma DepsRemovedBalance(issues: seq<Issue>)
    requires UniqueIds(issues) && "" !in Ids(issues)
    ensures var stay := Ids(issues) - Safe(issues);
            var keptTombstones := TombstoneIds(issues) - Safe(issues);
            var actual := DepCount(issues, stay) - DepCount(Purged(issues), stay);
            (Links(issues, ClosedIds(issues), TombstoneIds(issues)) + Links(issues, keptTombstones, Safe(issues))
             == actual + Links(issues, ClosedIds(issues), keptTombstones))
  {
    var safe, closed, open := Safe(issues), ClosedIds(issues), OpenIds(issues);
    var keptTombstones, stay := TombstoneIds(issues) - safe, Ids(issues) - safe;
    KindsAreDisjoint(issues);
    WithoutCount(issues, safe, stay);
    PurgeCostsNothing(issues);
    assert "" !in TombstoneIds(issues);
    LinksNone(issues, open, safe);
    assert stay == closed + open + keptTombstones;
    LinksSplit(issues, closed + open, keptTombstones, safe, {});
    LinksSplit(issues, closed, open, safe, keptTombstones);
    assert TombstoneIds(issues) == safe + keptTombstones;
  }

  /** So the reported count is right if and only if closed issues have as many dependencies on tombstones that
      stay as those have on tombstones that go. */
  lemma DepsRemovedRightIff(issues: seq<Issue>)
    requires UniqueIds(issues) && "" !in Ids(issues)
    ensures var stay := Ids(issues) - Safe(issues);
            var keptTombstones := TombstoneIds(issues) - Safe(issues);
            (Links(issues, ClosedIds(issues), TombstoneIds(issues))
             == DepCount(issues, stay) - DepCount(Purged(issues), stay))
            <==> Links(issues, ClosedIds(issues), keptTombstones) == Links(issues, keptTombstones, Safe(issues))
  {
    DepsRemovedBalance(issues);
  }

  /** It does go wrong: a closed issue depends on a tombstone that an open issue keeps. Nothing is removed, and
      one dependency is reported. */
  lemma DepsRemovedOvercounts()
    ensures var t, o, c := Issue("t", "tombstone", Some(0), []), Issue("o", "open", None, [Dependency("t", "blocks")]),
                           Issue("c", "closed", None, [Dependency("t", "blocks")]);
            var issues := [t, o, c];
            && Safe(issues) == {} && Purged(issues) == issues
            && Links(issues, ClosedIds(issues), TombstoneIds(issues)) == 1
  {
    var d := Dependency("t", "blocks");
    var t, o, c := Issue("t", "tombstone", Some(0), []), Issue("o", "open", None, [d]), Issue("c", "closed", None, [d]);
    var issues := [t, o, c];
    assert issues[0] == t && issues[1] == o && issues[2] == c;
    assert t in issues && o in issues && c in issues;
    assert TombstoneIds(issues) == {"t"} && OpenIds(issues) == {"o"} && ClosedIds(issues) == {"c"};
    assert d in o.dependencies && DependsOn(o, "t") && Needed(issues, "t");
    WithoutNothing(issues);
    OneLink(t, o, c, d);
  }

  lemma OneLink(t: Issue, o: Issue, c: Issue, d: Dependency)
    requires t.id != "c" && o.id != "c" && c.id == "c" && c.dependencies == [d] && d.dependsOnId == "t"
    ensures Links([t, o, c], {"c"}, {"t"}) == 1
  {
    assert [t, o] + [c] == [t, o, c] && [t] + [o] == [t, o] && [] + [t] == [t];
    LinksAppend([], t, {"c"}, {"t"});
    LinksAppend([t], o, {"c"}, {"t"});
    LinksAppend([t, o], c, {"c"}, {"t"});
    assert [d][..0] == [] && Into([d][..0], {"t"}) == 0;
  }

  lemma LinksAppend(issues: seq<Issue>, i: Issue, sources: set<string>, targets: set<string>)
    ensures Links(issues + [i], sources, targets)
         == Links(issues, sources, targets) + if i.id in sources then Into(i.dependencies, targets) else 0
  {
    assert (issues + [i])[..|issues|] == issues;
  }

  // The code.

  /** Lines 316 to 402. `rewritten` is the list written back, or None in a dry run. */
  method Purge(issues: seq<Issue>, dryRun: bool) returns (result: PurgeResult, rewritten: Option<seq<Issue>>)
    ensures rewritten == if dryRun then None else Some(Purged(issues))
    ensures forall id :: id in result.deletedIds <==> id in Safe(issues)
    ensures forall id :: id in result.keptIds <==> id in TombstoneIds(issues) - Safe(issues)
    ensures Distinct(result.deletedIds) && Distinct(result.keptIds)
    ensures result.deleted == |result.deletedIds| && result.kept == |result.keptIds|
    ensures result.before == |TombstoneIds(issues)| == result.deleted + result.kept
    ensures result.depsRemoved == Links(issues, ClosedIds(issues), TombstoneIds(issues))
  {
    var tombstones, liveOpen, liveClosed := Classify(issues);
    var depsToTombstone := ReverseDependencies(issues);
    var safe := FindSafe(issues, tombstones, liveOpen, depsToTombstone);
    var deletedIds, keptIds := Split(tombstones, safe);
    var depsRemoved := 0;
    for k := 0 to |issues|
      invariant depsRemoved == Links(issues[..k], liveClosed, tombstones)
    {
      assert issues[..k + 1][..k] == issues[..k];
      if issues[k].id in liveClosed {
        var n := CountInto(issues[k].dependencies, tombstones);
        depsRemoved := depsRemoved + n;
      }
    }
    assert issues[..|issues|] == issues;
    result := PurgeResult(|tombstones|, |deletedIds|, |keptIds|, depsRemoved, deletedIds, keptIds);
    if dryRun { return result, None; }
    var kept := [];
    for k := 0 to |issues|
      invariant kept == Without(issues[..k], safe)
    {
      assert issues[..k + 1][..k] == issues[..k];
      if issues[k].id in safe { continue; }
      var cleanDeps := CleanList(issues[k].dependencies, safe);
      kept := kept + [issues[k].(dependencies := cleanDeps)];
    }
    return result, Some(kept);
  }

  method Classify(issues: seq<Issue>) returns (tombstones: set<string>, liveOpen: set<string>, liveClosed: set<string>)
    ensures tombstones == TombstoneIds(issues) && liveOpen == OpenIds(issues) && liveClosed == ClosedIds(issues)
  {
    tombstones, liveOpen, liveClosed := {}, {}, {};
    for k := 0 to |issues|
      invariant tombstones == TombstoneIds(issues[..k])
      invariant liveOpen == OpenIds(issues[..k])
      invariant liveClosed == ClosedIds(issues[..k])
    {
      var issue := issues[k];
      assert issues[..k + 1] == issues[..k] + [issue];
      if issue.deletedAt.Some? {
        tombstones := tombstones + {issue.id};
      } else if issue.status == "open" {
        liveOpen := liveOpen + {issue.id};
      } else {
        liveClosed := liveClosed + {issue.id};
      }
    }
    assert issues[..|issues|] == issues;
  }

  function At(m: map<string, seq<string>>, id: string): seq<string> {
    if id in m then m[id] else []
  }

  /** `who` is the ID of an issue that depends on `id`. */
  ghost predicate Dependent(issues: seq<Issue>, id: string, who: string) {
    id != "" && exists i :: i in issues && i.id == who && DependsOn(i, id)
  }

  method ReverseDependencies(issues: seq<Issue>) returns (m: map<string, seq<string>>)
    ensures forall id, who :: who in At(m, id) <==> Dependent(issues, id, who)
  {
    m := map[];
    for k := 0 to |issues|
      invariant forall id, who :: who in At(m, id) <==> Dependent(issues[..k], id, who)
    {
      var issue := issues[k];
      m := AddDependencies(m, issue);
      forall id, who ensures Dependent(issues[..k + 1], id, who) <==>
                            Dependent(issues[..k], id, who) || (id != "" && who == issue.id && DependsOn(issue, id)) {
        assert issues[..k + 1] == issues[..k] + [issue];
      }
    }
    assert issues[..|issues|] == issues;
  }

  method AddDependencies(m0: map<string, seq<string>>, issue: Issue) returns (m: map<string, seq<string>>)
    ensures forall id, who :: who in At(m, id) <==>
              who in At(m0, id) || (id != "" && who == issue.id && DependsOn(issue, id))
  {
    m := m0;
    var deps := issue.dependencies;
    for k := 0 to |deps|
      invariant forall id, who :: who in At(m, id) <==>
                  who in At(m0, id) || (id != "" && who == issue.id && Mentions(deps[..k], id))
    {
      var on := deps[k].dependsOnId;
      forall id ensures Mentions(deps[..k + 1], id) <==> Mentions(deps[..k], id) || id == on {
        assert deps[..k + 1] == deps[..k] + [deps[k]];
        assert deps[k] in deps[..k + 1];
      }
      ghost var was := m;
      if on != "" { m := m[on := At(m, on) + [issue.id]]; }
      assert forall id, who :: who in At(m, id) <==> who in At(was, id) || (id != "" && id == on && who == issue.id);
    }
    assert deps[..|deps|] == deps;
  }

  /** Lines 345 to 358, the tombstones taken in any order. */
  method FindSafe(ghost issues: seq<Issue>, tombstones: set<string>, liveOpen: set<string>,
                  depsToTombstone: map<string, seq<string>>)
    returns (safe: set<string>)
    requires tombstones == TombstoneIds(issues) && liveOpen == OpenIds(issues)
    requires forall id, who :: who in At(depsToTombstone, id) <==> Dependent(issues, id, who)
    ensures safe == Safe(issues)
  {
    safe := {};
    var rest := tombstones;
    while rest != {}
      invariant rest <= tombstones
      invariant forall id :: id in safe <==> id in tombstones && id !in rest && !Needed(issues, id)
      decreases rest
    {
      var id :| id in rest;
      rest := rest - {id};
      var dependents := At(depsToTombstone, id);
      var hasOpenDep := false;
      for k := 0 to |dependents|
        invariant !hasOpenDep && forall j :: 0 <= j < k ==> dependents[j] !in liveOpen
      {
        if dependents[k] in liveOpen {
          hasOpenDep := true;
          assert dependents[k] in At(depsToTombstone, id);
          break;
        }
      }
      assert hasOpenDep <==> exists who :: who in dependents && who in liveOpen;
      assert Needed(issues, id) <==> exists who :: Dependent(issues, id, who) && who in liveOpen by {
        if Needed(issues, id) {
          var i :| i in issues && i.id in OpenIds(issues) && DependsOn(i, id);
          assert Dependent(issues, id, i.id);
        }
      }
      if !hasOpenDep { safe := safe + {id}; }
    }
  }

  /** Lines 361 to 369. */
  method Split(tombstones: set<string>, safe: set<string>) returns (deletedIds: seq<string>, keptIds: seq<string>)
    requires safe <= tombstones
    ensures forall id :: id in deletedIds <==> id in safe
    ensures forall id :: id in keptIds <==> id in tombstones - safe
    ensures Distinct(deletedIds) && Distinct(keptIds)
    ensures |deletedIds| + |keptIds| == |tombstones|
  {
    deletedIds, keptIds := [], [];
    var rest := tombstones;
    while rest != {}
      invariant rest <= tombstones
      invariant forall id :: id in deletedIds <==> id in safe && id !in rest
      invariant forall id :: id in keptIds <==> id in tombstones - safe && id !in rest
      invariant Distinct(deletedIds) && Distinct(keptIds)
      invariant |deletedIds| + |keptIds| + |rest| == |tombstones|
      decreases rest
    {
      var id :| id in rest;
      rest := rest - {id};
      if id in safe { deletedIds := deletedIds + [id]; } else { keptIds := keptIds + [id]; }
    }
  }

  method CountInto(deps: seq<Dependency>, targets: set<string>) returns (n: nat)
    ensures n == Into(deps, targets)
  {
    n := 0;
    for k := 0 to |deps|
      invariant n == Into(deps[..k], targets)
    {
      assert deps[..k + 1][..k] == deps[..k];
      if deps[k].dependsOnId in targets { n := n + 1; }
    }
    assert deps[..|deps|] == deps;
  }

  method CleanList(deps: seq<Dependency>, removed: set<string>) returns (clean: seq<Dependency>)
    ensures clean == CleanDeps(deps, removed)
  {
    clean := [];
    for k := 0 to |deps|
      invariant clean == CleanDeps(deps[..k], removed)
    {
      assert deps[..k + 1][..k] == deps[..k];
      if deps[k].dependsOnId !in removed { clean := clean + [deps[k]]; }
    }
    assert deps[..|deps|] == deps;
  }

  // pruneExpiredTombstones.

  const HOUR := 3600 * 1000000000
  const DEFAULT_TTL := 30 * 24 * HOUR
  const CLOCK_SKEW_GRACE := HOUR

  /** The TTL a request for `customTTL` gets: zero and negative values mean the default. */
  function EffectiveTTL(customTTL: int): int {
    var ttl := if customTTL > 0 then customTTL else DEFAULT_TTL;
    if ttl > CLOCK_SKEW_GRACE then ttl + CLOCK_SKEW_GRACE else ttl
  }

  predicate Expired(i: Issue, now: int, customTTL: int) {
    i.status == "tombstone" && i.deletedAt.Some? && now > i.deletedAt.value + EffectiveTTL(customTTL)
  }

  function Unexpired(issues: seq<Issue>, now: int, customTTL: int): seq<Issue> {
    if issues == [] then []
    else
      var rest, last := Unexpired(issues[..|issues| - 1], now, customTTL), issues[|issues| - 1];
      if Expired(last, now, customTTL) then rest else rest + [last]
  }

  /** In nanoseconds: a tombstone with a deletion time expires after 30 days and an hour by default, and otherwise
      after the given time, with the hour added only if that is longer than an hour. */
  lemma ExpiredExactly(i: Issue, now: int, customTTL: int)
    ensures Expired(i, now, customTTL) <==>
            && i.status == "tombstone" && i.deletedAt.Some?
            && var age := now - i.deletedAt.value;
               || (customTTL <= 0 && age > 2_595_600_000_000_000)
               || (0 < customTTL <= 3_600_000_000_000 && age > customTTL)
               || (customTTL > 3_600_000_000_000 && age > customTTL + 3_600_000_000_000)
  {
  }

  function ExpiredIds(issues: seq<Issue>, now: int, customTTL: int): seq<string> {
    if issues == [] then []
    else
      var rest, last := ExpiredIds(issues[..|issues| - 1], now, customTTL), issues[|issues| - 1];
      if Expired(last, now, customTTL) then rest + [last.id] else rest
  }

  /** What has expired goes by ID, in list order. */
  lemma {:induction false} ExpiredIdsAt(issues: seq<Issue>, now: int, customTTL: int) returns (at: seq<nat>)
    ensures Positions(at, |issues|) && |at| == |ExpiredIds(issues, now, customTTL)|
    ensures forall i :: i in at <==> 0 <= i < |issues| && Expired(issues[i], now, customTTL)
    ensures forall j :: 0 <= j < |at| ==> ExpiredIds(issues, now, customTTL)[j] == issues[at[j]].id
  {
    at := [];
    if issues != [] {
      var n := |issues| - 1;
      at := ExpiredIdsAt(issues[..n], now, customTTL);
      MorePositions(at, n);
      if Expired(issues[n], now, customTTL) { at := at + [n]; }
    }
  }

  /** The rest stays unchanged, in list order. */
  lemma {:induction false} UnexpiredAt(issues: seq<Issue>, now: int, customTTL: int) returns (at: seq<nat>)
    ensures Positions(at, |issues|) && |at| == |Unexpired(issues, now, customTTL)|
    ensures forall i :: i in at <==> 0 <= i < |issues| && !Expired(issues[i], now, customTTL)
    ensures forall j :: 0 <= j < |at| ==> Unexpired(issues, now, customTTL)[j] == issues[at[j]]
  {
    at := [];
    if issues != [] {
      var n := |issues| - 1;
      at := UnexpiredAt(issues[..n], now, customTTL);
      MorePositions(at, n);
      if !Expired(issues[n], now, customTTL) { at := at + [n]; }
    }
  }

  /** Lines 64 to 73. */
  method Prune(issues: seq<Issue>, now: int, customTTL: int) returns (kept: seq<Issue>, prunedIds: seq<string>)
    ensures kept == Unexpired(issues, now, customTTL) && prunedIds == ExpiredIds(issues, now, customTTL)
    ensures |kept| + |prunedIds| == |issues|
    ensures forall id :: id in prunedIds <==> exists i :: i in issues && i.id == id && Expired(i, now, customTTL)
  {
    kept, prunedIds := [], [];
    for k := 0 to |issues|
      invariant kept == Unexpired(issues[..k], now, customTTL)
      invariant prunedIds == ExpiredIds(issues[..k], now, customTTL)
      invariant |kept| + |prunedIds| == k
      invariant forall id :: id in prunedIds <==>
                  exists i :: i in issues[..k] && i.id == id && Expired(i, now, customTTL)
    {
      var issue := issues[k];
      assert issues[..k + 1][..k] == issues[..k] && issues[..k + 1] == issues[..k] + [issue];
      if Expired(issue, now, customTTL) { prunedIds := prunedIds + [issue.id]; } else { kept := kept + [issue]; }
    }
    assert issues[..|issues|] == issues;
  }

  /** Pruning earlier, or with a longer TTL, and then again amounts to the later pruning alone. */
  lemma {:induction false} PruningComposes(issues: seq<Issue>, first: int, ttl1: int, second: int, ttl2: int)
    requires first <= second && (if ttl2 > 0 then ttl2 else DEFAULT_TTL) <= (if ttl1 > 0 then ttl1 else DEFAULT_TTL)
    ensures Unexpired(Unexpired(issues, first, ttl1), second, ttl2) == Unexpired(issues, second, ttl2)
  {
    if issues != [] {
      var last, u := issues[|issues| - 1], Unexpired(issues[..|issues| - 1], first, ttl1);
      PruningComposes(issues[..|issues| - 1], first, ttl1, second, ttl2);
      assert EffectiveTTL(ttl2) <= EffectiveTTL(ttl1);
      if !Expired(last, first, ttl1) {
        assert Unexpired(issues, first, ttl1) == u + [last];
        assert (u + [last])[..|u + [last]| - 1] == u;
      } else {
        assert Unexpired(issues, first, ttl1) == u;
      }
    }
  }
}
