/** Duplicate detection and auto-merge of cmd/binds/duplicates.go. */
module Duplicates {
  import opened Order

  const CLOSED := "closed"
  const TOMBSTONE := "tombstone"

  datatype Issue = Issue(id: string, title: string, description: string, design: string, acceptance: string,
      status: string)

  datatype Key = Key(title: string, description: string, design: string, acceptance: string, status: string)

  /** What GetDependencyCounts reports of an issue. */
  datatype Score = Score(dependents: nat, dependsOn: nat)

  /** The scores a run works with: structural counts and text references. */
  datatype Ranking = Ranking(structural: map<string, Score>, refs: map<string, nat>)

  /** Source, target of a "related" dependency. */
  datatype Link = Link(source: string, target: string)

  function KeyOf(i: Issue): Key {
    Key(i.title, i.description, i.design, i.acceptance, i.status)
  }

  /** The issues of a key, in list order. */
  function WithKey(issues: seq<Issue>, k: Key): seq<Issue> {
    if issues == [] then []
    else WithKey(issues[..|issues| - 1], k) + if KeyOf(issues[|issues| - 1]) == k then [issues[|issues| - 1]] else []
  }

  /** Only the five fields decide. */
  lemma SameKeyIff(i: Issue, j: Issue)
    ensures KeyOf(i) == KeyOf(j) <==>
            && i.title == j.title && i.description == j.description && i.design == j.design
            && i.acceptance == j.acceptance && i.status == j.status
    ensures KeyOf(i) == Key(i.title, i.description, i.design, i.acceptance, i.status)
  {
  }

  lemma {:induction false} WithKeyAt(issues: seq<Issue>, k: Key) returns (at: seq<nat>)
    ensures Positions(at, |issues|) && |at| == |WithKey(issues, k)|
    ensures forall i :: i in at <==> 0 <= i < |issues| && KeyOf(issues[i]) == k
    ensures forall j :: 0 <= j < |at| ==> WithKey(issues, k)[j] == issues[at[j]]
  {
    at := [];
    if issues != [] {
      var n := |issues| - 1;
      at := WithKeyAt(issues[..n], k);
      MorePositions(at, n);
      if KeyOf(issues[n]) == k { at := at + [n]; }
    }
  }

  lemma {:induction false} WithKeyElements(issues: seq<Issue>, k: Key)
    ensures forall i :: i in WithKey(issues, k) <==> i in issues && KeyOf(i) == k
    ensures Distinct(issues) ==> Distinct(WithKey(issues, k))
  {
    if issues != [] {
      var front, last := issues[..|issues| - 1], issues[|issues| - 1];
      assert issues == front + [last];
      WithKeyElements(front, k);
      assert Distinct(issues) ==> Distinct(front) && last !in front;
    }
  }

  // Ranking.

  function Weight(r: Ranking, id: string): nat {
    if id in r.structural then r.structural[id].dependents + r.structural[id].dependsOn else 0
  }

  function Refs(r: Ranking, id: string): nat {
    if id in r.refs then r.refs[id] else 0
  }

  /** The order targets are chosen by: more weight, then more references, then the smaller ID. */
  predicate Beats(r: Ranking, a: Issue, b: Issue) {
    if Weight(r, a.id) != Weight(r, b.id) then Weight(r, a.id) > Weight(r, b.id)
    else if Refs(r, a.id) != Refs(r, b.id) then Refs(r, a.id) > Refs(r, b.id)
    else Less(a.id, b.id)
  }

  /** In plain fields: the sum of both counts, then the text references, then the order of the IDs at their first
      difference. An issue without an entry counts as 0. */
  lemma BeatsExactly(r: Ranking, a: Issue, b: Issue)
    ensures var wa := if a.id in r.structural then r.structural[a.id].dependents + r.structural[a.id].dependsOn else 0;
            var wb := if b.id in r.structural then r.structural[b.id].dependents + r.structural[b.id].dependsOn else 0;
            var ra, rb := if a.id in r.refs then r.refs[a.id] else 0, if b.id in r.refs then r.refs[b.id] else 0;
            Beats(r, a, b) <==>
              wa > wb || (wa == wb && (ra > rb || (ra == rb && exists i: nat :: Differ(a.id, b.id, i))))
  {
    LessExactly(a.id, b.id);
  }

  /** `t` beats every other issue of the group. */
  ghost predicate Best(r: Ranking, group: seq<Issue>, t: Issue) {
    t in group && forall x :: x in group && x.id != t.id ==> Beats(r, t, x)
  }

  lemma BeatsIsStrict(r: Ranking, a: Issue, b: Issue)
    ensures !(Beats(r, a, b) && Beats(r, b, a))
    ensures a.id != b.id ==> Beats(r, a, b) || Beats(r, b, a)
    ensures a.id == b.id ==> !Beats(r, a, b)
  {
    LessTrichotomy(a.id, b.id);
  }

  lemma {:induction false} BeatsTransitive(r: Ranking, a: Issue, b: Issue, c: Issue)
    requires Beats(r, a, b) && Beats(r, b, c)
    ensures Beats(r, a, c)
  {
    if Weight(r, a.id) == Weight(r, b.id) == Weight(r, c.id) && Refs(r, a.id) == Refs(r, b.id) == Refs(r, c.id) {
      LessTransitive(a.id, b.id, c.id);
    }
  }

  /** The best issue depends on the members of the group only, not on their order. */
  lemma {:induction false} BestIsUnique(r: Ranking, g: seq<Issue>, h: seq<Issue>, a: Issue, b: Issue)
    requires Best(r, g, a) && Best(r, h, b) && forall x :: x in g <==> x in h
    ensures a.id == b.id
  {
    BeatsIsStrict(r, a, b);
  }

  /** chooseMergeTarget; None for an empty group. */
  method ChooseMergeTarget(group: seq<Issue>, r: Ranking) returns (target: Option<Issue>)
    ensures target.None? <==> group == []
    ensures target.Some? ==> Best(r, group, target.value)
  {
    if |group| == 0 { return None; }
    var best := group[0];
    for k := 1 to |group|
      invariant best in group[..k]
      invariant forall x :: x in group[..k] && x.id != best.id ==> Beats(r, best, x)
    {
      var issue := group[k];
      assert group[..k + 1] == group[..k] + [issue];
      BeatsIsStrict(r, issue, best);
      if Weight(r, issue.id) > Weight(r, best.id) {
        NewBest(r, group[..k], best, issue);
        best := issue;
        continue;
      }
      if Weight(r, issue.id) < Weight(r, best.id) { continue; }
      if Refs(r, issue.id) > Refs(r, best.id) {
        NewBest(r, group[..k], best, issue);
        best := issue;
        continue;
      }
      if Refs(r, issue.id) < Refs(r, best.id) { continue; }
      if Less(issue.id, best.id) {
        NewBest(r, group[..k], best, issue);
        best := issue;
      }
    }
    assert group[..|group|] == group;
    return Some(best);
  }

  lemma {:induction false} NewBest(r: Ranking, seen: seq<Issue>, best: Issue, issue: Issue)
    requires Best(r, seen, best) && Beats(r, issue, best)
    ensures forall x :: x in seen ==> Beats(r, issue, x)
  {
    forall x | x in seen ensures Beats(r, issue, x) {
      if x.id != best.id { BeatsTransitive(r, issue, best, x); }
    }
  }

  // Grouping.

  /** `groups` are, each once and in some order, the keys' issue lists of more than one issue. */
  ghost predicate DuplicateGroups(issues: seq<Issue>, groups: seq<seq<Issue>>) {
    && Distinct(groups)
    && (forall g :: g in groups ==> |g| > 1 && g == WithKey(issues, KeyOf(g[0])))
    && (forall k :: |WithKey(issues, k)| > 1 ==> WithKey(issues, k) in groups)
  }

  function At(m: map<Key, seq<Issue>>, k: Key): seq<Issue> {
    if k in m then m[k] else []
  }

  /** findDuplicateGroups; the map of groups is walked in any order. */
  method FindDuplicateGroups(issues: seq<Issue>) returns (duplicates: seq<seq<Issue>>)
    ensures DuplicateGroups(issues, duplicates)
  {
    var groups: map<Key, seq<Issue>> := map[];
    for i := 0 to |issues|
      invariant forall k :: At(groups, k) == WithKey(issues[..i], k)
    {
      assert issues[..i + 1][..i] == issues[..i];
      var key := KeyOf(issues[i]);
      groups := groups[key := At(groups, key) + [issues[i]]];
    }
    assert issues[..|issues|] == issues;
    duplicates := [];
    var rest := groups.Keys;
    while rest != {}
      invariant rest <= groups.Keys
      invariant Distinct(duplicates)
      invariant forall g :: g in duplicates ==> |g| > 1 && g == WithKey(issues, KeyOf(g[0])) && KeyOf(g[0]) !in rest
      invariant forall k :: |WithKey(issues, k)| > 1 && k !in rest ==> WithKey(issues, k) in duplicates
      decreases rest
    {
      var key :| key in rest;
      rest := rest - {key};
      assert groups[key] == WithKey(issues, key);
      if |groups[key]| > 1 {
        WithKeyElements(issues, key);
        assert groups[key][0] in groups[key];
        duplicates := duplicates + [groups[key]];
      }
    }
    forall k | |WithKey(issues, k)| > 1
      ensures WithKey(issues, k) in duplicates
    {
      assert At(groups, k) == WithKey(issues, k);
    }
  }

  // The merge.

  /** Issues the merge looks at: the search leaves out tombstones, and the command drops closed ones. */
  predicate Candidate(i: Issue) {
    i.status != CLOSED && i.status != TOMBSTONE
  }

  function Closing(issues: map<string, Issue>, ids: set<string>): map<string, Issue> {
    map id | id in issues :: if id in ids then issues[id].(status := CLOSED) else issues[id]
  }

  ghost predicate Keyed(issues: map<string, Issue>) {
    forall id :: id in issues ==> issues[id].id == id
  }

  /** `i` is a candidate beaten by a candidate of the same key. */
  ghost predicate Loses(issues: map<string, Issue>, r: Ranking, i: Issue) {
    && Candidate(i)
    && exists id :: id in issues && Candidate(issues[id]) && KeyOf(issues[id]) == KeyOf(i) && Beats(r, issues[id], i)
  }

  /** Spelled out: neither closed nor a tombstone, and beaten by a stored issue with the same five fields. */
  lemma LosesExactly(issues: map<string, Issue>, r: Ranking, i: Issue)
    ensures Loses(issues, r, i) <==>
            && i.status != "closed" && i.status != "tombstone"
            && exists id ::
                 && id in issues && issues[id].title == i.title && issues[id].description == i.description
                 && issues[id].design == i.design && issues[id].acceptance == i.acceptance
                 && issues[id].status == i.status && Beats(r, issues[id], i)
  {
    forall id | id in issues { SameKeyIff(issues[id], i); }
  }

  /** Closing sets the status of the given issues and nothing else. */
  lemma ClosingExactly(issues: map<string, Issue>, ids: set<string>, id: string)
    requires id in issues
    ensures Closing(issues, ids).Keys == issues.Keys
    ensures var i, c := issues[id], Closing(issues, ids)[id];
            && c.id == i.id && c.title == i.title && c.description == i.description && c.design == i.design
            && c.acceptance == i.acceptance && c.status == if id in ids then "closed" else i.status
  {
  }

  ghost function Losers(issues: map<string, Issue>, r: Ranking): set<string> {
    set id | id in issues && Loses(issues, r, issues[id])
  }

  function Kept(ids: seq<string>, out: set<string>): seq<string> {
    if ids == [] then []
    else
      var rest, last := Kept(ids[..|ids| - 1], out), ids[|ids| - 1];
      if last in out then rest else rest + [last]
  }

  function LinksTo(ids: seq<string>, target: string): seq<Link> {
    if ids == [] then [] else LinksTo(ids[..|ids| - 1], target) + [Link(ids[|ids| - 1], target)]
  }

  /** Kept keeps what is not in `out`, in list order. */
  lemma {:induction false} KeptAt(ids: seq<string>, out: set<string>) returns (at: seq<nat>)
    ensures Positions(at, |ids|) && |at| == |Kept(ids, out)|
    ensures forall i :: i in at <==> 0 <= i < |ids| && ids[i] !in out
    ensures forall j :: 0 <= j < |at| ==> Kept(ids, out)[j] == ids[at[j]]
  {
    at := [];
    if ids != [] {
      var n := |ids| - 1;
      at := KeptAt(ids[..n], out);
      MorePositions(at, n);
      if ids[n] !in out { at := at + [n]; }
    }
  }

  /** Closing the issues of a list one after the other. */
  function ClosingEach(issues: map<string, Issue>, ids: seq<string>): map<string, Issue> {
    if ids == [] then issues else Closing(ClosingEach(issues, ids[..|ids| - 1]), {ids[|ids| - 1]})
  }

  lemma {:induction false} ClosingEachIsClosing(issues: map<string, Issue>, ids: seq<string>)
    ensures ClosingEach(issues, ids) == Closing(issues, IdSet(ids))
  {
    if ids == [] {
      assert Closing(issues, {}) == issues;
    } else {
      var front, last := ids[..|ids| - 1], ids[|ids| - 1];
      assert ids == front + [last];
      ClosingEachIsClosing(issues, front);
      ClosingTwice(issues, IdSet(front), {last});
      assert IdSet(ids) == IdSet(front) + {last};
    }
  }

  lemma AppendOne(ids: seq<string>, id: string, issues: map<string, Issue>, target: string)
    ensures ClosingEach(issues, ids + [id]) == Closing(ClosingEach(issues, ids), {id})
    ensures LinksTo(ids + [id], target) == LinksTo(ids, target) + [Link(id, target)]
  {
    assert (ids + [id])[..|ids|] == ids;
  }

  /** The complement of Kept, in list order. */
  function Failing(ids: seq<string>, out: set<string>): seq<string> {
    if ids == [] then []
    else
      var rest, last := Failing(ids[..|ids| - 1], out), ids[|ids| - 1];
      if last in out then rest + [last] else rest
  }

  /** Failing keeps the rest, in list order. */
  lemma {:induction false} FailingAt(ids: seq<string>, out: set<string>) returns (at: seq<nat>)
    ensures Positions(at, |ids|) && |at| == |Failing(ids, out)|
    ensures forall i :: i in at <==> 0 <= i < |ids| && ids[i] in out
    ensures forall j :: 0 <= j < |at| ==> Failing(ids, out)[j] == ids[at[j]]
  {
    at := [];
    if ids != [] {
      var n := |ids| - 1;
      at := FailingAt(ids[..n], out);
      MorePositions(at, n);
      if ids[n] in out { at := at + [n]; }
    }
  }

  lemma Prefix(ids: seq<string>, i: nat, out: set<string>)
    requires i < |ids|
    ensures Kept(ids[..i + 1], out) == Kept(ids[..i], out) + if ids[i] in out then [] else [ids[i]]
    ensures Failing(ids[..i + 1], out) == Failing(ids[..i], out) + if ids[i] in out then [ids[i]] else []
  {
    assert ids[..i + 1][..i] == ids[..i];
  }

  /** Sources are linked or reported, none dropped and none twice: linked and errors partition them. */
  lemma {:induction false} KeptAndFailing(ids: seq<string>, out: set<string>)
    ensures multiset(Kept(ids, out)) + multiset(Failing(ids, out)) == multiset(ids)
    ensures |Kept(ids, out)| + |Failing(ids, out)| == |ids|
    ensures forall id :: id in Failing(ids, out) <==> id in ids && id in out
  {
    if ids != [] {
      assert ids == ids[..|ids| - 1] + [ids[|ids| - 1]];
      KeptAndFailing(ids[..|ids| - 1], out);
    }
  }

  /** The linked sources are the closed ones, in order, without those whose link failed. */
  lemma {:induction false} LinkedWithinClosed(ids: seq<string>, closeFails: set<string>, linkFails: set<string>)
    ensures Kept(Kept(ids, closeFails), linkFails) == Kept(ids, closeFails + linkFails)
  {
    if ids != [] {
      var front, last := ids[..|ids| - 1], ids[|ids| - 1];
      LinkedWithinClosed(front, closeFails, linkFails);
      var kept := Kept(front, closeFails);
      if last !in closeFails {
        assert Kept(ids, closeFails) == kept + [last] && (kept + [last])[..|kept|] == kept;
      } else {
        assert Kept(ids, closeFails) == kept;
      }
    }
  }

  lemma {:induction false} KeptDistinct(ids: seq<string>, out: set<string>)
    requires Distinct(ids)
    ensures Distinct(Kept(ids, out))
  {
    if ids != [] {
      var front, last := ids[..|ids| - 1], ids[|ids| - 1];
      assert ids == front + [last];
      KeptDistinct(front, out);
      KeptElements(front, out);
      assert last !in front;
    }
  }

  lemma {:induction false} LinksToAt(ids: seq<string>, target: string, i: nat)
    requires i < |ids|
    ensures |LinksTo(ids, target)| == |ids| && LinksTo(ids, target)[i] == Link(ids[i], target)
  {
    if |ids| > 1 { LinksToAt(ids[..|ids| - 1], target, if i == |ids| - 1 then 0 else i); }
  }

  lemma {:induction false} KeptElements(ids: seq<string>, out: set<string>)
    ensures forall id :: id in Kept(ids, out) <==> id in ids && id !in out
    ensures |Kept(ids, out)| <= |ids|
    ensures out == {} ==> Kept(ids, out) == ids
  {
    if ids != [] {
      assert ids == ids[..|ids| - 1] + [ids[|ids| - 1]];
      KeptElements(ids[..|ids| - 1], out);
    }
  }

  lemma ClosingTwice(issues: map<string, Issue>, a: set<string>, b: set<string>)
    ensures Closing(Closing(issues, a), b) == Closing(issues, a + b)
  {
  }

  function IdSet(ids: seq<string>): set<string> {
    set id | id in ids
  }

  /** The lists returned after merging the sources of a prefix. */
  ghost predicate Reported(ids: seq<string>, closeFails: set<string>, fails: set<string>,
                           closed: seq<string>, linked: seq<string>, errors: seq<string>) {
    closed == Kept(ids, closeFails) && linked == Kept(ids, fails) && errors == Failing(ids, fails)
  }

  lemma ReportedMore(ids: seq<string>, i: nat, closeFails: set<string>, fails: set<string>,
                     closed: seq<string>, linked: seq<string>, errors: seq<string>)
    requires i < |ids| && Reported(ids[..i], closeFails, fails, closed, linked, errors)
    ensures Reported(ids[..i + 1], closeFails, fails,
                     if ids[i] in closeFails then closed else closed + [ids[i]],
                     if ids[i] in fails then linked else linked + [ids[i]],
                     if ids[i] in fails then errors + [ids[i]] else errors)
  {
    Prefix(ids, i, closeFails);
    Prefix(ids, i, fails);
  }

  /** The store with the sources of one list closed and those of another linked. */
  ghost predicate Stored(target: string, closed: seq<string>, linked: seq<string>,
                         before: map<string, Issue>, now: map<string, Issue>, linksBefore: seq<Link>,
                         links: seq<Link>) {
    now == ClosingEach(before, closed) && links == linksBefore + LinksTo(linked, target)
  }

  lemma StoredMore(id: string, shut: bool, tied: bool, target: string, closed: seq<string>, linked: seq<string>,
                   before: map<string, Issue>, now: map<string, Issue>, linksBefore: seq<Link>, links: seq<Link>)
    requires Stored(target, closed, linked, before, now, linksBefore, links)
    ensures Stored(target, if shut then closed + [id] else closed, if tied then linked + [id] else linked,
                   before, if shut then Closing(now, {id}) else now,
                   linksBefore, links + if tied then [Link(id, target)] else [])
  {
    AppendOne(closed, id, before, target);
    AppendOne(linked, id, before, target);
    var made := LinksTo(linked, target);
    assert (linksBefore + made) + [Link(id, target)] == linksBefore + (made + [Link(id, target)]);
  }

  /** The IDs of a group other than the target's, in group order. */
  function OtherIds(group: seq<Issue>, target: string): seq<string> {
    if group == [] then []
    else
      var rest, last := OtherIds(group[..|group| - 1], target), group[|group| - 1];
      if last.id != target then rest + [last.id] else rest
  }

  lemma {:induction false} OtherIdsAt(group: seq<Issue>, target: string) returns (at: seq<nat>)
    ensures Positions(at, |group|) && |at| == |OtherIds(group, target)|
    ensures forall i :: i in at <==> 0 <= i < |group| && group[i].id != target
    ensures forall j :: 0 <= j < |at| ==> OtherIds(group, target)[j] == group[at[j]].id
  {
    at := [];
    if group != [] {
      var n := |group| - 1;
      at := OtherIdsAt(group[..n], target);
      MorePositions(at, n);
      if group[n].id != target { at := at + [n]; }
    }
  }

  /** Lines 76 to 81. */
  method SourcesOf(group: seq<Issue>, target: string) returns (sources: seq<string>)
    requires IdsDistinct(group)
    ensures Distinct(sources) && forall id :: id in sources <==> id != target && exists i :: i in group && i.id == id
    ensures sources == OtherIds(group, target)
  {
    sources := [];
    for k := 0 to |group|
      invariant Distinct(sources) && sources == OtherIds(group[..k], target)
      invariant forall id :: id in sources <==> id != target && exists i :: i in group[..k] && i.id == id
    {
      assert group[..k + 1] == group[..k] + [group[k]] && group[..k + 1][..k] == group[..k];
      NotYet(group, k);
      assert group[k].id !in sources;
      if group[k].id != target { sources := sources + [group[k].id]; }
    }
    assert group[..|group|] == group;
  }

  class Store {
    var issues: map<string, Issue>
    var links: seq<Link>

    /** Lines 368 to 386, for one source. */
    method MergeOne(targetId: string, sourceId: string, closeFails: set<string>, linkFails: set<string>)
      returns (closed: bool, linked: bool)
      requires sourceId in issues
      modifies this
      ensures closed == (sourceId !in closeFails) && linked == (closed && sourceId !in linkFails)
      ensures issues == if closed then Closing(old(issues), {sourceId}) else old(issues)
      ensures issues.Keys == old(issues.Keys)
      ensures links == old(links) + if linked then [Link(sourceId, targetId)] else []
    {
      if sourceId in closeFails { return false, false; }
      issues := issues[sourceId := issues[sourceId].(status := CLOSED)];
      if sourceId in linkFails { return true, false; }
      links := links + [Link(sourceId, targetId)];
      return true, true;
    }

    /** performMerge, with the sources whose close or link call fails. */
    method PerformMerge(targetId: string, sourceIds: seq<string>, closeFails: set<string>, linkFails: set<string>)
      returns (closed: seq<string>, linked: seq<string>, errors: seq<string>)
      requires forall id :: id in sourceIds ==> id in issues
      modifies this
      ensures closed == Kept(sourceIds, closeFails) && linked == Kept(sourceIds, closeFails + linkFails)
      ensures errors == Failing(sourceIds, closeFails + linkFails)
      ensures multiset(linked) + multiset(errors) == multiset(sourceIds)
      ensures linked == Kept(closed, linkFails)
      ensures issues == ClosingEach(old(issues), closed)
      ensures links == old(links) + LinksTo(linked, targetId)
    {
      closed, linked, errors := [], [], [];
      for i := 0 to |sourceIds|
        invariant issues.Keys == old(issues.Keys)
        invariant Reported(sourceIds[..i], closeFails, closeFails + linkFails, closed, linked, errors)
        invariant Stored(targetId, closed, linked, old(issues), issues, old(links), links)
      {
        ghost var before, linksBefore := issues, links;
        var wasClosed, wasLinked := MergeOne(targetId, sourceIds[i], closeFails, linkFails);
        ReportedMore(sourceIds, i, closeFails, closeFails + linkFails, closed, linked, errors);
        StoredMore(sourceIds[i], wasClosed, wasLinked, targetId, closed, linked, old(issues), before, old(links),
            linksBefore);
        if wasClosed { closed := closed + [sourceIds[i]]; }
        if wasLinked { linked := linked + [sourceIds[i]]; } else { errors := errors + [sourceIds[i]]; }
      }
      assert sourceIds[..|sourceIds|] == sourceIds;
      KeptAndFailing(sourceIds, closeFails + linkFails);
      LinkedWithinClosed(sourceIds, closeFails, linkFails);
    }

    /** The search, in whatever order the rows come, without tombstones; then lines 48 to 53. */
    method OpenIssues() returns (open: seq<Issue>)
      requires Keyed(issues)
      ensures Distinct(open) && forall i :: i in open <==> i.id in issues && issues[i.id] == i && Candidate(i)
    {
      open := [];
      var rest := issues.Keys;
      while rest != {}
        invariant rest <= issues.Keys && Distinct(open)
        invariant forall i :: i in open <==> i.id in issues && i.id !in rest && issues[i.id] == i && Candidate(i)
        decreases rest
      {
        var id :| id in rest;
        rest := rest - {id};
        if issues[id].status != TOMBSTONE && issues[id].status != CLOSED { open := open + [issues[id]]; }
      }
    }

    /** Lines 74 to 95: one group. */
    method MergeGroup(group: seq<Issue>, r: Ranking, closeFails: set<string>, linkFails: set<string>)
      returns (target: string, sources: seq<string>)
      requires group != [] && IdsDistinct(group) && forall i :: i in group ==> i.id in issues
      modifies this
      ensures exists t :: Best(r, group, t) && target == t.id
      ensures Distinct(sources) && sources == OtherIds(group, target)
      ensures forall id :: id in sources <==> id != target && exists i :: i in group && i.id == id
      ensures issues == Closing(old(issues), IdSet(sources) - closeFails)
      ensures links == old(links) + LinksTo(Kept(sources, closeFails + linkFails), target)
    {
      var chosen := ChooseMergeTarget(group, r);
      assert Best(r, group, chosen.value);
      target := chosen.value.id;
      sources := SourcesOf(group, target);
      forall id | id in sources ensures id in issues {
        var i :| i in group && i.id == id;
      }
      var closed, _, _ := PerformMerge(target, sources, closeFails, linkFails);
      KeptElements(sources, closeFails);
      ClosingEachIsClosing(old(issues), closed);
      assert IdSet(closed) == IdSet(sources) - closeFails;
    }

    /** duplicates --auto-merge: lines 42 to 97, with the closes and links that fail. */
    method AutoMerge(r: Ranking, closeFails: set<string>, linkFails: set<string>)
      requires Keyed(issues)
      modifies this
      ensures issues == Closing(old(issues), Losers(old(issues), r) - closeFails)
      ensures old(links) <= links
      ensures LinksMade(old(issues), r, Losers(old(issues), r) - (closeFails + linkFails), links[|old(links)|..])
    {
      var open := OpenIssues();
      var duplicates := FindDuplicateGroups(open);
      ghost var before := issues;
      MergeGroups(open, duplicates, r, closeFails, linkFails);
      AllLosersGrouped(before, r, open, duplicates);
    }

    /** The loop of lines 74 to 97. */
    method MergeGroups(ghost open: seq<Issue>, duplicates: seq<seq<Issue>>, r: Ranking, closeFails: set<string>,
                       linkFails: set<string>)
      requires Keyed(issues) && Lists(open, issues) && DuplicateGroups(open, duplicates)
      modifies this
      ensures old(links) <= links
      ensures Progress(old(issues), r, closeFails, linkFails, LosersAmong(old(issues), r, duplicates), issues,
                links[|old(links)|..])
    {
      ghost var before := issues;
      NoProgress(before, r, closeFails, linkFails);
      for k := 0 to |duplicates|
        invariant old(links) <= links
        invariant Progress(before, r, closeFails, linkFails, LosersAmong(before, r, duplicates[..k]), issues,
                    links[|old(links)|..])
      {
        ghost var prev, added := links, links[|old(links)|..];
        MergeNext(before, open, duplicates, k, r, closeFails, linkFails, added);
        assert links[|old(links)|..] == added + links[|prev|..];
      }
      assert duplicates[..|duplicates|] == duplicates;
    }

    method MergeNext(ghost before: map<string, Issue>, ghost open: seq<Issue>, duplicates: seq<seq<Issue>>, k: nat,
                     r: Ranking,
                     closeFails: set<string>, linkFails: set<string>, ghost added: seq<Link>)
      requires Keyed(before) && Lists(open, before) && DuplicateGroups(open, duplicates) && k < |duplicates|
      requires Progress(before, r, closeFails, linkFails, LosersAmong(before, r, duplicates[..k]), issues, added)
      modifies this
      ensures old(links) <= links
      ensures Progress(before, r, closeFails, linkFails, LosersAmong(before, r, duplicates[..k + 1]), issues,
                added + links[|old(links)|..])
    {
      GroupIsStored(before, open, duplicates, k);
      var target, sources := MergeGroup(duplicates[k], r, closeFails, linkFails);
      ghost var more := ProgressMore(before, r, open, duplicates, k, closeFails, linkFails, target, sources, added);
      assert links[|old(links)|..] == LinksTo(Kept(sources, closeFails + linkFails), target);
    }
  }

  lemma NoProgress(issues: map<string, Issue>, r: Ranking, closeFails: set<string>, linkFails: set<string>)
    ensures Progress(issues, r, closeFails, linkFails, {}, issues, [])
  {
    assert Closing(issues, {}) == issues;
  }

  /** The losers that are members of a group. */
  ghost function LosersIn(issues: map<string, Issue>, r: Ranking, group: seq<Issue>): set<string> {
    set i | i in group && Loses(issues, r, i) :: i.id
  }

  ghost function LosersAmong(issues: map<string, Issue>, r: Ranking, groups: seq<seq<Issue>>): set<string> {
    if groups == [] then {}
    else LosersAmong(issues, r, groups[..|groups| - 1]) + LosersIn(issues, r, groups[|groups| - 1])
  }

  lemma GroupIsStored(issues: map<string, Issue>, open: seq<Issue>, duplicates: seq<seq<Issue>>, k: nat)
    requires Lists(open, issues) && DuplicateGroups(open, duplicates) && k < |duplicates|
    ensures var g := duplicates[k];
            && g != [] && g == WithKey(open, KeyOf(g[0])) && IdsDistinct(g)
            && forall i :: i in g ==> i.id in issues && issues[i.id] == i
  {
    var g := duplicates[k];
    assert g in duplicates;
    WithKeyElements(open, KeyOf(g[0]));
    forall i, j | 0 <= i < j < |g| ensures g[i].id != g[j].id {
      assert g[i] in g && g[j] in g && g[i] != g[j];
    }
  }

  lemma {:induction false} LoserIsAmong(issues: map<string, Issue>, r: Ranking, groups: seq<seq<Issue>>,
                                        id: string)
    returns (g: seq<Issue>)
    requires id in LosersAmong(issues, r, groups)
    ensures g in groups && id in LosersIn(issues, r, g)
  {
    var last := groups[|groups| - 1];
    if id in LosersIn(issues, r, last) { g := last; } else { g := LoserIsAmong(issues, r, groups[..|groups| - 1], id); }
  }

  /** No issue loses in two groups. */
  lemma GroupsApart(issues: map<string, Issue>, r: Ranking, open: seq<Issue>, duplicates: seq<seq<Issue>>, k: nat)
    requires Lists(open, issues) && DuplicateGroups(open, duplicates) && k < |duplicates|
    ensures LosersAmong(issues, r, duplicates[..k]) !! LosersIn(issues, r, duplicates[k])
  {
    forall id | id in LosersAmong(issues, r, duplicates[..k]) ensures id !in LosersIn(issues, r, duplicates[k]) {
      var g := LoserIsAmong(issues, r, duplicates[..k], id);
      var j :| 0 <= j < k && duplicates[j] == g;
      if id in LosersIn(issues, r, duplicates[k]) {
        var x :| x in g && x.id == id;
        var y :| y in duplicates[k] && y.id == id;
        SameGroup(issues, open, duplicates, j, k, x, y);
      }
    }
  }

  lemma SameGroup(issues: map<string, Issue>, open: seq<Issue>, duplicates: seq<seq<Issue>>, j: nat, k: nat, x: Issue,
                  y: Issue)
    requires Lists(open, issues) && DuplicateGroups(open, duplicates) && j < |duplicates| && k < |duplicates|
    requires x in duplicates[j] && y in duplicates[k] && x.id == y.id
    ensures j == k
  {
    GroupIsStored(issues, open, duplicates, j);
    GroupIsStored(issues, open, duplicates, k);
    WithKeyElements(open, KeyOf(duplicates[j][0]));
    WithKeyElements(open, KeyOf(duplicates[k][0]));
    assert x == y && duplicates[j] == WithKey(open, KeyOf(x)) && duplicates[k] == WithKey(open, KeyOf(x));
  }

  lemma {:induction false} LosersAmongElements(issues: map<string, Issue>, r: Ranking, groups: seq<seq<Issue>>,
                                               g: seq<Issue>)
    requires g in groups
    ensures LosersIn(issues, r, g) <= LosersAmong(issues, r, groups)
  {
    assert groups == groups[..|groups| - 1] + [groups[|groups| - 1]];
    if g in groups[..|groups| - 1] { LosersAmongElements(issues, r, groups[..|groups| - 1], g); }
  }

  lemma {:induction false} LosersAmongBounded(issues: map<string, Issue>, r: Ranking, groups: seq<seq<Issue>>)
    requires forall g, i :: g in groups && i in g ==> i.id in issues && issues[i.id] == i
    ensures LosersAmong(issues, r, groups) <= Losers(issues, r)
  {
    if groups != [] {
      assert groups == groups[..|groups| - 1] + [groups[|groups| - 1]];
      LosersAmongBounded(issues, r, groups[..|groups| - 1]);
    }
  }

  /** `open` lists the candidates of the store. */
  ghost predicate Lists(open: seq<Issue>, issues: map<string, Issue>) {
    Distinct(open) && forall i :: i in open <==> i.id in issues && issues[i.id] == i && Candidate(i)
  }

  /** The sources of a group are exactly its losers. */
  lemma GroupLosers(issues: map<string, Issue>, r: Ranking, open: seq<Issue>, group: seq<Issue>, target: string,
                    sources: seq<string>)
    requires Keyed(issues) && Lists(open, issues)
    requires group != [] && group == WithKey(open, KeyOf(group[0]))
    requires exists t :: Best(r, group, t) && target == t.id
    requires forall id :: id in sources <==> id != target && exists i :: i in group && i.id == id
    ensures IdSet(sources) == LosersIn(issues, r, group)
  {
    WithKeyElements(open, KeyOf(group[0]));
    var t :| Best(r, group, t) && target == t.id;
    forall i | i in group ensures Loses(issues, r, i) <==> i.id != target {
      if i.id != target { assert issues[t.id] == t && Beats(r, t, i); }
      if Loses(issues, r, i) {
        var w :| w in issues && Candidate(issues[w]) && KeyOf(issues[w]) == KeyOf(i) && Beats(r, issues[w], i);
        assert issues[w] in open && issues[w] in group;
        BeatsIsStrict(r, issues[w], i);
        BeatsIsStrict(r, issues[w], t);
      }
    }
  }

  /** `t` is the candidate of the key of `s` that no other beats. */
  ghost predicate TargetOf(issues: map<string, Issue>, r: Ranking, s: string, t: string) {
    && s in issues && t in issues && Candidate(issues[t]) && KeyOf(issues[t]) == KeyOf(issues[s])
    && !Loses(issues, r, issues[t])
  }

  ghost predicate Linked(links: seq<Link>, s: string) {
    exists l :: l in links && l.source == s
  }

  ghost predicate IdsDistinct(group: seq<Issue>) {
    forall i, j :: 0 <= i < j < |group| ==> group[i].id != group[j].id
  }

  lemma NotYet(group: seq<Issue>, k: nat)
    requires IdsDistinct(group) && k < |group|
    ensures forall i :: i in group[..k] ==> i.id != group[k].id
  {
  }

  /** The links go from the given sources, each once, to the best issue of their key. */
  ghost predicate LinksMade(issues: map<string, Issue>, r: Ranking, sources: set<string>, links: seq<Link>) {
    && (forall l :: l in links ==> l.source in sources && TargetOf(issues, r, l.source, l.target))
    && (forall s :: s in sources ==> Linked(links, s))
    && (forall i, j :: 0 <= i < j < |links| ==> links[i].source != links[j].source)
  }

  lemma LinksMadeJoin(issues: map<string, Issue>, r: Ranking, s: set<string>, a: seq<Link>, t: set<string>,
                      b: seq<Link>)
    requires LinksMade(issues, r, s, a) && LinksMade(issues, r, t, b) && s !! t
    ensures LinksMade(issues, r, s + t, a + b)
  {
    forall i, j | 0 <= i < j < |a + b| ensures (a + b)[i].source != (a + b)[j].source {
      if i < |a| <= j { assert a[i] in a && b[j - |a|] in b; }
    }
    forall id | id in s + t ensures Linked(a + b, id) {
      if id in s {
        var l :| l in a && l.source == id;
        assert l in a + b;
      } else {
        assert Linked(b, id);
        var l :| l in b && l.source == id;
        assert l in a + b;
      }
    }
  }

  /** How far the merge has come: the losers handled so far closed, unless that failed, and linked. */
  ghost predicate Progress(before: map<string, Issue>, r: Ranking, closeFails: set<string>, linkFails: set<string>,
                           done: set<string>, issues: map<string, Issue>, added: seq<Link>) {
    && issues == Closing(before, done - closeFails)
    && LinksMade(before, r, done - (closeFails + linkFails), added)
  }

  lemma {:induction false} LinksToElements(ids: seq<string>, target: string)
    ensures forall l :: l in LinksTo(ids, target) <==> l.source in ids && l.target == target
  {
    if ids != [] {
      assert ids == ids[..|ids| - 1] + [ids[|ids| - 1]];
      LinksToElements(ids[..|ids| - 1], target);
    }
  }

  lemma TargetOfGroup(issues: map<string, Issue>, r: Ranking, open: seq<Issue>, group: seq<Issue>, target: string,
                      i: Issue)
    requires Keyed(issues) && Lists(open, issues)
    requires group != [] && group == WithKey(open, KeyOf(group[0])) && i in group
    requires exists t :: Best(r, group, t) && target == t.id
    ensures TargetOf(issues, r, i.id, target)
  {
    WithKeyElements(open, KeyOf(group[0]));
    var t :| Best(r, group, t) && target == t.id;
    if Loses(issues, r, t) {
      var w :| w in issues && Candidate(issues[w]) && KeyOf(issues[w]) == KeyOf(t) && Beats(r, issues[w], t);
      assert issues[w] in open && issues[w] in group;
      BeatsIsStrict(r, issues[w], t);
    }
  }

  lemma GroupLinks(issues: map<string, Issue>, r: Ranking, open: seq<Issue>, group: seq<Issue>, target: string,
                   sources: seq<string>, fails: set<string>)
    requires Keyed(issues) && Lists(open, issues)
    requires group != [] && group == WithKey(open, KeyOf(group[0]))
    requires exists t :: Best(r, group, t) && target == t.id
    requires IdSet(sources) == LosersIn(issues, r, group) && Distinct(sources)
    ensures LinksMade(issues, r, LosersIn(issues, r, group) - fails, LinksTo(Kept(sources, fails), target))
  {
    var ids := Kept(sources, fails);
    var links := LinksTo(ids, target);
    KeptElements(sources, fails);
    LinksToElements(ids, target);
    forall l | l in links
      ensures l.source in LosersIn(issues, r, group) - fails && TargetOf(issues, r, l.source, l.target)
    {
      assert l.source in IdSet(sources);
      var i :| i in group && Loses(issues, r, i) && i.id == l.source;
      TargetOfGroup(issues, r, open, group, target, i);
    }
    forall s | s in LosersIn(issues, r, group) - fails ensures Linked(links, s) {
      assert s in IdSet(sources);
      assert Link(s, target) in links;
    }
    SourcesDistinct(sources, fails, target);
  }

  lemma SourcesDistinct(sources: seq<string>, fails: set<string>, target: string)
    requires Distinct(sources)
    ensures var links := LinksTo(Kept(sources, fails), target);
            forall i, j :: 0 <= i < j < |links| ==> links[i].source != links[j].source
  {
    var ids := Kept(sources, fails);
    KeptDistinct(sources, fails);
    var links := LinksTo(ids, target);
    forall i | 0 <= i < |ids| ensures |links| == |ids| && links[i].source == ids[i] { LinksToAt(ids, target, i); }
    assert ids == [] ==> links == [];
  }

  lemma ProgressMore(before: map<string, Issue>, r: Ranking, open: seq<Issue>, duplicates: seq<seq<Issue>>, k: nat,
                     closeFails: set<string>, linkFails: set<string>, target: string, sources: seq<string>,
                     added: seq<Link>)
    returns (more: seq<Link>)
    requires Keyed(before) && Lists(open, before) && DuplicateGroups(open, duplicates) && k < |duplicates|
    requires exists t :: Best(r, duplicates[k], t) && target == t.id
    requires forall id :: id in sources <==> id != target && exists i :: i in duplicates[k] && i.id == id
    requires Distinct(sources)
    requires var done := LosersAmong(before, r, duplicates[..k]);
             Progress(before, r, closeFails, linkFails, done, Closing(before, done - closeFails), added)
    ensures more == added + LinksTo(Kept(sources, closeFails + linkFails), target)
    ensures var done := LosersAmong(before, r, duplicates[..k]);
            Progress(before, r, closeFails, linkFails, LosersAmong(before, r, duplicates[..k + 1]),
                     Closing(Closing(before, done - closeFails), IdSet(sources) - closeFails), more)
  {
    var done, here := LosersAmong(before, r, duplicates[..k]), LosersIn(before, r, duplicates[k]);
    var made := LinksTo(Kept(sources, closeFails + linkFails), target);
    GroupDone(before, r, open, duplicates, k, closeFails + linkFails, target, sources);
    more := added + made;
    ProgressJoin(before, r, closeFails, linkFails, done, here, added, made);
  }

  /** What one group adds: its losers, none of them met before, are the sources and get their links. */
  lemma GroupDone(before: map<string, Issue>, r: Ranking, open: seq<Issue>, duplicates: seq<seq<Issue>>, k: nat,
                  fails: set<string>, target: string, sources: seq<string>)
    requires Keyed(before) && Lists(open, before) && DuplicateGroups(open, duplicates) && k < |duplicates|
    requires exists t :: Best(r, duplicates[k], t) && target == t.id
    requires forall id :: id in sources <==> id != target && exists i :: i in duplicates[k] && i.id == id
    requires Distinct(sources)
    ensures var done, here := LosersAmong(before, r, duplicates[..k]), LosersIn(before, r, duplicates[k]);
            && done !! here && IdSet(sources) == here && LosersAmong(before, r, duplicates[..k + 1]) == done + here
            && LinksMade(before, r, here - fails, LinksTo(Kept(sources, fails), target))
  {
    assert duplicates[..k + 1][..k] == duplicates[..k];
    GroupIsStored(before, open, duplicates, k);
    GroupLosers(before, r, open, duplicates[k], target, sources);
    GroupLinks(before, r, open, duplicates[k], target, sources, fails);
    GroupsApart(before, r, open, duplicates, k);
  }

  lemma ProgressJoin(before: map<string, Issue>, r: Ranking, closeFails: set<string>, linkFails: set<string>,
                     done: set<string>, here: set<string>, a: seq<Link>, b: seq<Link>)
    requires done !! here
    requires LinksMade(before, r, done - (closeFails + linkFails), a) &&
               LinksMade(before, r, here - (closeFails + linkFails), b)
    ensures Progress(before, r, closeFails, linkFails, done + here,
                     Closing(Closing(before, done - closeFails), here - closeFails), a + b)
  {
    var fails := closeFails + linkFails;
    ClosingTwice(before, done - closeFails, here - closeFails);
    assert (done - closeFails) + (here - closeFails) == (done + here) - closeFails;
    LinksMadeJoin(before, r, done - fails, a, here - fails, b);
    assert (done - fails) + (here - fails) == (done + here) - fails;
  }

  /** Every loser is in a duplicate group. */
  lemma AllLosersGrouped(issues: map<string, Issue>, r: Ranking, open: seq<Issue>, duplicates: seq<seq<Issue>>)
    requires Keyed(issues) && Lists(open, issues) && DuplicateGroups(open, duplicates)
    ensures LosersAmong(issues, r, duplicates) == Losers(issues, r)
  {
    forall g, i | g in duplicates && i in g
      ensures i.id in issues && issues[i.id] == i
    {
      WithKeyElements(open, KeyOf(g[0]));
    }
    LosersAmongBounded(issues, r, duplicates);
    forall id | id in Losers(issues, r) ensures id in LosersAmong(issues, r, duplicates) {
      var i := issues[id];
      var w :| w in issues && Candidate(issues[w]) && KeyOf(issues[w]) == KeyOf(i) && Beats(r, issues[w], i);
      BeatsIsStrict(r, issues[w], i);
      var g := WithKey(open, KeyOf(i));
      WithKeyElements(open, KeyOf(i));
      TwoElements(g, i, issues[w]);
      LosersAmongElements(issues, r, duplicates, g);
    }
  }

  lemma TwoElements<T>(s: seq<T>, a: T, b: T)
    requires a in s && b in s && a != b
    ensures |s| > 1
  {
  }

  // What the merge promises.

  /** A best issue of each key exists. */
  lemma {:induction false} BestExists(r: Ranking, group: seq<Issue>) returns (t: Issue)
    requires group != []
    ensures Best(r, group, t)
  {
    var last := group[|group| - 1];
    if |group| == 1 {
      t := last;
    } else {
      assert group == group[..|group| - 1] + [last];
      t := BestExists(r, group[..|group| - 1]);
      BeatsIsStrict(r, t, last);
      if Beats(r, last, t) {
        NewBest(r, group[..|group| - 1], t, last);
        t := last;
      }
    }
  }

  ghost predicate RemainsWithKey(issues: map<string, Issue>, k: Key, id: string) {
    id in issues && Candidate(issues[id]) && KeyOf(issues[id]) == k
  }

  /** Which candidates of a key are left after a run: its one best, and the losers whose close failed. */
  lemma Survivors(issues: map<string, Issue>, r: Ranking, closeFails: set<string>, k: Key, id: string)
    ensures var after := Closing(issues, Losers(issues, r) - closeFails);
            RemainsWithKey(after, k, id) <==>
              RemainsWithKey(issues, k, id) && (!Loses(issues, r, issues[id]) || id in closeFails)
  {
  }

  /** Convergence: with succeeding calls exactly one candidate of each key present before is left, and it
      is the one that beats all others. */
  lemma {:induction false} OneSurvivor(issues: map<string, Issue>, r: Ranking, open: seq<Issue>, k: Key)
    returns (best: Issue)
    requires Keyed(issues) && Lists(open, issues) && WithKey(open, k) != []
    ensures Best(r, WithKey(open, k), best)
    ensures forall id :: RemainsWithKey(Closing(issues, Losers(issues, r)), k, id) <==> id == best.id
  {
    var group := WithKey(open, k);
    best := BestExists(r, group);
    WithKeyElements(open, k);
    forall id ensures RemainsWithKey(Closing(issues, Losers(issues, r)), k, id) <==> id == best.id {
      Survivors(issues, r, {}, k, id);
      assert Losers(issues, r) - {} == Losers(issues, r);
      if RemainsWithKey(issues, k, id) {
        assert issues[id] in group;
        if id == best.id && Loses(issues, r, best) {
          var w :| w in issues && Candidate(issues[w]) && KeyOf(issues[w]) == KeyOf(best) && Beats(r, issues[w], best);
          assert issues[w] in group;
          BeatsIsStrict(r, issues[w], best);
        }
      }
    }
  }

  /** So a second run finds no duplicate group. */
  lemma SecondRunFindsNothing(issues: map<string, Issue>, r: Ranking, open: seq<Issue>, again: seq<Issue>,
                              groups: seq<seq<Issue>>)
    requires Keyed(issues) && Lists(open, issues)
    requires Lists(again, Closing(issues, Losers(issues, r))) && DuplicateGroups(again, groups)
    ensures groups == []
  {
    var after := Closing(issues, Losers(issues, r));
    if groups != [] {
      var g := groups[0];
      assert g in groups;
      var k := KeyOf(g[0]);
      WithKeyElements(again, k);
      WithKeyElements(open, k);
      assert g[0] in g && g[1] in g;
      assert RemainsWithKey(after, k, g[0].id) && RemainsWithKey(after, k, g[1].id);
      assert issues[g[0].id] in WithKey(open, k);
      var best := OneSurvivor(issues, r, open, k);
    }
  }
}
