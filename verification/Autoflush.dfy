/**
 The JSONL export of cmd/binds/autoflush.go: a file kept as a copy of the issue database, either
 rebuilt from scratch or brought up to date from the issues marked dirty.
 */
module Autoflush {
  import opened Order

  /** An issue row. `body` is every exported field the flush never looks at. */
  datatype Issue = Issue(id: string, status: string, issueType: string, ephemeral: bool, body: string)

  /** A line of the file: its bytes without the newline, and the issue they decode to (None: blank or malformed). */
  datatype Line = Line(text: string, parsed: Option<Issue>)

  /** SHA-256 of the file, taken to be free of collisions. */
  datatype Hash = Hash(of: seq<Line>)

  /** Configuration: the JSON text of an issue, and what filterByMultiRepoPrefix reads. */
  datatype Settings = Settings(json: Issue -> string, multiRepo: bool, primary: bool,
                               dbPrefix: string, yamlPrefix: string)

  /** The store and the file. `hash` None is the empty string of jsonl_file_hash. */
  datatype Replica = Replica(db: map<string, Issue>, dirty: set<string>, file: Option<seq<Line>>, hash: Option<Hash>)

  datatype Request = Request(active: bool, jsonlMode: bool, forceDirty: bool, forceFull: bool)

  /** Which of the store and file system calls of one flush fail. */
  datatype Faults = Faults(getHash: bool, readFile: bool, clearHashes: bool, resetHash: bool, list: bool,
                           openFile: bool, unreadable: set<string>, write: bool, clearDirty: bool,
                           readBack: bool, putHash: bool)

  datatype Verdict = Trusted | MustRebuild | Broken

  datatype Outcome = Skipped | Failed | NothingDirty | Written(hashed: bool)

  const NO_FAULTS := Faults(false, false, false, false, false, false, {}, false, false, false, false)
  const MAX_LINE: nat := 2 * 1024 * 1024
  const TOMBSTONE := "tombstone"

  predicate Live(issue: Issue) {
    issue.status != TOMBSTONE
  }

  function Defaulted(issue: Issue): Issue {
    issue.(status := if issue.status == "" then "open" else issue.status,
    issueType := if issue.issueType == "" then "task" else issue.issueType)
  }

  function Encode(cfg: Settings, issue: Issue): Line {
    Line(cfg.json(issue), Some(issue))
  }

  function RequiredPrefix(cfg: Settings): Option<string> {
    var prefix := if cfg.dbPrefix == "" then cfg.yamlPrefix else cfg.dbPrefix;
    if !cfg.multiRepo || prefix == "" || cfg.primary then None
    else Some(if prefix[|prefix| - 1] == '-' then prefix else prefix + "-")
  }

  predicate HasRequiredPrefix(cfg: Settings, issue: Issue) {
    RequiredPrefix(cfg).Some? ==> RequiredPrefix(cfg).value <= issue.id
  }

  /** The issues that may be exported at all. */
  predicate Keeps(cfg: Settings, issue: Issue) {
    !issue.ephemeral && HasRequiredPrefix(cfg, issue)
  }

  /** Which issues may be exported. Only outside the primary repository of a multi-repo setup with a prefix does the
      ID matter, and then it has to start with the prefix and one hyphen. */
  lemma KeepsExactly(cfg: Settings, issue: Issue)
    ensures !cfg.multiRepo || cfg.primary || (cfg.dbPrefix == "" && cfg.yamlPrefix == "") ==>
              (Keeps(cfg, issue) <==> !issue.ephemeral)
    ensures cfg.multiRepo && !cfg.primary && !(cfg.dbPrefix == "" && cfg.yamlPrefix == "") ==>
              var p := if cfg.dbPrefix != "" then cfg.dbPrefix else cfg.yamlPrefix;
              (Keeps(cfg, issue) <==>
                 !issue.ephemeral && (if p[|p| - 1] == '-' then p <= issue.id else p + "-" <= issue.id))
  {
  }

  // Specification of one flush.

  function Kept(cfg: Settings, m: map<string, Issue>): map<string, Issue> {
    map id | id in m && Keeps(cfg, m[id]) :: m[id]
  }

  function LiveOnly(m: map<string, Issue>): map<string, Issue> {
    map id | id in m && Live(m[id]) :: m[id]
  }

  /** `base` with every issue of `ids` replaced by its database row, or dropped if it has none. */
  function Overlay(db: map<string, Issue>, ids: set<string>, base: map<string, Issue>): map<string, Issue> {
    map id | id in base.Keys + ids && (id in ids ==> id in db) :: if id in ids then db[id] else base[id]
  }

  /** The last line of an ID wins. */
  function ReadMap(lines: seq<Line>): map<string, Issue> {
    if lines == [] then map[] else
      var m := ReadMap(lines[..|lines| - 1]);
      match lines[|lines| - 1].parsed
      case None => m
      case Some(issue) => m[issue.id := Defaulted(issue)]
  }

  predicate Overlong(lines: seq<Line>) {
    exists i :: 0 <= i < |lines| && |lines[i].text| >= MAX_LINE
  }

  function Lines(file: Option<seq<Line>>): seq<Line> {
    if file.Some? then file.value else []
  }

  function ValuesAt(m: map<string, Issue>, ids: seq<string>): seq<Issue>
    requires forall id :: id in ids ==> id in m
  {
    seq(|ids|, i requires 0 <= i < |ids| => m[ids[i]])
  }

  /** The issues of `m` in increasing ID order. */
  ghost function Listing(m: map<string, Issue>): seq<Issue> {
    ValuesAt(m, Ascending(m.Keys))
  }

  function LiveIds(db: map<string, Issue>): set<string> {
    set id | id in db && Live(db[id])
  }

  function FileOf(cfg: Settings, issues: seq<Issue>): seq<Line> {
    seq(|issues|, i requires 0 <= i < |issues| => Encode(cfg, issues[i]))
  }

  /** The issues a flush fetches from the database. */
  function ToFetch(s: Replica, full: bool): set<string> {
    if full then LiveIds(s.db) else s.dirty
  }

  /** The issues a flush writes. */
  function ToWrite(cfg: Settings, s: Replica, full: bool): map<string, Issue> {
    Kept(cfg, Overlay(s.db, ToFetch(s, full), if full then map[] else ReadMap(Lines(s.file))))
  }

  function Validate(s: Replica, fx: Faults): (Replica, Verdict) {
    if fx.getHash then (s, Broken)
    else if s.hash.None? then (s, Trusted)
    else if fx.readFile then (s, Broken)
    else if s.file == Some(s.hash.value.of) then (s, Trusted)
    else if fx.clearHashes || fx.resetHash then (s, Broken)
    else (s.(hash := None), MustRebuild)
  }

  ghost function FlushNext(cfg: Settings, s0: Replica, req: Request, fx: Faults): (Replica, Outcome) {
    if !req.active || !req.jsonlMode then (s0, Skipped) else
      var (s, verdict) := Validate(s0, fx);
      if verdict.Broken? then (s, Failed)
      else if !req.forceDirty && !verdict.MustRebuild? then (s, Skipped)
      else
        Export(cfg, s, req.forceFull || verdict.MustRebuild?, fx)
  }

  /** The flush once its mode is decided. */
  ghost function Export(cfg: Settings, s: Replica, full: bool, fx: Faults): (Replica, Outcome) {
    var ids := ToFetch(s, full);
    if fx.list then (s, Failed)
    else if ids == {} && !full then (s, NothingDirty)
    else if !full && s.file.Some? && (fx.openFile || Overlong(s.file.value)) then (s, Failed)
    else if fx.unreadable * ids != {} || fx.write then (s, Failed)
    else
      var m := ToWrite(cfg, s, full);
      var lines := FileOf(cfg, Listing(m));
      var hashed := !fx.readBack && !fx.putHash;
      (Replica(s.db, if fx.clearDirty then s.dirty else s.dirty - m.Keys, Some(lines),
               if hashed then Some(Hash(lines)) else s.hash), Written(hashed))
  }

  /** Which flush does what, in terms of the request, the state and the calls that fail. */
  lemma OutcomeExactly(cfg: Settings, s: Replica, req: Request, fx: Faults)
    ensures var (t, out) := FlushNext(cfg, s, req, fx);
            var on := req.active && req.jsonlMode;
            var stored := s.hash.Some?;
            var off := stored && s.file != Some(s.hash.value.of);
            var invalid := fx.getHash || (stored && fx.readFile) || (off && (fx.clearHashes || fx.resetHash));
            var full := req.forceFull || off;
            var proceeds := on && !invalid && (req.forceDirty || off);
            var fetched := if full then (set id | id in s.db && s.db[id].status != "tombstone") else s.dirty;
            var unread := !full && s.file.Some? &&
                          (fx.openFile || exists i :: 0 <= i < |s.file.value| && |s.file.value[i].text| >= 2097152);
            && (out == Skipped <==> !on || (!invalid && !req.forceDirty && !off))
            && (out == NothingDirty <==> proceeds && !fx.list && !full && s.dirty == {})
            && (out.Written? <==> proceeds && !fx.list && (full || s.dirty != {}) && !unread &&
                                  (forall id :: id in fetched ==> id !in fx.unreadable) && !fx.write)
            && (out.Written? ==> out.hashed == (!fx.readBack && !fx.putHash))
            && (out.Written? && !out.hashed ==> t.hash == if off then None else s.hash)
  {
    NoneInCommon(fx.unreadable, ToFetch(s, RebuildsFully(s, req, fx)));
  }

  /** When a flush that gets past the validation rebuilds. */
  lemma RebuildsExactly(s: Replica, req: Request, fx: Faults)
    ensures RebuildsFully(s, req, fx) <==>
              req.forceFull || (Mismatched(s) && !fx.getHash && !fx.readFile && !fx.clearHashes && !fx.resetHash)
  {
  }

  // What the export promises.

  /** Database rows are keyed by ID and carry a status and a type, as the store's validation demands. */
  ghost predicate WellFormed(db: map<string, Issue>) {
    forall id :: id in db ==> db[id].id == id && db[id].status != "" && db[id].issueType != ""
  }

  /** The simple full export: every live issue that may be exported, in increasing ID order. */
  ghost function FullExport(cfg: Settings, db: map<string, Issue>): seq<Issue> {
    Listing(LiveOnly(Kept(cfg, db)))
  }

  /** The full export in plain terms: the issues that are no tombstones and may be exported, in strictly
      increasing ID order. */
  lemma FullExportExactly(cfg: Settings, db: map<string, Issue>)
    requires WellFormed(db)
    ensures forall x :: x in FullExport(cfg, db) <==>
              x.id in db && db[x.id] == x && x.status != "tombstone" && Keeps(cfg, x)
    ensures Increasing(IdsOf(FullExport(cfg, db)))
  {
    var m := LiveOnly(Kept(cfg, db));
    forall x ensures x in FullExport(cfg, db) <==>
                     x.id in db && db[x.id] == x && x.status != "tombstone" && Keeps(cfg, x)
    {
      ListingElements(m, x);
    }
    ListingIds(m);
  }

  /** The lines of a written file: the JSON text of each issue. */
  lemma WrittenText(cfg: Settings, issues: seq<Issue>, i: nat)
    requires i < |issues|
    ensures |FileOf(cfg, issues)| == |issues|
    ensures FileOf(cfg, issues)[i].text == cfg.json(issues[i]) && FileOf(cfg, issues)[i].parsed == Some(issues[i])
  {
  }

  /** What a line says of `id`, with the defaults for omitted fields. */
  ghost predicate Says(line: Line, id: string, issue: Issue) {
    && line.parsed.Some? && line.parsed.value.id == id
    && var x := line.parsed.value;
       issue == x.(status := if x.status != "" then x.status else "open",
                   issueType := if x.issueType != "" then x.issueType else "task")
  }

  predicate Mentions(lines: seq<Line>, id: string) {
    exists i :: 0 <= i < |lines| && lines[i].parsed.Some? && lines[i].parsed.value.id == id
  }

  /** The last line with the ID says `issue`. */
  ghost predicate LastSays(lines: seq<Line>, id: string, issue: Issue) {
    exists i :: 0 <= i < |lines| && Says(lines[i], id, issue) &&
                forall j :: i < j < |lines| && lines[j].parsed.Some? ==> lines[j].parsed.value.id != id
  }

  lemma OneMoreLine(front: seq<Line>, last: Line, id: string, issue: Issue)
    ensures Mentions(front + [last], id) <==> Mentions(front, id) || (last.parsed.Some? && last.parsed.value.id == id)
    ensures Says(last, id, issue) ==> LastSays(front + [last], id, issue)
    ensures LastSays(front, id, issue) && !(last.parsed.Some? && last.parsed.value.id == id) ==>
              LastSays(front + [last], id, issue)
  {
    var lines := front + [last];
    assert lines[|front|] == last && forall i :: 0 <= i < |front| ==> lines[i] == front[i];
    if i :| 0 <= i < |front| && front[i].parsed.Some? && front[i].parsed.value.id == id {
      assert lines[i].parsed.value.id == id;
    }
    if LastSays(front, id, issue) && !(last.parsed.Some? && last.parsed.value.id == id) {
      var i :| 0 <= i < |front| && Says(front[i], id, issue) &&
               forall j :: i < j < |front| && front[j].parsed.Some? ==> front[j].parsed.value.id != id;
      assert Says(lines[i], id, issue);
    }
  }

  /** Reading any file at all: an ID is read if some line has it, and then as its last line has it; blank and
      malformed lines do not count. */
  lemma {:induction false} ReadMapExactly(lines: seq<Line>, id: string)
    ensures id in ReadMap(lines) <==> Mentions(lines, id)
    ensures id in ReadMap(lines) ==> LastSays(lines, id, ReadMap(lines)[id])
  {
    if lines != [] {
      var front, last := lines[..|lines| - 1], lines[|lines| - 1];
      assert lines == front + [last];
      ReadMapExactly(front, id);
      if id in ReadMap(lines) { OneMoreLine(front, last, id, ReadMap(lines)[id]); }
      OneMoreLine(front, last, id, if last.parsed.Some? then last.parsed.value else Issue("", "", "", false, ""));
    }
  }

  /** `live` lists the issues of the lines at the given positions, which are those of the live ones. */
  ghost predicate LiveAt(lines: seq<Line>, at: seq<nat>, live: seq<Issue>) {
    && Positions(at, |lines|) && |at| == |live|
    && (forall i :: 0 <= i < |lines| ==>
          (i in at <==> lines[i].parsed.Some? && lines[i].parsed.value.status != "tombstone"))
    && forall j :: 0 <= j < |at| ==> lines[at[j]].parsed == Some(live[j])
  }

  lemma {:induction false} LiveIssuesAppend(front: seq<Line>, last: Line)
    ensures LiveIssues(front + [last]) ==
              LiveIssues(front) + if last.parsed.Some? && Live(last.parsed.value) then [last.parsed.value] else []
  {
    if front == [] {
      assert [] + [last] == [last] && LiveIssues([last][1..]) == [];
    } else {
      LiveIssuesAppend(front[1..], last);
      assert (front + [last])[1..] == front[1..] + [last];
    }
  }

  /** The live issues of a file, each once and in line order. */
  lemma {:induction false} LiveIssuesAt(lines: seq<Line>) returns (at: seq<nat>)
    ensures LiveAt(lines, at, LiveIssues(lines))
  {
    at := [];
    if lines != [] {
      var front, last := lines[..|lines| - 1], lines[|lines| - 1];
      assert lines == front + [last];
      at := LiveIssuesAt(front);
      LiveIssuesAppend(front, last);
      MorePositions(at, |front|);
      if last.parsed.Some? && last.parsed.value.status != "tombstone" { at := at + [|front|]; }
    }
  }

  function LiveIssues(lines: seq<Line>): seq<Issue> {
    if lines == [] then []
    else if lines[0].parsed.Some? && Live(lines[0].parsed.value) then
      [lines[0].parsed.value] + LiveIssues(lines[1..])
    else LiveIssues(lines[1..])
  }

  /** The live part of the file is the full export of the database. */
  ghost predicate Current(cfg: Settings, s: Replica) {
    LiveIssues(Lines(s.file)) == FullExport(cfg, s.db)
  }

  /** What a map shows of an ID to the live export. */
  function Shown(cfg: Settings, m: map<string, Issue>, id: string): Option<Issue> {
    if id in m && Keeps(cfg, m[id]) && Live(m[id]) then Some(m[id]) else None
  }

  /** Every unmarked issue already stands in the file as it stands in the database. */
  ghost predicate AgreesOffDirty(cfg: Settings, db: map<string, Issue>, dirty: set<string>, lines: seq<Line>) {
    forall id :: id !in dirty ==> Shown(cfg, ReadMap(lines), id) == Shown(cfg, db, id)
  }

  ghost predicate RebuildsFully(s: Replica, req: Request, fx: Faults) {
    req.forceFull || Validate(s, fx).1.MustRebuild?
  }

  /** The stored hash is not that of the file: the file was changed or removed from outside. */
  ghost predicate Mismatched(s: Replica) {
    s.hash.Some? && s.file != Some(s.hash.value.of)
  }

  // Listings.

  ghost predicate Keyed(m: map<string, Issue>) {
    forall id :: id in m ==> m[id].id == id
  }

  lemma ListingElements(m: map<string, Issue>, x: Issue)
    requires Keyed(m)
    ensures x in Listing(m) <==> x.id in m && m[x.id] == x
  {
    var ids := Ascending(m.Keys);
    if x.id in m {
      assert x.id in ids;
      var i :| 0 <= i < |ids| && ids[i] == x.id;
      assert Listing(m)[i] == m[x.id];
    }
  }

  /** A keyed map can be read off its listing. */
  lemma ListingInjective(m: map<string, Issue>, n: map<string, Issue>)
    requires Keyed(m) && Keyed(n) && Listing(m) == Listing(n)
    ensures m == n
  {
    forall id ensures (id in m <==> id in n) && (id in m ==> m[id] == n[id]) {
      if id in m { ListingElements(m, m[id]); ListingElements(n, m[id]); }
      if id in n { ListingElements(m, n[id]); ListingElements(n, n[id]); }
    }
  }

  function LiveAmong(m: map<string, Issue>, ids: seq<string>): (r: seq<string>)
    requires forall id :: id in ids ==> id in m
    ensures forall id :: id in r ==> id in ids
  {
    if ids == [] then []
    else (if Live(m[ids[0]]) then [ids[0]] else []) + LiveAmong(m, ids[1..])
  }

  lemma {:induction false} LiveAmongIncreasing(m: map<string, Issue>, ids: seq<string>)
    requires Increasing(ids) && forall id :: id in ids ==> id in m
    ensures Increasing(LiveAmong(m, ids))
    ensures forall id :: id in LiveAmong(m, ids) <==> id in ids && Live(m[id])
  {
    if ids != [] {
      var rest := LiveAmong(m, ids[1..]);
      LiveAmongIncreasing(m, ids[1..]);
      assert ids == [ids[0]] + ids[1..];
      forall i | 0 <= i < |rest| ensures Less(ids[0], rest[i]) {
        assert rest[i] in ids[1..];
      }
    }
  }

  function LiveOf(issues: seq<Issue>): seq<Issue> {
    if issues == [] then []
    else (if Live(issues[0]) then [issues[0]] else []) + LiveOf(issues[1..])
  }

  lemma {:induction false} LiveIssuesOfFile(cfg: Settings, issues: seq<Issue>)
    ensures LiveIssues(FileOf(cfg, issues)) == LiveOf(issues)
  {
    if issues != [] {
      assert FileOf(cfg, issues)[1..] == FileOf(cfg, issues[1..]);
      LiveIssuesOfFile(cfg, issues[1..]);
    }
  }

  lemma ValuesConcat(m: map<string, Issue>, a: seq<string>, b: seq<string>)
    requires forall id :: id in a + b ==> id in m
    ensures (forall id :: id in a ==> id in m) && (forall id :: id in b ==> id in m)
    ensures ValuesAt(m, a + b) == ValuesAt(m, a) + ValuesAt(m, b)
  {
    assert forall id :: id in a || id in b ==> id in a + b;
  }

  lemma {:induction false} LiveOfValues(m: map<string, Issue>, ids: seq<string>)
    requires forall id :: id in ids ==> id in m
    ensures LiveOf(ValuesAt(m, ids)) == ValuesAt(m, LiveAmong(m, ids))
  {
    if ids != [] {
      assert ValuesAt(m, ids)[1..] == ValuesAt(m, ids[1..]);
      LiveOfValues(m, ids[1..]);
      ValuesConcat(m, if Live(m[ids[0]]) then [ids[0]] else [], LiveAmong(m, ids[1..]));
    }
  }

  /** The live part of a written file lists the live part of the written map. */
  lemma LiveIssuesOfListing(cfg: Settings, m: map<string, Issue>)
    ensures LiveIssues(FileOf(cfg, Listing(m))) == Listing(LiveOnly(m))
  {
    var ids := Ascending(m.Keys);
    LiveAmongIncreasing(m, ids);
    LiveIssuesOfFile(cfg, Listing(m));
    LiveOfValues(m, ids);
    IncreasingUnique(LiveAmong(m, ids), Ascending(LiveOnly(m).Keys));
  }

  lemma {:induction false} ReadMapKeyed(lines: seq<Line>)
    ensures Keyed(ReadMap(lines))
  {
    if lines != [] { ReadMapKeyed(lines[..|lines| - 1]); }
  }

  /** Two keyed maps have the same live export exactly when they show the same of every ID. */
  lemma SameExport(cfg: Settings, m: map<string, Issue>, n: map<string, Issue>)
    requires Keyed(m) && Keyed(n)
    ensures FullExport(cfg, m) == FullExport(cfg, n) <==> forall id :: Shown(cfg, m, id) == Shown(cfg, n, id)
  {
    var em, en := LiveOnly(Kept(cfg, m)), LiveOnly(Kept(cfg, n));
    if FullExport(cfg, m) == FullExport(cfg, n) {
      ListingInjective(em, en);
      forall id ensures Shown(cfg, m, id) == Shown(cfg, n, id) {
        assert id in em <==> id in en;
      }
    }
    if forall id :: Shown(cfg, m, id) == Shown(cfg, n, id) {
      forall id ensures (id in em <==> id in en) && (id in em ==> em[id] == en[id]) {
        assert Shown(cfg, m, id) == Shown(cfg, n, id);
      }
      assert em == en;
    }
  }

  // One flush.

  lemma WrittenLines(cfg: Settings, s: Replica, req: Request, fx: Faults)
    requires FlushNext(cfg, s, req, fx).1.Written?
    ensures Lines(FlushNext(cfg, s, req, fx).0.file) == FileOf(cfg, Listing(ToWrite(cfg, s, RebuildsFully(s, req, fx))))
    ensures FlushNext(cfg, s, req, fx).0.db == s.db
    ensures FlushNext(cfg, s, req, fx).0.dirty
         == if fx.clearDirty then s.dirty else s.dirty - ToWrite(cfg, s, RebuildsFully(s, req, fx)).Keys
  {
  }

  /** What is written is exportable, and shows the database inside the fetched set and the old file
      (or nothing) outside it. */
  lemma ToWriteShows(cfg: Settings, s: Replica, full: bool)
    requires WellFormed(s.db)
    ensures var m := ToWrite(cfg, s, full);
            && Keyed(m)
            && Kept(cfg, m) == m
            && (forall id :: id in m ==> Keeps(cfg, m[id]) && Defaulted(m[id]) == m[id])
            && forall id :: Shown(cfg, m, id) == if full || id in s.dirty then Shown(cfg, s.db, id)
                                                 else Shown(cfg, ReadMap(Lines(s.file)), id)
  {
    ReadMapKeyed(Lines(s.file));
    ReadMapDefaulted(Lines(s.file));
  }

  /** A flush that writes leaves the full export behind exactly when it rebuilt the file or started
      from a file that agreed with the database outside the dirty set. */
  lemma {:induction false} WrittenIsCurrent(cfg: Settings, s: Replica, req: Request, fx: Faults)
    requires WellFormed(s.db)
    requires FlushNext(cfg, s, req, fx).1.Written?
    ensures Current(cfg, FlushNext(cfg, s, req, fx).0) <==>
            RebuildsFully(s, req, fx) || AgreesOffDirty(cfg, s.db, s.dirty, Lines(s.file))
  {
    var full := RebuildsFully(s, req, fx);
    WrittenLines(cfg, s, req, fx);
    ToWriteShows(cfg, s, full);
    LiveIssuesOfListing(cfg, ToWrite(cfg, s, full));
    SameExport(cfg, ToWrite(cfg, s, full), s.db);
  }

  /** The IDs of a file, in line order. */
  function Ids(lines: seq<Line>): seq<string> {
    seq(|lines|, i requires 0 <= i < |lines| => if lines[i].parsed.Some? then lines[i].parsed.value.id else "")
  }

  /** A file as a flush writes it: only exportable issues, each with a status and a type, in strictly
      increasing ID order. */
  ghost predicate Canonical(cfg: Settings, lines: seq<Line>) {
    && Increasing(Ids(lines))
    && forall i :: 0 <= i < |lines| ==>
         && lines[i].parsed.Some?
         && lines[i] == Encode(cfg, lines[i].parsed.value)
         && Keeps(cfg, lines[i].parsed.value)
         && Defaulted(lines[i].parsed.value) == lines[i].parsed.value
  }

  /** `m` holds the issues of the lines, each under its own ID. */
  ghost predicate Holds(m: map<string, Issue>, lines: seq<Line>) {
    && (forall id :: id in m <==> id in Ids(lines))
    && forall i :: 0 <= i < |lines| ==> lines[i].parsed.Some? && m[Ids(lines)[i]] == lines[i].parsed.value
  }

  lemma HoldsMore(m: map<string, Issue>, lines: seq<Line>, line: Line, issue: Issue)
    requires Holds(m, lines) && line.parsed == Some(issue) && issue.id !in Ids(lines)
    ensures Holds(m[issue.id := issue], lines + [line])
  {
    var more := lines + [line];
    assert Ids(more) == Ids(lines) + [issue.id];
    forall i | 0 <= i < |more|
      ensures more[i].parsed.Some? && m[issue.id := issue][Ids(more)[i]] == more[i].parsed.value
    {
      if i < |lines| { assert Ids(lines)[i] in Ids(lines); }
    }
  }

  lemma CanonicalFront(cfg: Settings, front: seq<Line>, last: Line)
    requires Canonical(cfg, front + [last])
    ensures Canonical(cfg, front) && last.parsed.Some? && last.parsed.value.id !in Ids(front)
    ensures Defaulted(last.parsed.value) == last.parsed.value
  {
    var lines := front + [last];
    assert Ids(lines) == Ids(front) + [Ids(lines)[|front|]];
    assert lines[|front|] == last;
    forall i | 0 <= i < |front| ensures Ids(front)[i] == Ids(lines)[i] != Ids(lines)[|front|] && front[i] == lines[i] {
      LessTrichotomy(Ids(lines)[i], Ids(lines)[|front|]);
    }
  }

  lemma {:induction false} CanonicalRead(cfg: Settings, lines: seq<Line>)
    requires Canonical(cfg, lines)
    ensures Holds(ReadMap(lines), lines)
  {
    if lines != [] {
      var front, last := lines[..|lines| - 1], lines[|lines| - 1];
      assert lines == front + [last];
      CanonicalFront(cfg, front, last);
      CanonicalRead(cfg, front);
      HoldsMore(ReadMap(front), front, last, last.parsed.value);
    }
  }

  /** A canonical file can be written back from the map that holds its issues. */
  lemma HeldFile(cfg: Settings, m: map<string, Issue>, lines: seq<Line>)
    requires Canonical(cfg, lines) && Holds(m, lines)
    ensures FileOf(cfg, Listing(m)) == lines && Kept(cfg, m) == m
  {
    IncreasingUnique(Ids(lines), Ascending(m.Keys));
    forall i | 0 <= i < |lines| ensures FileOf(cfg, Listing(m))[i] == lines[i] {
      assert Listing(m)[i] == m[Ids(lines)[i]];
    }
    forall id | id in m ensures Keeps(cfg, m[id]) {
      var i :| 0 <= i < |Ids(lines)| && Ids(lines)[i] == id;
    }
  }

  /** Reading a canonical file and writing it back reproduces it line for line. */
  lemma CanonicalRoundTrip(cfg: Settings, lines: seq<Line>)
    requires Canonical(cfg, lines)
    ensures FileOf(cfg, Listing(ReadMap(lines))) == lines
    ensures Kept(cfg, ReadMap(lines)) == ReadMap(lines)
  {
    CanonicalRead(cfg, lines);
    HeldFile(cfg, ReadMap(lines), lines);
  }

  lemma {:induction false} ReadMapDefaulted(lines: seq<Line>)
    ensures forall id :: id in ReadMap(lines) ==> Defaulted(ReadMap(lines)[id]) == ReadMap(lines)[id]
  {
    if lines != [] { ReadMapDefaulted(lines[..|lines| - 1]); }
  }

  /** What is written is canonical, and reads back as the map it was written from. */
  lemma WrittenIsCanonical(cfg: Settings, m: map<string, Issue>)
    requires Keyed(m) && forall id :: id in m ==> Keeps(cfg, m[id]) && Defaulted(m[id]) == m[id]
    ensures Canonical(cfg, FileOf(cfg, Listing(m)))
    ensures ReadMap(FileOf(cfg, Listing(m))) == m
  {
    var lines, ids := FileOf(cfg, Listing(m)), Ascending(m.Keys);
    forall i | 0 <= i < |ids| ensures ids[i] in m && lines[i] == Encode(cfg, m[ids[i]]) && Ids(lines)[i] == ids[i] {
      assert ids[i] in ids;
    }
    assert Ids(lines) == ids;
    CanonicalRead(cfg, lines);
    SameAt(ReadMap(lines), ids, m);
  }

  lemma SameAt(r: map<string, Issue>, ids: seq<string>, m: map<string, Issue>)
    requires forall id :: id in r <==> id in ids
    requires forall id :: id in m <==> id in ids
    requires forall i :: 0 <= i < |ids| ==> r[ids[i]] == m[ids[i]]
    ensures r == m
  {
    forall id | id in m ensures r[id] == m[id] {
      var i :| 0 <= i < |ids| && ids[i] == id;
    }
  }

  // Histories.

  /** What can happen to the store and the file. */
  datatype Event =
    | Change(id: string, value: Option<Issue>)  // create, update or delete; marks the ID dirty
    | Touch(id: string)                         // marks the ID dirty
    | Edit(file: Option<seq<Line>>)             // another program rewrites or removes the file
    | Flush(req: Request, fx: Faults)

  ghost function Step(cfg: Settings, s: Replica, e: Event): Replica {
    match e
    case Change(id, None) => s.(db := s.db - {id}, dirty := s.dirty + {id})
    case Change(id, Some(issue)) => s.(db := s.db[id := issue], dirty := s.dirty + {id})
    case Touch(id) => s.(dirty := s.dirty + {id})
    case Edit(file) => s.(file := file)
    case Flush(req, fx) => FlushNext(cfg, s, req, fx).0
  }

  /** The events under which the export keeps its promise. Any fault is allowed, except one that makes a
      flush forget a hash it had: by clearing it and not rebuilding, or by writing without storing it. */
  ghost predicate Admissible(cfg: Settings, s: Replica, e: Event) {
    match e
    case Change(id, value) =>
      value.Some? ==> value.value.id == id && value.value.status != "" && value.value.issueType != ""
    case Touch(_) => true
    case Edit(_) => s.hash.Some?
    case Flush(req, fx) =>
      var (t, out) := FlushNext(cfg, s, req, fx);
      (out.Written? ==> out.hashed) && (s.hash.Some? ==> t.hash.Some?)
  }

  ghost function Run(cfg: Settings, s: Replica, es: seq<Event>): Replica {
    if es == [] then s else Step(cfg, Run(cfg, s, es[..|es| - 1]), es[|es| - 1])
  }

  ghost predicate AdmissibleRun(cfg: Settings, s: Replica, es: seq<Event>) {
    forall i :: 0 <= i < |es| ==> Admissible(cfg, Run(cfg, s, es[..i]), es[i])
  }

  /** The file the next flush will take on trust: the one the stored hash was computed from. */
  function TrustedLines(s: Replica): seq<Line> {
    if s.hash.Some? then s.hash.value.of else Lines(s.file)
  }

  ghost predicate Inv(cfg: Settings, s: Replica) {
    && WellFormed(s.db)
    && Canonical(cfg, TrustedLines(s))
    && AgreesOffDirty(cfg, s.db, s.dirty, TrustedLines(s))
  }

  const EMPTY := Replica(map[], {}, None, None)

  lemma EmptyInv(cfg: Settings)
    ensures Inv(cfg, EMPTY)
  {
  }

  /** What a flush leaves, its marks cleared or not, is canonical and agrees outside the dirty set. */
  lemma WrittenInv(cfg: Settings, s: Replica, full: bool, dirty: set<string>)
    requires WellFormed(s.db) && (full || AgreesOffDirty(cfg, s.db, s.dirty, Lines(s.file)))
    requires s.dirty - ToWrite(cfg, s, full).Keys <= dirty
    ensures var lines := FileOf(cfg, Listing(ToWrite(cfg, s, full)));
            Inv(cfg, Replica(s.db, dirty, Some(lines), Some(Hash(lines))))
  {
    ToWriteShows(cfg, s, full);
    WrittenIsCanonical(cfg, ToWrite(cfg, s, full));
  }

  lemma {:induction false} FlushKeepsInv(cfg: Settings, s: Replica, req: Request, fx: Faults)
    requires Inv(cfg, s) && Admissible(cfg, s, Flush(req, fx))
    ensures Inv(cfg, FlushNext(cfg, s, req, fx).0)
  {
    var (t, out) := FlushNext(cfg, s, req, fx);
    if out.Written? {
      var full := RebuildsFully(s, req, fx);
      var m := ToWrite(cfg, s, full);
      assert t == Replica(s.db, t.dirty, t.file, t.hash) && s.dirty - m.Keys <= t.dirty;
      WrittenLines(cfg, s, req, fx);
      WrittenInv(cfg, s, full, t.dirty);
    }
  }

  lemma StepKeepsInv(cfg: Settings, s: Replica, e: Event)
    requires Inv(cfg, s) && Admissible(cfg, s, e)
    ensures Inv(cfg, Step(cfg, s, e))
  {
    if e.Flush? {
      FlushKeepsInv(cfg, s, e.req, e.fx);
    } else {
      assert TrustedLines(Step(cfg, s, e)) == TrustedLines(s);
    }
  }

  /** The invariant holds in every state of every admissible history. */
  lemma {:induction false} RunKeepsInv(cfg: Settings, s: Replica, es: seq<Event>)
    requires Inv(cfg, s) && AdmissibleRun(cfg, s, es)
    ensures Inv(cfg, Run(cfg, s, es))
  {
    if es != [] {
      var front, e := es[..|es| - 1], es[|es| - 1];
      assert forall i :: 0 <= i < |front| ==> front[..i] == es[..i];
      RunKeepsInv(cfg, s, front);
      StepKeepsInv(cfg, Run(cfg, s, front), e);
    }
  }

  /** A canonical file is the full export if and only if it agrees with the database everywhere. */
  lemma CleanIsCurrent(cfg: Settings, s: Replica)
    requires WellFormed(s.db) && Canonical(cfg, Lines(s.file))
    ensures Current(cfg, s) <==> AgreesOffDirty(cfg, s.db, {}, Lines(s.file))
  {
    var lines := Lines(s.file);
    CanonicalRoundTrip(cfg, lines);
    ReadMapKeyed(lines);
    LiveIssuesOfListing(cfg, ReadMap(lines));
    SameExport(cfg, ReadMap(lines), s.db);
  }

  /** So a flush that finds nothing dirty over a canonical file leaves the full export if and only if the file
      agreed with the database everywhere. */
  lemma NothingDirtyIsCurrent(cfg: Settings, s: Replica, req: Request, fx: Faults)
    requires WellFormed(s.db) && Canonical(cfg, Lines(s.file))
    requires FlushNext(cfg, s, req, fx).1.NothingDirty?
    ensures Current(cfg, FlushNext(cfg, s, req, fx).0) <==> AgreesOffDirty(cfg, s.db, {}, Lines(s.file))
  {
    CleanIsCurrent(cfg, s);
  }

  /** What a flush that goes through does not rebuild it takes on trust. */
  lemma TrustedUnlessRebuilt(cfg: Settings, s: Replica, req: Request, fx: Faults)
    requires FlushNext(cfg, s, req, fx).1.Written? || FlushNext(cfg, s, req, fx).1.NothingDirty?
    ensures FlushNext(cfg, s, req, fx).0.db == s.db
    ensures !RebuildsFully(s, req, fx) ==> Lines(s.file) == TrustedLines(s)
    ensures FlushNext(cfg, s, req, fx).1.NothingDirty? ==>
              FlushNext(cfg, s, req, fx).0 == s && s.dirty == {} && !RebuildsFully(s, req, fx)
  {
  }

  /** From a state of the invariant, every flush that does not fail or skip leaves the live export. */
  lemma {:induction false} InvFlushIsCurrent(cfg: Settings, s: Replica, req: Request, fx: Faults)
    requires Inv(cfg, s)
    ensures var (t, out) := FlushNext(cfg, s, req, fx);
            out.Written? || out.NothingDirty? ==> t.db == s.db && Current(cfg, t)
  {
    var out := FlushNext(cfg, s, req, fx).1;
    if out.Written? || out.NothingDirty? { TrustedUnlessRebuilt(cfg, s, req, fx); }
    if out.Written? {
      WrittenIsCurrent(cfg, s, req, fx);
    } else if out.NothingDirty? {
      CleanIsCurrent(cfg, s);
    }
  }

  /** Incremental flushing refines full export: after any admissible history from the empty store, a
      flush that does not fail or skip leaves exactly the full export of the current database. */
  lemma {:induction false} FlushRefinesFullExport(cfg: Settings, es: seq<Event>, s: Replica, req: Request, fx: Faults)
    requires AdmissibleRun(cfg, EMPTY, es) && s == Run(cfg, EMPTY, es)
    ensures var (t, out) := FlushNext(cfg, s, req, fx);
            out.Written? || out.NothingDirty? ==> t.db == s.db && Current(cfg, t)
  {
    EmptyInv(cfg);
    RunKeepsInv(cfg, EMPTY, es);
    InvFlushIsCurrent(cfg, s, req, fx);
  }

  /** Self-healing: whatever an outside change left in the file, a flush that does not fail rebuilds it
      and never stores the hash of anything else. */
  lemma {:induction false} SelfHealing(cfg: Settings, s: Replica, req: Request, fx: Faults)
    requires WellFormed(s.db) && Mismatched(s) && req.active && req.jsonlMode
    ensures var (t, out) := FlushNext(cfg, s, req, fx);
            && (out.Failed? || out.Written?)
            && (out.Written? ==>
                  && Current(cfg, t) && !Mismatched(t)
                  && (out.hashed ==> t.hash == Some(Hash(Lines(t.file)))))
  {
    if FlushNext(cfg, s, req, fx).1.Written? { WrittenIsCurrent(cfg, s, req, fx); }
  }

  lemma OneIssueMissing(cfg: Settings, a: Issue, s: Replica)
    requires a.id == "a" && Live(a) && Keeps(cfg, a) && s.db == map["a" := a] && Lines(s.file) == []
    ensures !Current(cfg, s)
  {
    assert LiveOnly(Kept(cfg, s.db)) == s.db;
    ListingElements(s.db, a);
    assert LiveIssues([]) == [];
  }

  /** When healing survives a failure: after a failed flush over a mismatched file the mismatch is still on
      record, so that SelfHealing speaks of the next flush too, if and only if the call that failed is one of
      the validation's own. Any later failure comes after the hash was cleared. */
  lemma HealingSurvivesIff(cfg: Settings, s: Replica, req: Request, fx: Faults)
    requires Mismatched(s) && FlushNext(cfg, s, req, fx).1.Failed?
    ensures Mismatched(FlushNext(cfg, s, req, fx).0) <==> fx.getHash || fx.readFile || fx.clearHashes || fx.resetHash
  {
  }

  /** Once it is off the record, the next flush that does not fail leaves the full export if and only if it is
      asked to rebuild, or the file happens to agree with the database wherever nothing is marked. */
  lemma HealingAfterFailure(cfg: Settings, s: Replica, req: Request, fx: Faults, again: Request, gx: Faults)
    requires WellFormed(s.db) && Mismatched(s) && FlushNext(cfg, s, req, fx).1.Failed?
    requires !(fx.getHash || fx.readFile || fx.clearHashes || fx.resetHash)
    requires FlushNext(cfg, FlushNext(cfg, s, req, fx).0, again, gx).1.Written?
    ensures Current(cfg, FlushNext(cfg, FlushNext(cfg, s, req, fx).0, again, gx).0) <==>
            again.forceFull || AgreesOffDirty(cfg, s.db, s.dirty, Lines(s.file))
  {
    var t := FlushNext(cfg, s, req, fx).0;
    FailureKeepsFile(cfg, s, req, fx);
    HealingSurvivesIff(cfg, s, req, fx);
    assert t == s.(hash := None) && Validate(t, gx).1 != MustRebuild;
    WrittenIsCurrent(cfg, t, again, gx);
  }

  /** A failed rebuild ends the healing: its hash is already cleared, and the next flush trusts the file. */
  lemma FailedRebuildStopsHealing(cfg: Settings, a: Issue)
    requires a.id == "a" && a.status == "open" && a.issueType == "task" && Keeps(cfg, a)
    ensures var s := Replica(map["a" := a], {}, None, Some(Hash([Encode(cfg, a)])));
            var req := Request(true, true, true, false);
            var (t, out) := FlushNext(cfg, s, req, NO_FAULTS.(write := true));
            var (u, again) := FlushNext(cfg, t, req, NO_FAULTS);
            Mismatched(s) && out == Failed && again == NothingDirty && !Current(cfg, u)
  {
    var s := Replica(map["a" := a], {}, None, Some(Hash([Encode(cfg, a)])));
    var req := Request(true, true, true, false);
    var (t, out) := FlushNext(cfg, s, req, NO_FAULTS.(write := true));
    OneIssueMissing(cfg, a, s.(hash := None));
  }

  /** A failed flush leaves the file, the database and the marks as they were, and either keeps the
      hash or has cleared one that did not match. */
  lemma FailureKeepsFile(cfg: Settings, s: Replica, req: Request, fx: Faults)
    requires FlushNext(cfg, s, req, fx).1.Failed?
    ensures var t := FlushNext(cfg, s, req, fx).0;
            t == s || (Mismatched(s) && t == s.(hash := None))
  {
  }

  /** A mark survives a flush that clears marks exactly when no issue of that ID was written. */
  lemma MarksAfterFlush(cfg: Settings, s: Replica, req: Request, fx: Faults, id: string)
    requires WellFormed(s.db) && FlushNext(cfg, s, req, fx).1.Written? && !fx.clearDirty
    ensures var t := FlushNext(cfg, s, req, fx).0;
            id in t.dirty <==> id in s.dirty && id !in Ids(Lines(t.file))
  {
    var full := RebuildsFully(s, req, fx);
    WrittenLines(cfg, s, req, fx);
    ToWriteShows(cfg, s, full);
    FileIds(cfg, ToWrite(cfg, s, full));
  }

  lemma FileIds(cfg: Settings, m: map<string, Issue>)
    requires Keyed(m)
    ensures Ids(FileOf(cfg, Listing(m))) == Ascending(m.Keys)
  {
    var ids := Ascending(m.Keys);
    forall i | 0 <= i < |ids| ensures Ids(FileOf(cfg, Listing(m)))[i] == ids[i] {
      assert ids[i] in ids;
    }
  }

  /** Tombstones: a rebuild drops them all; an incremental flush takes the marked ones from the database
      and keeps the unmarked ones of the old file. */
  lemma TombstonesAfterFlush(cfg: Settings, s: Replica, req: Request, fx: Faults, id: string)
    requires WellFormed(s.db) && FlushNext(cfg, s, req, fx).1.Written?
    ensures var after := ReadMap(Lines(FlushNext(cfg, s, req, fx).0.file));
            var before := ReadMap(Lines(s.file));
            (id in after && !Live(after[id])) <==>
            && !RebuildsFully(s, req, fx)
            && if id in s.dirty then id in s.db && !Live(s.db[id]) && Keeps(cfg, s.db[id])
               else id in before && !Live(before[id]) && Keeps(cfg, before[id])
  {
    var full := RebuildsFully(s, req, fx);
    WrittenLines(cfg, s, req, fx);
    ToWriteShows(cfg, s, full);
    WrittenIsCanonical(cfg, ToWrite(cfg, s, full));
  }

  /** With no call failing, a forced flush fails exactly when it is incremental, has something to
      export, and the file holds a line over the scanner's limit. */
  lemma OverlongLineBlocksFlush(cfg: Settings, s: Replica, req: Request)
    requires req.active && req.jsonlMode && req.forceDirty
    ensures FlushNext(cfg, s, req, NO_FAULTS).1.Failed? <==>
            !RebuildsFully(s, req, NO_FAULTS) && s.dirty != {} && Overlong(Lines(s.file))
  {
  }

  lemma OverlongIsWritten(cfg: Settings, s: Replica, full: bool, id: string)
    requires WellFormed(s.db)
    requires id in s.db && Live(s.db[id]) && Keeps(cfg, s.db[id]) && |cfg.json(s.db[id])| >= MAX_LINE
    requires full || id in s.dirty
    ensures Overlong(FileOf(cfg, Listing(ToWrite(cfg, s, full))))
  {
    var m := ToWrite(cfg, s, full);
    ToWriteShows(cfg, s, full);
    assert Shown(cfg, m, id) == Some(s.db[id]);
    ListingElements(m, m[id]);
    var i :| 0 <= i < |Listing(m)| && Listing(m)[i] == m[id];
    assert |FileOf(cfg, Listing(m))[i].text| >= MAX_LINE;
  }

  /** So once an issue that encodes to such a line has been exported, no later change gets out by an
      incremental flush. */
  lemma OverlongIssueBlocksLaterFlushes(cfg: Settings, s: Replica, req: Request, id: string, changed: string)
    requires WellFormed(s.db) && FlushNext(cfg, s, req, NO_FAULTS).1.Written?
    requires id in s.db && Live(s.db[id]) && Keeps(cfg, s.db[id]) && |cfg.json(s.db[id])| >= MAX_LINE
    requires id in s.dirty || RebuildsFully(s, req, NO_FAULTS)
    ensures var t := FlushNext(cfg, s, req, NO_FAULTS).0;
            FlushNext(cfg, t.(dirty := t.dirty + {changed}), Request(true, true, true, false), NO_FAULTS).1.Failed?
  {
    OverlongIsWritten(cfg, s, RebuildsFully(s, req, NO_FAULTS), id);
    WrittenLines(cfg, s, req, NO_FAULTS);
    var t := FlushNext(cfg, s, req, NO_FAULTS).0;
    OverlongLineBlocksFlush(cfg, t.(dirty := t.dirty + {changed}), Request(true, true, true, false));
  }

  /** A hash that could not be stored leaves the old one in force: if the file then reverts to what it
      was, the stale file is trusted. */
  lemma UnstoredHashTrustsRevert(cfg: Settings, a: Issue)
    requires a.id == "a" && a.status == "open" && a.issueType == "task" && Keeps(cfg, a)
    ensures var s := Replica(map["a" := a], {"a"}, Some([]), Some(Hash([])));
            var req := Request(true, true, true, false);
            var (t, out) := FlushNext(cfg, s, req, NO_FAULTS.(putHash := true));
            var (u, again) := FlushNext(cfg, Step(cfg, t, Edit(s.file)), req, NO_FAULTS);
            Inv(cfg, s) && out == Written(false) && again == NothingDirty && !Current(cfg, u)
  {
    var s := Replica(map["a" := a], {"a"}, Some([]), Some(Hash([])));
    assert ToWrite(cfg, s, false) == s.db;
    var t := FlushNext(cfg, s, Request(true, true, true, false), NO_FAULTS.(putHash := true)).0;
    assert t.dirty == {} && t.hash == s.hash;
    OneIssueMissing(cfg, a, Step(cfg, t, Edit(s.file)));
  }

  // The code: loops over Go maps run in an arbitrary order.

  /** `issues` holds each issue of `m` once, in some order. */
  ghost predicate Lists(issues: seq<Issue>, m: map<string, Issue>) {
    && Distinct(issues)
    && forall x :: x in issues <==> x.id in m && m[x.id] == x
  }

  /** The comparison writeJSONLAtomic sorts by. */
  predicate ById(a: Issue, b: Issue) {
    Less(a.id, b.id)
  }

  lemma {:induction false} ByIdIsStrictWeakOrder()
    ensures StrictWeakOrder(ById)
  {
    LessIsStrictWeakOrder();
  }

  function IdsOf(issues: seq<Issue>): seq<string> {
    seq(|issues|, i requires 0 <= i < |issues| => issues[i].id)
  }

  lemma ListingIds(m: map<string, Issue>)
    requires Keyed(m)
    ensures IdsOf(Listing(m)) == Ascending(m.Keys)
  {
    var ids := Ascending(m.Keys);
    forall i | 0 <= i < |ids| ensures Listing(m)[i].id == ids[i] {
      assert ids[i] in m;
    }
  }

  lemma {:induction false} SortedIds(issues: seq<Issue>, m: map<string, Issue>)
    requires Lists(issues, m) && SortedBy(ById, issues)
    ensures Increasing(IdsOf(issues))
  {
    forall i, j | 0 <= i < j < |issues| ensures Less(issues[i].id, issues[j].id) {
      assert !ById(issues[j], issues[i]);
      assert issues[i] in issues && issues[j] in issues;
      LessTrichotomy(issues[i].id, issues[j].id);
    }
  }

  /** Sorting fixes the order whatever order the map was walked in. */
  lemma SortedListing(issues: seq<Issue>, m: map<string, Issue>)
    requires Keyed(m) && Lists(issues, m)
    ensures Sort(ById, issues) == Listing(m)
  {
    var r := Sort(ById, issues);
    ByIdIsStrictWeakOrder();
    SortPermutes(ById, issues);
    SortSorts(ById, issues);
    DistinctPermutation(issues, r);
    SortedIds(r, m);
    ListedIds(r, m);
    IncreasingUnique(IdsOf(r), Ascending(m.Keys));
    ListedAt(r, m);
  }

  lemma ListedIds(issues: seq<Issue>, m: map<string, Issue>)
    requires Keyed(m) && Lists(issues, m)
    ensures forall id :: id in IdsOf(issues) <==> id in m
  {
    forall id ensures id in IdsOf(issues) <==> id in m {
      if id in m {
        assert m[id] in issues;
        var i :| 0 <= i < |issues| && issues[i] == m[id];
        assert IdsOf(issues)[i] == id;
      }
      if id in IdsOf(issues) {
        var i :| 0 <= i < |issues| && IdsOf(issues)[i] == id;
        assert issues[i] in issues;
      }
    }
  }

  lemma ListedAt(issues: seq<Issue>, m: map<string, Issue>)
    requires Lists(issues, m) && IdsOf(issues) == Ascending(m.Keys)
    ensures issues == Listing(m)
  {
    assert |issues| == |IdsOf(issues)|;
    forall i | 0 <= i < |issues| ensures issues[i] == m[Ascending(m.Keys)[i]] {
      assert issues[i] in issues && IdsOf(issues)[i] == issues[i].id;
    }
  }

  lemma FilteredLists(cfg: Settings, issues: seq<Issue>, wispless: seq<Issue>, merged: map<string, Issue>)
    requires Lists(wispless, map id | id in merged && !merged[id].ephemeral :: merged[id])
    requires Distinct(issues) && forall x :: x in issues <==> x in wispless && HasRequiredPrefix(cfg, x)
    ensures Lists(issues, Kept(cfg, merged))
  {
  }

  lemma OverlayMore(db: map<string, Issue>, done: set<string>, id: string, base: map<string, Issue>)
    ensures var m := Overlay(db, done, base);
            Overlay(db, done + {id}, base) == if id in db then m[id := db[id]] else m - {id}
  {
  }

  class Flusher {
    const cfg: Settings
    var db: map<string, Issue>
    var dirty: set<string>
    var file: Option<seq<Line>>
    var hash: Option<Hash>

    constructor (cfg: Settings)
      ensures this.cfg == cfg && View() == EMPTY
    {
      this.cfg := cfg;
      db, dirty, file, hash := map[], {}, None, None;
    }

    ghost function View(): Replica
      reads this
    {
      Replica(db, dirty, file, hash)
    }

    /** validateJSONLIntegrity. An error is always reported wrapped, so it is never taken for "not found". */
    method ValidateIntegrity(fx: Faults) returns (verdict: Verdict)
      modifies this`hash
      ensures (View(), verdict) == Validate(old(View()), fx)
    {
      if fx.getHash { return Broken; }
      if hash == None { return Trusted; }
      if fx.readFile { return Broken; }
      if file == None || Hash(file.value) != hash.value {
        if fx.clearHashes || fx.resetHash { return Broken; }
        hash := None;
        return MustRebuild;
      }
      return Trusted;
    }

    /** getIssuesToExport, in the order the rows come back. */
    method IssuesToExport(full: bool) returns (ids: seq<string>)
      ensures forall id :: id in ids <==> id in ToFetch(View(), full)
    {
      var rest := if full then LiveIds(db) else dirty;
      ids := [];
      while rest != {}
        invariant forall id :: id in ToFetch(View(), full) <==> id in ids || id in rest
        decreases rest
      {
        var id :| id in rest;
        ids, rest := ids + [id], rest - {id};
      }
    }

    /** readExistingJSONL. */
    method ReadExisting(fx: Faults) returns (r: Option<map<string, Issue>>)
      ensures r == if file.Some? && (fx.openFile || Overlong(file.value)) then None else Some(ReadMap(Lines(file)))
    {
      if file == None { return Some(map[]); }
      if fx.openFile { return None; }
      var lines := file.value;
      var m: map<string, Issue> := map[];
      for i := 0 to |lines|
        invariant m == ReadMap(lines[..i])
        invariant !Overlong(lines[..i])
      {
        assert lines[..i + 1][..i] == lines[..i];
        if |lines[i].text| >= MAX_LINE { return None; }
        if lines[i].parsed.Some? {
          var issue := Defaulted(lines[i].parsed.value);
          m := m[issue.id := issue];
        }
      }
      assert lines[..|lines|] == lines;
      return Some(m);
    }

    /** fetchAndMergeIssues. */
    method FetchAndMerge(ids: seq<string>, base: map<string, Issue>, fx: Faults)
      returns (r: Option<map<string, Issue>>)
      ensures var fetched := set id | id in ids;
              r == if fx.unreadable * fetched != {} then None else Some(Overlay(db, fetched, base))
    {
      var m := base;
      ghost var done: set<string> := {};
      for k := 0 to |ids|
        invariant done == set id | id in ids[..k]
        invariant m == Overlay(db, done, base) && done !! fx.unreadable
      {
        var id := ids[k];
        if id in fx.unreadable {
          assert id in fx.unreadable * set x | x in ids;
          return None;
        }
        OverlayMore(db, done, id, base);
        done := done + {id};
        if id in db { m := m[id := db[id]]; } else { m := m - {id}; }
      }
      assert done == set id | id in ids;
      return Some(m);
    }

    /** filterWisps: the map is walked in an arbitrary order. */
    method FilterWisps(m: map<string, Issue>) returns (issues: seq<Issue>)
      requires Keyed(m)
      ensures Lists(issues, map id | id in m && !m[id].ephemeral :: m[id])
    {
      var rest := m.Keys;
      issues := [];
      while rest != {}
        invariant rest <= m.Keys
        invariant Distinct(issues)
        invariant forall x :: x in issues <==> x.id in m && x.id !in rest && m[x.id] == x && !x.ephemeral
        decreases rest
      {
        var id :| id in rest;
        rest := rest - {id};
        if !m[id].ephemeral { issues := issues + [m[id]]; }
      }
    }

    /** filterByMultiRepoPrefix. */
    method FilterByPrefix(issues: seq<Issue>) returns (r: seq<Issue>)
      requires Distinct(issues)
      ensures Distinct(r) && forall x :: x in r <==> x in issues && HasRequiredPrefix(cfg, x)
      ensures !cfg.multiRepo || cfg.primary || (cfg.dbPrefix == "" && cfg.yamlPrefix == "") ==> r == issues
      ensures cfg.multiRepo && !cfg.primary && !(cfg.dbPrefix == "" && cfg.yamlPrefix == "") ==>
                var p := if cfg.dbPrefix != "" then cfg.dbPrefix else cfg.yamlPrefix;
                forall x :: x in r <==> x in issues && (if p[|p| - 1] == '-' then p <= x.id else p + "-" <= x.id)
    {
      var prefix := RequiredPrefix(cfg);
      if prefix == None { return issues; }
      r := [];
      for i := 0 to |issues|
        invariant Distinct(r)
        invariant forall x :: x in r <==> x in issues[..i] && prefix.value <= x.id
      {
        assert issues[i] !in issues[..i];
        if prefix.value <= issues[i].id { r := r + [issues[i]]; }
      }
    }

    method EncodeSorted(sorted: seq<Issue>) returns (lines: seq<Line>, ids: seq<string>)
      ensures lines == FileOf(cfg, sorted) && ids == IdsOf(sorted)
    {
      lines, ids := [], [];
      for i := 0 to |sorted|
        invariant |lines| == |ids| == i
        invariant forall k :: 0 <= k < i ==> lines[k] == Encode(cfg, sorted[k]) && ids[k] == sorted[k].id
      {
        lines, ids := lines + [Encode(cfg, sorted[i])], ids + [sorted[i].id];
      }
    }

    /** writeJSONLAtomic: sort, encode to a temporary file, rename. */
    method WriteAtomic(issues: seq<Issue>, ghost m: map<string, Issue>, fx: Faults)
      returns (exported: Option<seq<string>>)
      requires Keyed(m) && Lists(issues, m)
      modifies this`file
      ensures if fx.write then exported == None && file == old(file)
              else exported == Some(Ascending(m.Keys)) && file == Some(FileOf(cfg, Listing(m)))
    {
      SortedListing(issues, m);
      ListingIds(m);
      var lines, ids := EncodeSorted(Sort(ById, issues));
      if fx.write { return None; }
      file := Some(lines);
      return Some(ids);
    }

    /** ClearDirtyIssuesByID, called for a non-empty list of exported IDs. */
    method ClearDirty(exported: seq<string>, ghost keys: set<string>, fx: Faults)
      requires forall id :: id in exported <==> id in keys
      modifies this`dirty
      ensures dirty == if fx.clearDirty then old(dirty) else old(dirty) - keys
    {
      assert |exported| > 0 ==> exported[0] in keys;
      if |exported| > 0 && !fx.clearDirty {
        dirty := dirty - set id | id in exported;
      }
    }

    /** updateFlushExportMetadata. */
    method UpdateMetadata(fx: Faults) returns (hashed: bool)
      requires file.Some?
      modifies this`hash
      ensures hashed == (!fx.readBack && !fx.putHash)
      ensures hash == if hashed then Some(Hash(file.value)) else old(hash)
    {
      hashed := !fx.readBack && !fx.putHash;
      if hashed { hash := Some(Hash(file.value)); }
    }

    /** flushToJSONLWithState. */
    method Flush(req: Request, fx: Faults) returns (out: Outcome)
      requires WellFormed(db)
      modifies this
      ensures (View(), out) == FlushNext(cfg, old(View()), req, fx)
    {
      if !req.active || !req.jsonlMode { return Skipped; }
      var verdict := ValidateIntegrity(fx);
      if verdict == Broken { return Failed; }
      if !req.forceDirty && verdict != MustRebuild { return Skipped; }
      out := ExportIssues(req.forceFull || verdict == MustRebuild, fx);
    }

    /** Lines 919 to 969. */
    method ExportIssues(full: bool, fx: Faults) returns (out: Outcome)
      requires WellFormed(db)
      modifies this
      ensures (View(), out) == Export(cfg, old(View()), full, fx)
    {
      if fx.list { return Failed; }
      var ids := IssuesToExport(full);
      assert ToFetch(View(), full) == set id | id in ids;
      if |ids| == 0 && !full { return NothingDirty; }
      assert ids == [] || ids[0] in ToFetch(View(), full);
      var base: map<string, Issue> := map[];
      if !full {
        var read := ReadExisting(fx);
        if read == None { return Failed; }
        base := read.value;
      }
      var merged := FetchAndMerge(ids, base, fx);
      if merged == None { return Failed; }
      ReadMapKeyed(Lines(file));
      ghost var m := ToWrite(cfg, View(), full);
      assert m == Kept(cfg, merged.value);
      var wispless := FilterWisps(merged.value);
      var issues := FilterByPrefix(wispless);
      FilteredLists(cfg, issues, wispless, merged.value);
      var exported := WriteAtomic(issues, m, fx);
      if exported == None { return Failed; }
      ClearDirty(exported.value, m.Keys, fx);
      var hashed := UpdateMetadata(fx);
      return Written(hashed);
    }
  }
}
