/**
 The event loop driving the export: every performFlush of the manager is one flush of the replica, which may
 fail, while other programs may edit the file. The promise of cmd/binds/autoflush.go that no data is lost on
 exit, and exactly what it depends on.
 */
module FlushSystem {
  import A = Autoflush
  import M = FlushManager
  import opened Order

  /** `unannounced` counts changes whose MarkDirty call has not happened yet. The rest is history: the database
      at the last performFlush that went through, whether the file was edited from outside since, and whether
      the last performFlush did not go through. */
  datatype System = System(mgr: M.State, store: A.Replica, unannounced: nat,
                           flushed: map<string, A.Issue>, edited: bool, failed: bool)

  datatype Event =
    | Change(id: string, value: Option<A.Issue>)   // the store commits a change and marks the ID dirty
    | Announce(fullExport: bool)                   // the MarkDirty call that follows, accepted
    | AnnounceIgnored                              // the same call finding the context cancelled
    | Edit(file: Option<seq<A.Line>>)              // another program rewrites or removes the file
    | Perform(open: bool, fx: A.Faults)            // performFlush, with the store open or closed, returns
    | Manager(e: M.Event)                          // anything else the manager does

  function Init(): System {
    System(M.Init(true), A.EMPTY, 0, map[], false, false)
  }

  function ManagerEvent(e: Event): M.Event {
    match e
    case Announce(full) => M.SendMark(full)
    case AnnounceIgnored => M.IgnoreMark
    case Perform(_, _) => M.FinishFlush
    case Manager(e) => e
    case _ => M.IgnoreMark
  }

  /** What performFlush asks of flushToJSONLWithState. */
  function FlushRequest(open: bool, full: bool): A.Request {
    A.Request(open, true, true, full)
  }

  ghost function Flush(cfg: A.Settings, s: System, open: bool, fx: A.Faults): (A.Replica, A.Outcome) {
    A.FlushNext(cfg, s.store, FlushRequest(open, s.mgr.loop.needsFullExport), fx)
  }

  predicate WentThrough(out: A.Outcome) {
    out.Written? || out.NothingDirty?
  }

  /** Changes, edits and faults are those the export's own histories admit. */
  ghost predicate Enabled(cfg: A.Settings, s: System, e: Event) {
    match e
    case Change(id, value) => A.Admissible(cfg, s.store, A.Change(id, value))
    case Announce(_) => s.unannounced > 0 && M.Enabled(s.mgr, ManagerEvent(e))
    case AnnounceIgnored => s.unannounced > 0 && M.Enabled(s.mgr, ManagerEvent(e))
    case Edit(file) => A.Admissible(cfg, s.store, A.Edit(file))
    case Perform(open, fx) =>
      && M.Enabled(s.mgr, M.FinishFlush)
      && A.Admissible(cfg, s.store, A.Flush(FlushRequest(open, s.mgr.loop.needsFullExport), fx))
    case Manager(e) => !e.FinishFlush? && M.Enabled(s.mgr, e)
  }

  ghost function Performed(cfg: A.Settings, s: System, open: bool, fx: A.Faults): System
    requires M.Enabled(s.mgr, M.FinishFlush)
  {
    var (t, out) := Flush(cfg, s, open, fx);
    System(M.Finish(s.mgr), t, s.unannounced, if WentThrough(out) then s.store.db else s.flushed,
           s.edited && !WentThrough(out), !WentThrough(out))
  }

  ghost function Next(cfg: A.Settings, s: System, e: Event): System
    requires Enabled(cfg, s, e)
  {
    match e
    case Change(id, value) =>
      s.(store := A.Step(cfg, s.store, A.Change(id, value)), unannounced := s.unannounced + 1)
    case Announce(_) => s.(mgr := M.Next(s.mgr, ManagerEvent(e)), unannounced := s.unannounced - 1)
    case AnnounceIgnored => s.(mgr := M.Next(s.mgr, ManagerEvent(e)), unannounced := s.unannounced - 1)
    case Edit(file) => s.(store := s.store.(file := file), edited := true)
    case Perform(open, fx) => Performed(cfg, s, open, fx)
    case Manager(m) => s.(mgr := M.Next(s.mgr, m))
  }

  ghost function Try(cfg: A.Settings, s: System, e: Event): System {
    if Enabled(cfg, s, e) then Next(cfg, s, e) else s
  }

  /** A schedule; events that are not enabled when their turn comes do not happen. */
  ghost function Execute(cfg: A.Settings, s: System, es: seq<Event>): System {
    if es == [] then s else Try(cfg, Execute(cfg, s, es[..|es| - 1]), es[|es| - 1])
  }

  lemma ExecuteOneMore(cfg: A.Settings, s: System, es: seq<Event>, e: Event)
    ensures Execute(cfg, s, es + [e]) == Try(cfg, Execute(cfg, s, es), e)
  {
    assert (es + [e])[..|es|] == es;
  }

  lemma OneStep(cfg: A.Settings, s: System, e: Event)
    ensures Execute(cfg, s, [e]) == Try(cfg, s, e)
  {
    assert Execute(cfg, s, []) == s && [e][..0] == [];
  }

  lemma TwoSteps(cfg: A.Settings, s: System, a: Event, b: Event)
    ensures Execute(cfg, s, [a, b]) == Try(cfg, Try(cfg, s, a), b)
  {
    assert [a] + [b] == [a, b];
    OneStep(cfg, s, a);
    ExecuteOneMore(cfg, s, [a], b);
  }

  lemma {:induction false} ExecuteConcat(cfg: A.Settings, s: System, a: seq<Event>, b: seq<Event>)
    ensures Execute(cfg, s, a + b) == Execute(cfg, Execute(cfg, s, a), b)
  {
    if b == [] {
      assert a + b == a;
    } else {
      assert (a + b)[..|a + b| - 1] == a + b[..|b| - 1];
      ExecuteConcat(cfg, s, a, b[..|b| - 1]);
    }
  }

  // The invariant.

  /** Nothing that changed is still on its way to a flush. */
  predicate Quiet(s: System) {
    s.unannounced == 0 && s.mgr.log.ignored == 0 && s.mgr.ch.marks == [] && s.mgr.log.pending == []
  }

  /** Unless edited since, the file shows the database of the last flush that went through. */
  ghost predicate Remembers(cfg: A.Settings, s: System) {
    A.WellFormed(s.flushed) && (!s.edited ==> A.LiveIssues(A.Lines(s.store.file)) == A.FullExport(cfg, s.flushed))
  }

  ghost predicate Inv(cfg: A.Settings, s: System) {
    && M.Inv(s.mgr)
    && A.Inv(cfg, s.store)
    && Remembers(cfg, s)
    && (Quiet(s) && !s.failed ==> s.flushed == s.store.db)
  }

  /** What one performFlush leaves behind: if it went through, the full export of the database as it stands; if
      not, the file, the database and the marks of the store as they were. */
  lemma PerformLeaves(cfg: A.Settings, s: System, open: bool, fx: A.Faults)
    requires Inv(cfg, s) && Enabled(cfg, s, Perform(open, fx))
    ensures var t, out := Performed(cfg, s, open, fx), Flush(cfg, s, open, fx).1;
            && t.store.db == s.store.db && A.Inv(cfg, t.store) && Remembers(cfg, t) && t.mgr.log.pending == []
            && (if WentThrough(out) then A.Current(cfg, t.store) && t.flushed == s.store.db && !t.edited && !t.failed
                else t.store == s.store && t.flushed == s.flushed && t.failed)
  {
    FlushLeaves(cfg, s.store, FlushRequest(open, s.mgr.loop.needsFullExport), fx);
    assert M.Finish(s.mgr).log.pending == [];
  }

  lemma FlushLeaves(cfg: A.Settings, r: A.Replica, req: A.Request, fx: A.Faults)
    requires A.Inv(cfg, r) && A.Admissible(cfg, r, A.Flush(req, fx))
    ensures var (t, out) := A.FlushNext(cfg, r, req, fx);
            && A.Inv(cfg, t) && t.db == r.db
            && if WentThrough(out) then A.Current(cfg, t) else t == r
  {
    A.FlushKeepsInv(cfg, r, req, fx);
    A.InvFlushIsCurrent(cfg, r, req, fx);
    if A.FlushNext(cfg, r, req, fx).1.Failed? { A.FailureKeepsFile(cfg, r, req, fx); }
  }

  /** Only a flush takes marks off the pending ones, and no event takes back an ignored one. */
  lemma NotQuieter(s: M.State, e: M.Event)
    requires M.Enabled(s, e) && !e.FinishFlush?
    ensures var t := M.Next(s, e);
            && (t.log.ignored == 0 && t.ch.marks == [] && t.log.pending == [] ==>
                  !e.SendMark? && !e.IgnoreMark? && s.log.ignored == 0 && s.ch.marks == [] && s.log.pending == [])
  {
  }

  lemma StoreKeepsInv(cfg: A.Settings, s: System, e: Event)
    requires Inv(cfg, s) && Enabled(cfg, s, e) && (e.Change? || e.Edit?)
    ensures Inv(cfg, Next(cfg, s, e))
  {
    A.StepKeepsInv(cfg, s.store, if e.Change? then A.Change(e.id, e.value) else A.Edit(e.file));
  }

  lemma {:induction false} NextKeepsInv(cfg: A.Settings, s: System, e: Event)
    requires Inv(cfg, s) && Enabled(cfg, s, e)
    ensures Inv(cfg, Next(cfg, s, e))
  {
    if e.Change? || e.Edit? {
      StoreKeepsInv(cfg, s, e);
    } else {
      M.NextKeepsInv(s.mgr, ManagerEvent(e));
      if e.Perform? { PerformLeaves(cfg, s, e.open, e.fx); } else { NotQuieter(s.mgr, ManagerEvent(e)); }
    }
  }

  lemma {:induction false} Reachable(cfg: A.Settings, es: seq<Event>)
    ensures Inv(cfg, Execute(cfg, Init(), es))
  {
    if es != [] {
      Reachable(cfg, es[..|es| - 1]);
      var s, e := Execute(cfg, Init(), es[..|es| - 1]), es[|es| - 1];
      if Enabled(cfg, s, e) { NextKeepsInv(cfg, s, e); }
    } else {
      InitInv(cfg);
    }
  }

  lemma InitInv(cfg: A.Settings)
    ensures Inv(cfg, Init())
  {
    A.EmptyInv(cfg);
    assert A.LiveOnly(A.Kept(cfg, map[])) == map[];
    assert A.LiveIssues([]) == [] && A.FullExport(cfg, map[]) == [];
  }

  // What the two together promise.

  /** Whatever the schedule of changes, marks, timers, requests, outside edits, faults and shutdown: each
      performFlush that goes through leaves the live part of the file equal to the full export of the database
      as it then stands; one that does not leaves the store and the file alone. Either way the loop has
      nothing pending afterwards. */
  lemma EveryPerformFlushIsCurrent(cfg: A.Settings, es: seq<Event>, s: System, open: bool, fx: A.Faults)
    requires s == Execute(cfg, Init(), es) && Enabled(cfg, s, Perform(open, fx))
    ensures var t, out := Performed(cfg, s, open, fx), Flush(cfg, s, open, fx).1;
            && t.mgr.log.pending == [] && t.store.db == s.store.db
            && (if WentThrough(out) then A.Current(cfg, t.store) else t.store == s.store)
  {
    Reachable(cfg, es);
    PerformLeaves(cfg, s, open, fx);
  }

  /** Exactly when the file is current, in every reachable state where nobody has edited it since the last
      performFlush that went through: when the database shows of every issue what it showed then. */
  lemma CurrentExactly(cfg: A.Settings, es: seq<Event>, s: System)
    requires s == Execute(cfg, Init(), es) && !s.edited
    ensures A.Current(cfg, s.store) <==> forall id :: A.Shown(cfg, s.store.db, id) == A.Shown(cfg, s.flushed, id)
  {
    Reachable(cfg, es);
    A.SameExport(cfg, s.store.db, s.flushed);
  }

  /** Flush on exit: if every change was announced, every announcement taken by the loop before it took the
      shutdown request, and the last performFlush went through, the last change is in the file. */
  lemma NothingLostOnExit(cfg: A.Settings, es: seq<Event>, s: System)
    requires s == Execute(cfg, Init(), es)
    requires s.mgr.loop.phase == M.Exited && s.mgr.callers.shutdown != M.TimedOut
    requires s.unannounced == 0 && s.mgr.log.ignored == 0 && s.mgr.ch.marks == [] && !s.failed && !s.edited
    ensures s.flushed == s.store.db && A.Current(cfg, s.store)
  {
    Reachable(cfg, es);
    CurrentExactly(cfg, es, s);
  }

  ghost predicate TakesNoMark(es: seq<Event>) {
    forall i :: 0 <= i < |es| ==> es[i] != Manager(M.TakeMark)
  }

  ghost predicate Unedited(es: seq<Event>) {
    forall i :: 0 <= i < |es| ==> !es[i].Edit?
  }

  /** The loop clears its flags whether or not a flush went through: with nothing pending, no schedule brings
      another performFlush until the loop takes a new mark, and the file stays as it is. */
  lemma {:induction false} FailedFlushIsNotRetried(cfg: A.Settings, s: System, es: seq<Event>)
    requires Inv(cfg, s) && s.mgr.log.pending == [] && TakesNoMark(es)
    ensures var t := Execute(cfg, s, es);
            && Inv(cfg, t) && t.mgr.log.pending == []
            && t.mgr.log.batches == s.mgr.log.batches && t.flushed == s.flushed
            && (Unedited(es) ==> t.store.file == s.store.file)
  {
    if es != [] {
      FailedFlushIsNotRetried(cfg, s, es[..|es| - 1]);
      var t, e := Execute(cfg, s, es[..|es| - 1]), es[|es| - 1];
      if Enabled(cfg, t, e) { NothingFlushed(cfg, t, e); }
    }
  }

  lemma NothingFlushed(cfg: A.Settings, s: System, e: Event)
    requires Inv(cfg, s) && s.mgr.log.pending == [] && Enabled(cfg, s, e) && e != Manager(M.TakeMark)
    ensures var t := Next(cfg, s, e);
            && Inv(cfg, t) && t.mgr.log.pending == []
            && t.mgr.log.batches == s.mgr.log.batches && t.flushed == s.flushed
            && (!e.Edit? ==> t.store.file == s.store.file)
  {
    NextKeepsInv(cfg, s, e);
    NotFlushing(s.mgr);
    if e.Announce? || e.AnnounceIgnored? || e.Manager? { NoFlushWithoutMark(s.mgr, ManagerEvent(e)); }
  }

  lemma NotFlushing(s: M.State)
    requires M.Inv(s) && s.log.pending == []
    ensures !M.Enabled(s, M.FinishFlush)
  {
  }

  lemma NoFlushWithoutMark(s: M.State, e: M.Event)
    requires M.Enabled(s, e) && !e.FinishFlush? && !e.TakeMark?
    ensures M.Next(s, e).log.pending == s.log.pending && M.Next(s, e).log.batches == s.log.batches
  {
  }

  /** A FlushNow request is answered whether or not its flush went through, and the answer does not tell. */
  lemma AnsweredEitherWay(cfg: A.Settings, s: System, open: bool, fx: A.Faults, request: nat)
    requires Inv(cfg, s) && Enabled(cfg, s, Perform(open, fx)) && s.mgr.loop.phase == M.Flushing(M.ByRequest(request))
    ensures var t := Performed(cfg, s, open, fx);
            && |t.mgr.log.responses| == |s.mgr.log.responses| + 1
            && t.mgr.log.responses[|s.mgr.log.responses|].request == request
            && (A.Current(cfg, t.store) || (!WentThrough(Flush(cfg, s, open, fx).1) && t.store == s.store))
  {
    PerformLeaves(cfg, s, open, fx);
  }

  /** What full marks are for: after a performFlush that writes, the file holds a tombstone if and only if no mark it
      answers for asked for a full export, the file was not edited against its hash, and the tombstone is a marked
      one of the database or an unmarked one of the old file. */
  lemma TombstonesAfterPerform(cfg: A.Settings, s: System, open: bool, fx: A.Faults, id: string)
    requires M.FlagsSound(s.mgr) && A.WellFormed(s.store.db) && s.mgr.loop.phase.Flushing?
    requires Flush(cfg, s, open, fx).1.Written?
    ensures var after := A.ReadMap(A.Lines(Flush(cfg, s, open, fx).0.file));
            var before := A.ReadMap(A.Lines(s.store.file));
            (id in after && after[id].status == "tombstone") <==>
            && (forall i :: 0 <= i < |s.mgr.log.pending| ==> !s.mgr.log.pending[i].fullExport)
            && !A.Mismatched(s.store)
            && if id in s.store.dirty
               then id in s.store.db && s.store.db[id].status == "tombstone" && A.Keeps(cfg, s.store.db[id])
               else id in before && before[id].status == "tombstone" && A.Keeps(cfg, before[id])
  {
    FullIffAsked(s.mgr);
    TombstonesLeft(cfg, s.store, open, s.mgr.loop.needsFullExport, fx, id);
  }

  lemma FullIffAsked(s: M.State)
    requires M.FlagsSound(s) && s.loop.phase.Flushing?
    ensures s.loop.needsFullExport <==> exists i :: 0 <= i < |s.log.pending| && s.log.pending[i].fullExport
  {
  }

  lemma TombstonesLeft(cfg: A.Settings, r: A.Replica, open: bool, full: bool, fx: A.Faults, id: string)
    requires A.WellFormed(r.db) && A.FlushNext(cfg, r, FlushRequest(open, full), fx).1.Written?
    ensures var after := A.ReadMap(A.Lines(A.FlushNext(cfg, r, FlushRequest(open, full), fx).0.file));
            var before := A.ReadMap(A.Lines(r.file));
            (id in after && after[id].status == "tombstone") <==>
            && !full && !A.Mismatched(r)
            && if id in r.dirty then id in r.db && r.db[id].status == "tombstone" && A.Keeps(cfg, r.db[id])
               else id in before && before[id].status == "tombstone" && A.Keeps(cfg, before[id])
  {
    A.TombstonesAfterFlush(cfg, r, FlushRequest(open, full), fx, id);
    A.RebuildsExactly(r, FlushRequest(open, full), fx);
    A.OutcomeExactly(cfg, r, FlushRequest(open, full), fx);
  }

  // When a flush goes through.

  /** No issue of the database or of the file a flush will trust encodes to a line over the scanner's limit. */
  ghost predicate Short(cfg: A.Settings, r: A.Replica) {
    (forall id :: id in r.db ==> |cfg.json(r.db[id])| < A.MAX_LINE) && !A.Overlong(A.TrustedLines(r))
  }

  lemma ReadIsShort(cfg: A.Settings, lines: seq<A.Line>)
    requires A.Canonical(cfg, lines) && !A.Overlong(lines)
    ensures forall id :: id in A.ReadMap(lines) ==> |cfg.json(A.ReadMap(lines)[id])| < A.MAX_LINE
  {
    A.CanonicalRead(cfg, lines);
    forall id | id in A.ReadMap(lines) ensures |cfg.json(A.ReadMap(lines)[id])| < A.MAX_LINE {
      var i :| 0 <= i < |A.Ids(lines)| && A.Ids(lines)[i] == id;
      assert |lines[i].text| < A.MAX_LINE;
    }
  }

  lemma WrittenIsShort(cfg: A.Settings, r: A.Replica, full: bool)
    requires A.Inv(cfg, r) && Short(cfg, r) && (full || A.Lines(r.file) == A.TrustedLines(r))
    ensures !A.Overlong(A.FileOf(cfg, A.Listing(A.ToWrite(cfg, r, full))))
  {
    var m := A.ToWrite(cfg, r, full);
    var lines := A.FileOf(cfg, A.Listing(m));
    A.ToWriteShows(cfg, r, full);
    if !full { ReadIsShort(cfg, A.Lines(r.file)); }
    forall i | 0 <= i < |lines| ensures |lines[i].text| < A.MAX_LINE {
      assert A.Listing(m)[i] in A.Listing(m);
      A.ListingElements(m, A.Listing(m)[i]);
    }
  }

  /** A flush of an open store whose calls succeed goes through, whatever was done to the file, if no line is
      over the limit; and it leaves none. */
  lemma FlushSucceeds(cfg: A.Settings, r: A.Replica, full: bool)
    requires A.Inv(cfg, r) && Short(cfg, r)
    ensures var (t, out) := A.FlushNext(cfg, r, FlushRequest(true, full), A.NO_FAULTS);
            WentThrough(out) && Short(cfg, t) && A.Current(cfg, t) && t.db == r.db
  {
    var req := FlushRequest(true, full);
    A.OverlongLineBlocksFlush(cfg, r, req);
    A.InvFlushIsCurrent(cfg, r, req, A.NO_FAULTS);
    if A.FlushNext(cfg, r, req, A.NO_FAULTS).1.Written? {
      A.WrittenLines(cfg, r, req, A.NO_FAULTS);
      WrittenIsShort(cfg, r, A.RebuildsFully(r, req, A.NO_FAULTS));
    }
  }

  /** An event of a run without faults and without issues over the limit; edits of the file are allowed. */
  predicate Benign(cfg: A.Settings, e: Event) {
    match e
    case Change(_, Some(issue)) => |cfg.json(issue)| < A.MAX_LINE
    case Perform(open, fx) => open && fx == A.NO_FAULTS
    case _ => true
  }

  /** In such a run every performFlush goes through. */
  lemma {:induction false} BenignNeverFails(cfg: A.Settings, es: seq<Event>)
    requires forall i :: 0 <= i < |es| ==> Benign(cfg, es[i])
    ensures var s := Execute(cfg, Init(), es);
            !s.failed && Short(cfg, s.store)
  {
    if es != [] {
      BenignNeverFails(cfg, es[..|es| - 1]);
      var s, e := Execute(cfg, Init(), es[..|es| - 1]), es[|es| - 1];
      Reachable(cfg, es[..|es| - 1]);
      if Enabled(cfg, s, e) { BenignStep(cfg, s, e); }
    }
  }

  lemma BenignStep(cfg: A.Settings, s: System, e: Event)
    requires A.Inv(cfg, s.store) && Short(cfg, s.store) && !s.failed && Enabled(cfg, s, e) && Benign(cfg, e)
    ensures !Next(cfg, s, e).failed && Short(cfg, Next(cfg, s, e).store)
  {
    if e.Perform? {
      FlushSucceeds(cfg, s.store, s.mgr.loop.needsFullExport);
    } else if e.Change? || e.Edit? {
      StoreStaysShort(cfg, s.store, if e.Change? then A.Change(e.id, e.value) else A.Edit(e.file));
    }
  }

  lemma StoreStaysShort(cfg: A.Settings, r: A.Replica, e: A.Event)
    requires Short(cfg, r) && A.Admissible(cfg, r, e) && (e.Change? || e.Edit?)
    requires e.Change? && e.value.Some? ==> |cfg.json(e.value.value)| < A.MAX_LINE
    ensures Short(cfg, A.Step(cfg, r, e))
  {
  }

  // Schedules.

  function AddA(a: A.Issue): seq<Event> {
    [Change("a", Some(a)), Announce(false)]
  }

  lemma Added(cfg: A.Settings, s: System, id: string, x: A.Issue)
    requires x.id == id && x.status == "open" && x.issueType == "task" && M.Enabled(s.mgr, M.SendMark(false))
    ensures var t := Execute(cfg, s, [Change(id, Some(x)), Announce(false)]);
            && t.mgr == M.Next(s.mgr, M.SendMark(false)) && t.unannounced == s.unannounced
            && t.store == A.Step(cfg, s.store, A.Change(id, Some(x)))
            && t.flushed == s.flushed && t.edited == s.edited && t.failed == s.failed
  {
    TwoSteps(cfg, s, Change(id, Some(x)), Announce(false));
  }

  lemma Managed(cfg: A.Settings, s: System, a: M.Event, b: M.Event)
    requires !a.FinishFlush? && !b.FinishFlush? && M.Enabled(s.mgr, a) && M.Enabled(M.Next(s.mgr, a), b)
    ensures Execute(cfg, s, [Manager(a), Manager(b)]) == s.(mgr := M.Next(M.Next(s.mgr, a), b))
  {
    TwoSteps(cfg, s, Manager(a), Manager(b));
  }

  /** The promise fails when it is outrun: a change whose mark is still buffered when the loop takes the shutdown
      request, with nothing else to flush, never reaches the file. */
  lemma BufferedChangeIsLostOnExit(cfg: A.Settings, a: A.Issue)
    requires a.id == "a" && a.status == "open" && a.issueType == "task" && A.Keeps(cfg, a)
    ensures var s := Execute(cfg, Init(), AddA(a) + [Manager(M.SendShutdown), Manager(M.TakeShutdown)]);
            s.mgr.callers.shutdown == M.Answered && s.unannounced == 0 && !A.Current(cfg, s.store)
  {
    ExecuteConcat(cfg, Init(), AddA(a), [Manager(M.SendShutdown), Manager(M.TakeShutdown)]);
    Added(cfg, Init(), "a", a);
    var s := Execute(cfg, Init(), AddA(a));
    Managed(cfg, s, M.SendShutdown, M.TakeShutdown);
    assert s.store.db == map["a" := a];
    A.OneIssueMissing(cfg, a, s.store);
  }

  /** An outrun mark need not mean an outrun change: while the last flush waits to start, a second change can
      still commit. Its mark is never taken, and it reaches the file all the same. */
  lemma OutrunMarkMayStillReachFile(cfg: A.Settings, a: A.Issue, b: A.Issue)
    requires a.id == "a" && a.status == "open" && a.issueType == "task"
    requires b.id == "b" && b.status == "open" && b.issueType == "task" && A.Keeps(cfg, b)
    ensures var s := Execute(cfg, Init(), UntilLastFlush(a) + ([Change("b", Some(b)), Announce(false)] +
                                                              [Perform(true, A.NO_FAULTS)]));
            && s.mgr.loop.phase == M.Exited && s.mgr.ch.marks == [M.Mark(false)]
            && A.Current(cfg, s.store) && A.Shown(cfg, s.store.db, "b") == Some(b)
  {
    var r := Execute(cfg, Init(), UntilLastFlush(a));
    LastFlushWaits(cfg, a);
    var add, perform := [Change("b", Some(b)), Announce(false)], [Perform(true, A.NO_FAULTS)];
    ExecuteConcat(cfg, Init(), UntilLastFlush(a), add + perform);
    ExecuteConcat(cfg, r, add, perform);
    Added(cfg, r, "b", b);
    var t := Execute(cfg, r, add);
    ExecuteConcat(cfg, Init(), UntilLastFlush(a), add);
    Reachable(cfg, UntilLastFlush(a) + add);
    LastFlushRuns(cfg, t, b);
  }

  function UntilLastFlush(a: A.Issue): seq<Event> {
    (AddA(a) + [Manager(M.TakeMark), Manager(M.SendShutdown)]) + [Manager(M.TakeShutdown)]
  }

  lemma LastFlushWaits(cfg: A.Settings, a: A.Issue)
    requires a.id == "a" && a.status == "open" && a.issueType == "task"
    ensures var s := Execute(cfg, Init(), UntilLastFlush(a));
            && s.mgr.enabled && s.mgr.ch.marks == [] && s.mgr.loop.phase == M.Flushing(M.ByShutdown)
            && s.store.hash.None? && s.store.file.None?
  {
    Added(cfg, Init(), "a", a);
    var s := Execute(cfg, Init(), AddA(a));
    ExecuteConcat(cfg, Init(), AddA(a), [Manager(M.TakeMark), Manager(M.SendShutdown)]);
    Managed(cfg, s, M.TakeMark, M.SendShutdown);
    ExecuteOneMore(cfg, Init(), AddA(a) + [Manager(M.TakeMark), Manager(M.SendShutdown)], Manager(M.TakeShutdown));
  }

  lemma LastFlushRuns(cfg: A.Settings, s: System, b: A.Issue)
    requires Inv(cfg, s) && s.mgr.loop.phase == M.Flushing(M.ByShutdown) && s.mgr.ch.marks == [M.Mark(false)]
    requires s.store.hash.None? && s.store.file.None?
    requires "b" in s.store.db && s.store.db["b"] == b && b.status == "open" && A.Keeps(cfg, b)
    ensures var t := Execute(cfg, s, [Perform(true, A.NO_FAULTS)]);
            && t.mgr.loop.phase == M.Exited && t.mgr.ch.marks == [M.Mark(false)]
            && A.Current(cfg, t.store) && A.Shown(cfg, t.store.db, "b") == Some(b)
  {
    FlushGoesThrough(cfg, s.store, s.mgr.loop.needsFullExport);
    OneStep(cfg, s, Perform(true, A.NO_FAULTS));
    assert Try(cfg, s, Perform(true, A.NO_FAULTS)) == Performed(cfg, s, true, A.NO_FAULTS);
    PerformLeaves(cfg, s, true, A.NO_FAULTS);
    FinishKeeps(s.mgr);
  }

  lemma FinishKeeps(s: M.State)
    requires s.loop.phase == M.Flushing(M.ByShutdown)
    ensures M.Finish(s).loop.phase == M.Exited && M.Finish(s).ch == s.ch
  {
  }

  lemma FlushGoesThrough(cfg: A.Settings, r: A.Replica, full: bool)
    requires r.hash.None? && r.file.None?
    ensures WentThrough(A.FlushNext(cfg, r, FlushRequest(true, full), A.NO_FAULTS).1)
    ensures A.Admissible(cfg, r, A.Flush(FlushRequest(true, full), A.NO_FAULTS))
  {
    A.OverlongLineBlocksFlush(cfg, r, FlushRequest(true, full));
  }
}
