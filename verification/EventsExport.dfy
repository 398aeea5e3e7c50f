/**
 The event log export of cmd/binds/events_export.go: a file that grows by appending and a stored
 high-water mark, as small steps that a crash can interrupt anywhere. Any number of processes may have an
 export or a reset under way, with no lock between them. An absent file counts as empty.
 */
module EventsExport {
  import opened Order

  datatype Event = Event(id: nat, payload: string)

  /** A line of the file: an event, or text that is no event. */
  datatype Line = Whole(event: Event) | Garbled

  /** The file. `openTail`: a write was cut short and the last line has no end yet; whatever is appended
      next continues it. */
  datatype Tape = Tape(lines: seq<Line>, openTail: bool)

  /** What one process is doing: it has read the mark, it is writing what it fetched up to `upTo`, or it
      has cleared the mark and not yet truncated the file. */
  datatype Proc = Reading(since: nat) | Exporting(todo: seq<Event>, maxId: nat, upTo: nat) | Resetting

  /** `lastId` is the highest ID ever recorded, `mark` None the empty string of events_last_exported_id.
      `floor` is history: the highest ID recorded when the file was last truncated. */
  datatype State = State(db: seq<Event>, lastId: nat, mark: Option<nat>, tape: Tape, procs: map<nat, Proc>, floor: nat)

  datatype Step =
    | Create(payload: string)              // the store records an event
    | Forget(id: nat)                      // an event goes with its deleted issue
    | ReadMark(p: nat, unread: bool)       // an export starts; an error counts as no mark
    | Fetch(p: nat)                        // it fetches what lies above the mark it read
    | AppendOne(p: nat)                    // one event encoded and written
    | TearOne(p: nat)                      // the write of one event cut short, and the export given up
    | FinishExport(p: nat, stored: bool)   // store the new mark, or fail to
    | BeginReset(p: nat)                   // clear the mark
    | FinishReset(p: nat)                  // truncate the file
    | Crash(p: nat)                        // the process dies, or a call fails and it gives up

  const INIT := State([], 0, None, Tape([], false), map[], 0)

  function Since(db: seq<Event>, id: nat): seq<Event> {
    if db == [] then []
    else Since(db[..|db| - 1], id) + if db[|db| - 1].id > id then [db[|db| - 1]] else []
  }

  function Dropping(db: seq<Event>, id: nat): seq<Event> {
    if db == [] then []
    else Dropping(db[..|db| - 1], id) + if db[|db| - 1].id == id then [] else [db[|db| - 1]]
  }

  function Append(tape: Tape, e: Event): Tape {
    Tape(tape.lines + [if tape.openTail then Garbled else Whole(e)], false)
  }

  function MarkValue(s: State): nat {
    if s.mark.Some? then s.mark.value else 0
  }

  /** What an export would fetch. */
  function Found(s: State, unread: bool): seq<Event> {
    Since(s.db, if unread then 0 else MarkValue(s))
  }

  predicate Writing(s: State, p: nat) {
    p in s.procs && s.procs[p].Exporting?
  }

  predicate Enabled(s: State, step: Step) {
    match step
    case Create(_) => true
    case Forget(_) => true
    case ReadMark(p, _) => p !in s.procs
    case Fetch(p) => p in s.procs && s.procs[p].Reading?
    case AppendOne(p) => Writing(s, p) && s.procs[p].todo != []
    case TearOne(p) => Writing(s, p) && s.procs[p].todo != []
    case FinishExport(p, _) => Writing(s, p) && s.procs[p].todo == []
    case BeginReset(p) => p !in s.procs
    case FinishReset(p) => p in s.procs && s.procs[p].Resetting?
    case Crash(p) => p in s.procs
  }

  function Fetched(s: State, p: nat): State
    requires Enabled(s, Fetch(p))
  {
    var events := Since(s.db, s.procs[p].since);
    s.(procs := if events == [] then s.procs - {p} else s.procs[p := Exporting(events, 0, events[|events| - 1].id)])
  }

  function Appended(s: State, p: nat): State
    requires Enabled(s, AppendOne(p))
  {
    var w := s.procs[p];
    var e := w.todo[0];
    s.(tape := Append(s.tape, e),
    procs := s.procs[p := Exporting(w.todo[1..], if e.id > w.maxId then e.id else w.maxId, w.upTo)])
  }

  function Next(s: State, step: Step): State
    requires Enabled(s, step)
  {
    match step
    case Create(payload) => s.(db := s.db + [Event(s.lastId + 1, payload)], lastId := s.lastId + 1)
    case Forget(id) => s.(db := Dropping(s.db, id))
    case ReadMark(p, unread) => s.(procs := s.procs[p := Reading(if unread then 0 else MarkValue(s))])
    case Fetch(p) => Fetched(s, p)
    case AppendOne(p) => Appended(s, p)
    case TearOne(p) => s.(tape := s.tape.(openTail := true), procs := s.procs - {p})
    case FinishExport(p, stored) =>
      s.(mark := if stored then Some(s.procs[p].maxId) else s.mark, procs := s.procs - {p})
    case BeginReset(p) => s.(mark := None, procs := s.procs[p := Resetting])
    case FinishReset(p) => s.(tape := Tape([], false), procs := s.procs - {p}, floor := s.lastId)
    case Crash(p) => s.(procs := s.procs - {p})
  }

  function Try(s: State, step: Step): State {
    if Enabled(s, step) then Next(s, step) else s
  }

  /** A schedule; steps that are not enabled when their turn comes do not happen. */
  function Execute(s: State, steps: seq<Step>): State {
    if steps == [] then s else Try(Execute(s, steps[..|steps| - 1]), steps[|steps| - 1])
  }

  lemma ExecuteOneMore(s: State, steps: seq<Step>, step: Step)
    ensures Execute(s, steps + [step]) == Try(Execute(s, steps), step)
  {
    assert (steps + [step])[..|steps|] == steps;
  }

  lemma {:induction false} ExecuteConcat(s: State, a: seq<Step>, b: seq<Step>)
    ensures Execute(s, a + b) == Execute(Execute(s, a), b)
  {
    if b == [] {
      assert a + b == a;
    } else {
      assert (a + b)[..|a + b| - 1] == a + b[..|b| - 1];
      ExecuteConcat(s, a, b[..|b| - 1]);
    }
  }

  function Appends(p: nat, n: nat): seq<Step> {
    seq(n, _ => AppendOne(p))
  }

  lemma OneMoreAppend(s: State, p: nat, n: nat)
    ensures Execute(s, Appends(p, n + 1)) == Try(Execute(s, Appends(p, n)), AppendOne(p))
  {
    assert Appends(p, n + 1) == Appends(p, n) + [AppendOne(p)];
    ExecuteOneMore(s, Appends(p, n), AppendOne(p));
  }

  // The store.

  ghost predicate ById(events: seq<Event>) {
    forall i, j :: 0 <= i < j < |events| ==> events[i].id < events[j].id
  }

  ghost predicate Bounded(lastId: nat, proc: Proc) {
    match proc
    case Reading(since) => since <= lastId
    case Exporting(todo, maxId, _) => maxId <= lastId && forall e :: e in todo ==> e.id <= lastId
    case Resetting => true
  }

  ghost predicate StoreSound(s: State) {
    && ById(s.db)
    && (forall e :: e in s.db ==> 0 < e.id <= s.lastId)
    && MarkValue(s) <= s.lastId && s.floor <= s.lastId
    && forall p :: p in s.procs ==> Bounded(s.lastId, s.procs[p])
  }

  lemma BelowLast(front: seq<Event>, last: Event, some: seq<Event>)
    requires ById(front + [last]) && ById(some) && forall e :: e in some ==> e in front
    ensures ById(some + [last]) && last !in front && forall e :: e in front ==> e.id < last.id
  {
    forall e | e in front ensures e.id < last.id {
      var i :| 0 <= i < |front| && front[i] == e;
      assert (front + [last])[i] == e && (front + [last])[|front|] == last;
    }
    assert forall i :: 0 <= i < |some| ==> some[i] in front;
  }

  lemma {:induction false} SinceElements(db: seq<Event>, id: nat)
    requires ById(db)
    ensures forall e :: e in Since(db, id) <==> e in db && e.id > id
    ensures ById(Since(db, id))
  {
    if db != [] {
      var front, last := db[..|db| - 1], db[|db| - 1];
      assert db == front + [last];
      SinceElements(front, id);
      BelowLast(front, last, Since(front, id));
    }
  }

  lemma {:induction false} DroppingElements(db: seq<Event>, id: nat)
    requires ById(db)
    ensures forall e :: e in Dropping(db, id) <==> e in db && e.id != id
    ensures ById(Dropping(db, id))
  {
    if db != [] {
      var front, last := db[..|db| - 1], db[|db| - 1];
      assert db == front + [last];
      DroppingElements(front, id);
      BelowLast(front, last, Dropping(front, id));
    }
  }

  /** Every step keeps the store sound, losing ones included. */
  lemma NextKeepsStore(s: State, step: Step)
    requires StoreSound(s) && Enabled(s, step)
    ensures StoreSound(Next(s, step))
    ensures s.lastId <= Next(s, step).lastId && s.floor <= Next(s, step).floor
  {
    match step {
      case Forget(id) => DroppingElements(s.db, id);
      case Fetch(p) => SinceElements(s.db, s.procs[p].since);
      case AppendOne(p) =>
        var todo := s.procs[p].todo;
        assert todo[0] in todo && forall e :: e in todo[1..] ==> e in todo;
      case _ =>
    }
  }

  lemma {:induction false} RunKeepsStore(steps: seq<Step>)
    ensures StoreSound(Execute(INIT, steps))
  {
    if steps != [] {
      RunKeepsStore(steps[..|steps| - 1]);
      var s := Execute(INIT, steps[..|steps| - 1]);
      if Enabled(s, steps[|steps| - 1]) { NextKeepsStore(s, steps[|steps| - 1]); }
    }
  }

  // The invariant, for the events above a bound.

  /** Every recorded event above `lo` and up to `hi` is in the file. */
  ghost predicate Held(s: State, lo: nat, hi: nat) {
    forall e :: e in s.db && lo < e.id <= hi ==> Whole(e) in s.tape.lines
  }

  /** Every recorded event above `lo` and at or below the mark is in the file. */
  ghost predicate Covered(s: State, lo: nat) {
    s.mark.Some? ==> Held(s, lo, s.mark.value)
  }

  /** What is written and what is still to be written go together up to `upTo`. */
  ghost predicate Progressing(todo: seq<Event>, maxId: nat, upTo: nat) {
    && ById(todo)
    && (forall e :: e in todo ==> maxId < e.id <= upTo)
    && upTo == if todo == [] then maxId else todo[|todo| - 1].id
  }

  /** A process will have everything above `lo` and up to where it reads in the file when it is done. */
  ghost predicate ProcSound(s: State, lo: nat, proc: Proc) {
    match proc
    case Reading(since) => Held(s, lo, since)
    case Exporting(todo, maxId, upTo) =>
      && Progressing(todo, maxId, upTo) && upTo <= s.lastId
      && forall e :: e in s.db && lo < e.id <= upTo ==> Whole(e) in s.tape.lines || e in todo
    case Resetting => true
  }

  ghost predicate Inv(s: State, lo: nat) {
    StoreSound(s) && Covered(s, lo) && forall p :: p in s.procs ==> ProcSound(s, lo, s.procs[p])
  }

  /** The one way an append loses an event above `lo`: it meets an unfinished line while the event is still
      recorded and the file does not already hold it. */
  predicate Loses(s: State, lo: nat, step: Step) {
    && step.AppendOne? && Enabled(s, step) && s.tape.openTail
    && var e := s.procs[step.p].todo[0]; e in s.db && e.id > lo && Whole(e) !in s.tape.lines
  }

  /** `t` has all of the file of `s`, and of the IDs known to `s` no events but its own. */
  ghost predicate Grows(s: State, t: State) {
    && s.lastId <= t.lastId
    && (forall l :: l in s.tape.lines ==> l in t.tape.lines)
    && forall e :: e in t.db && e.id <= s.lastId ==> e in s.db
  }

  lemma GrowsKeeps(s: State, t: State, lo: nat, proc: Proc)
    requires Grows(s, t) && Bounded(s.lastId, proc) && ProcSound(s, lo, proc)
    ensures ProcSound(t, lo, proc)
  {
  }

  lemma StepGrows(s: State, step: Step)
    requires StoreSound(s) && Enabled(s, step) && !step.FinishReset?
    ensures Grows(s, Next(s, step))
  {
    match step {
      case Forget(id) => DroppingElements(s.db, id);
      case AppendOne(p) => AppendBrings(s, p);
      case _ =>
    }
  }

  lemma AppendBrings(s: State, p: nat)
    requires Enabled(s, AppendOne(p))
    ensures forall x :: Whole(x) in Appended(s, p).tape.lines <==>
              Whole(x) in s.tape.lines || (x == s.procs[p].todo[0] && !s.tape.openTail)
    ensures forall l :: l in s.tape.lines ==> l in Appended(s, p).tape.lines
  {
    var added := if s.tape.openTail then Garbled else Whole(s.procs[p].todo[0]);
    assert Appended(s, p).tape.lines == s.tape.lines + [added];
  }

  /** The process that takes a step is sound afterwards. */
  lemma ActorSound(s: State, lo: nat, step: Step, p: nat)
    requires Inv(s, lo) && Enabled(s, step) && !Loses(s, lo, step)
    requires step == ReadMark(p, false) || step == ReadMark(p, true) || step == Fetch(p) || step == AppendOne(p)
    ensures p in Next(s, step).procs ==> ProcSound(Next(s, step), lo, Next(s, step).procs[p])
  {
    match step {
      case Fetch(_) =>
        var events := Since(s.db, s.procs[p].since);
        SinceElements(s.db, s.procs[p].since);
        if events != [] { FetchProgresses(s.db, s.lastId, events); }
      case AppendOne(_) =>
        AppendBrings(s, p);
        AppendProgresses(s.procs[p].todo, s.procs[p].maxId, s.procs[p].upTo);
      case _ =>
    }
  }

  lemma FetchProgresses(db: seq<Event>, lastId: nat, events: seq<Event>)
    requires ById(events) && events != [] && forall e :: e in events ==> 0 < e.id <= lastId
    ensures Progressing(events, 0, events[|events| - 1].id) && events[|events| - 1].id <= lastId
    ensures forall e :: e in events ==> e.id <= events[|events| - 1].id
  {
    assert events[|events| - 1] in events;
    forall e | e in events ensures e.id <= events[|events| - 1].id {
      var k :| 0 <= k < |events| && events[k] == e;
    }
  }

  lemma AppendProgresses(todo: seq<Event>, maxId: nat, upTo: nat)
    requires Progressing(todo, maxId, upTo) && todo != []
    ensures todo[0].id > maxId && Progressing(todo[1..], todo[0].id, upTo)
    ensures forall e :: e in todo <==> e == todo[0] || e in todo[1..]
  {
    var e, rest := todo[0], todo[1..];
    assert todo == [e] + rest;
    assert e in todo;
    forall x | x in rest ensures e.id < x.id <= upTo { assert x in todo; }
  }

  /** Every step but a losing append and a truncation keeps the invariant, whatever the bound. */
  lemma NextKeepsInv(s: State, lo: nat, step: Step)
    requires Inv(s, lo) && Enabled(s, step) && !step.FinishReset? && !Loses(s, lo, step)
    ensures Inv(Next(s, step), lo)
  {
    var t := Next(s, step);
    NextKeepsStore(s, step);
    StepGrows(s, step);
    forall p | p in t.procs ensures ProcSound(t, lo, t.procs[p]) {
      if p in s.procs && t.procs[p] == s.procs[p] {
        GrowsKeeps(s, t, lo, s.procs[p]);
      } else if !step.BeginReset? {
        ActorSound(s, lo, step, p);
      }
    }
    if t.mark.Some? { MarkHeld(s, lo, step); }
  }

  lemma MarkHeld(s: State, lo: nat, step: Step)
    requires Inv(s, lo) && Enabled(s, step) && !step.FinishReset? && Next(s, step).mark.Some?
    requires Grows(s, Next(s, step))
    ensures Held(Next(s, step), lo, Next(s, step).mark.value)
  {
    if step.FinishExport? {
      assert ProcSound(s, lo, s.procs[step.p]);
    } else if s.mark.Some? {
      GrowsKeeps(s, Next(s, step), lo, Reading(MarkValue(s)));
    }
  }

  /** A truncation leaves nothing to answer for but what is recorded after it. */
  lemma TruncationKeepsInv(s: State, lo: nat, p: nat)
    requires Inv(s, lo) && Enabled(s, FinishReset(p))
    ensures Inv(Next(s, FinishReset(p)), s.lastId)
  {
    NextKeepsStore(s, FinishReset(p));
  }

  ghost predicate NeverLoses(s: State, steps: seq<Step>) {
    forall i :: 0 <= i < |steps| ==> !Loses(Execute(s, steps[..i]), Execute(s, steps[..i]).floor, steps[i])
  }

  lemma {:induction false} RunKeepsInv(steps: seq<Step>)
    requires NeverLoses(INIT, steps)
    ensures Inv(Execute(INIT, steps), Execute(INIT, steps).floor)
  {
    if steps != [] {
      var front, step := steps[..|steps| - 1], steps[|steps| - 1];
      assert forall i :: 0 <= i < |front| ==> front[..i] == steps[..i];
      RunKeepsInv(front);
      var s := Execute(INIT, front);
      if Enabled(s, step) {
        if step.FinishReset? { TruncationKeepsInv(s, s.floor, step.p); } else { NextKeepsInv(s, s.floor, step); }
      }
    }
  }

  /** No event is lost: at every point of every interleaving of recording with any number of exports and
      resets, with crashes anywhere and any failure of the mark's reading or storing, every recorded event at
      or below the stored mark that was recorded after the last truncation is in the file, as long as no such
      event is appended to an unfinished line. */
  lemma NothingLost(steps: seq<Step>, s: State, e: Event)
    requires NeverLoses(INIT, steps) && s == Execute(INIT, steps)
    requires e in s.db && s.mark.Some? && s.floor < e.id <= s.mark.value
    ensures Whole(e) in s.tape.lines
  {
    RunKeepsInv(steps);
  }

  // Older events: those recorded before the last truncation.

  /** Resets keep apart from exports and from each other: a process looks for others before it starts. */
  predicate Apart(s: State, step: Step) {
    match step
    case ReadMark(_, _) => forall p :: p in s.procs ==> !s.procs[p].Resetting?
    case BeginReset(_) => s.procs == map[]
    case _ => true
  }

  ghost predicate NeverLosesAny(s: State, steps: seq<Step>) {
    forall i :: 0 <= i < |steps| ==> !Loses(Execute(s, steps[..i]), 0, steps[i])
  }

  ghost predicate AllApart(s: State, steps: seq<Step>) {
    forall i :: 0 <= i < |steps| ==> Apart(Execute(s, steps[..i]), steps[i])
  }

  ghost predicate ResetsAlone(s: State) {
    forall p :: p in s.procs && s.procs[p].Resetting? ==> s.procs.Keys == {p} && s.mark.None?
  }

  lemma ApartKeepsAlone(s: State, step: Step)
    requires ResetsAlone(s) && Enabled(s, step) && Apart(s, step)
    ensures ResetsAlone(Next(s, step))
  {
    forall p | p in Next(s, step).procs && Next(s, step).procs[p].Resetting?
      ensures Next(s, step).procs.Keys == {p} && Next(s, step).mark.None?
    {
    }
  }

  lemma LoneTruncationKeepsInv(s: State, lo: nat, p: nat)
    requires Inv(s, lo) && ResetsAlone(s) && Enabled(s, FinishReset(p))
    ensures Inv(Next(s, FinishReset(p)), lo)
  {
    NextKeepsStore(s, FinishReset(p));
    assert Next(s, FinishReset(p)).procs.Keys == {};
  }

  lemma {:induction false} ApartKeepsInv(steps: seq<Step>)
    requires NeverLosesAny(INIT, steps) && AllApart(INIT, steps)
    ensures Inv(Execute(INIT, steps), 0) && ResetsAlone(Execute(INIT, steps))
  {
    if steps != [] {
      var front, step := steps[..|steps| - 1], steps[|steps| - 1];
      assert forall i :: 0 <= i < |front| ==> front[..i] == steps[..i];
      ApartKeepsInv(front);
      var s := Execute(INIT, front);
      if Enabled(s, step) {
        ApartKeepsAlone(s, step);
        if step.FinishReset? { LoneTruncationKeepsInv(s, 0, step.p); } else { NextKeepsInv(s, 0, step); }
      }
    }
  }

  /** When resets keep apart, every recorded event at or below the mark is in the file, old ones included,
      however many exports overlap. */
  lemma NothingLostApart(steps: seq<Step>, s: State, e: Event)
    requires NeverLosesAny(INIT, steps) && AllApart(INIT, steps) && s == Execute(INIT, steps)
    requires e in s.db && s.mark.Some? && e.id <= s.mark.value
    ensures Whole(e) in s.tape.lines
  {
    ApartKeepsInv(steps);
  }

  /** The two steps that can leave an old event behind the mark: storing a mark above one the file lacks, and
      truncating while a mark stands above one. */
  ghost predicate Uncovers(s: State, step: Step) {
    match step
    case FinishExport(p, true) =>
      Writing(s, p) && exists e :: e in s.db && e.id <= s.floor && e.id <= s.procs[p].maxId && Whole(e) !in s.tape.lines
    case FinishReset(_) => s.mark.Some? && exists e :: e in s.db && e.id <= s.mark.value
    case _ => false
  }

  /** Exactly then: from a state that covers every recorded event, a step leads to one that does not if and
      only if it uncovers an old event. */
  lemma CoveredUnlessUncovered(s: State, step: Step)
    requires Inv(s, s.floor) && Covered(s, 0) && Enabled(s, step)
    ensures Covered(Next(s, step), 0) <==> !Uncovers(s, step)
  {
    var t := Next(s, step);
    if step.FinishReset? {
      assert t.tape.lines == [] && t.mark == s.mark && t.db == s.db;
      NextKeepsStore(s, step);
    } else if step.FinishExport? {
      assert ProcSound(s, s.floor, s.procs[step.p]);
    } else {
      StepGrows(s, step);
      if s.mark.Some? { GrowsKeeps(s, t, 0, Reading(MarkValue(s))); }
    }
  }

  // Pieces of schedules.

  lemma OneStep(s: State, a: Step)
    ensures Execute(s, [a]) == Try(s, a)
  {
    assert [a][..0] == [];
    assert Execute(s, []) == s;
  }

  lemma TwoSteps(s: State, a: Step, b: Step)
    ensures Execute(s, [a, b]) == Try(Try(s, a), b)
  {
    assert [a] + [b] == [a, b];
    OneStep(s, a);
    ExecuteOneMore(s, [a], b);
  }

  /** An export that finds something gets under way. */
  lemma Begins(s: State, p: nat, unread: bool)
    requires p !in s.procs
    ensures var events := Found(s, unread);
            Execute(s, [ReadMark(p, unread), Fetch(p)])
            == if events == [] then s else s.(procs := s.procs[p := Exporting(events, 0, events[|events| - 1].id)])
  {
    TwoSteps(s, ReadMark(p, unread), Fetch(p));
    var r := s.procs[p := Reading(if unread then 0 else MarkValue(s))];
    assert r - {p} == s.procs;
    var events := Found(s, unread);
    if events != [] {
      var w := Exporting(events, 0, events[|events| - 1].id);
      assert r[p := w] == s.procs[p := w];
    }
  }

  /** An export with one event left writes it and stores its mark. */
  lemma Ends(s: State, p: nat, e: Event)
    requires e.id > 0 && p in s.procs && s.procs[p] == Exporting([e], 0, e.id)
    ensures Execute(s, [AppendOne(p), FinishExport(p, true)])
         == s.(tape := Append(s.tape, e), mark := Some(e.id), procs := s.procs - {p})
  {
    TwoSteps(s, AppendOne(p), FinishExport(p, true));
    assert s.procs[p := Exporting([], e.id, e.id)] - {p} == s.procs - {p};
  }

  lemma Truncates(s: State, p: nat)
    requires p !in s.procs
    ensures Execute(s, [BeginReset(p), FinishReset(p)]) == s.(mark := None, tape := Tape([], false), floor := s.lastId)
  {
    TwoSteps(s, BeginReset(p), FinishReset(p));
    assert s.procs[p := Resetting] - {p} == s.procs;
  }

  function Recorded(s: State, payload: string): State {
    s.(db := s.db + [Event(s.lastId + 1, payload)], lastId := s.lastId + 1)
  }

  lemma Records(s: State, payload: string)
    ensures Next(s, Create(payload)) == Recorded(s, payload)
  {
  }

  lemma OneRecord(s: State, payload: string)
    ensures Execute(s, [Create(payload)]) == Next(s, Create(payload))
  {
    OneStep(s, Create(payload));
  }

  lemma OneFound(first: seq<Event>, e: Event, id: nat)
    requires e.id > id && forall x :: x in first ==> x.id <= id
    ensures Since(first + [e], id) == [e]
  {
    assert (first + [e])[..|first|] == first;
    NoneFound(first, id);
  }

  lemma {:induction false} NoneFound(db: seq<Event>, id: nat)
    requires forall x :: x in db ==> x.id <= id
    ensures Since(db, id) == []
  {
    if db != [] { NoneFound(db[..|db| - 1], id); }
  }

  const A := Event(1, "a")
  const B := Event(2, "b")

  /** One event recorded, and its export under way in process 0. */
  const UNDER_WAY := State([A], 1, None, Tape([], false), map[0 := Exporting([A], 0, 1)], 0)

  /** That export done. */
  const EXPORTED := State([A], 1, Some(1), Tape([Whole(A)], false), map[], 0)

  const TO_UNDER_WAY := [Create("a")] + [ReadMark(0, false), Fetch(0)]

  const TO_EXPORTED := TO_UNDER_WAY + [AppendOne(0), FinishExport(0, true)]

  lemma FirstRecorded()
    ensures Execute(INIT, [Create("a")]) == UNDER_WAY.(procs := map[])
  {
    OneRecord(INIT, "a");
    Records(INIT, "a");
    assert [] + [A] == [A];
  }

  lemma FirstFetched()
    ensures Execute(UNDER_WAY.(procs := map[]), [ReadMark(0, false), Fetch(0)]) == UNDER_WAY
  {
    assert [] + [A] == [A];
    OneFound([], A, 0);
    Begins(UNDER_WAY.(procs := map[]), 0, false);
  }

  lemma FirstUnderWay()
    ensures Execute(INIT, TO_UNDER_WAY) == UNDER_WAY
  {
    FirstRecorded();
    FirstFetched();
    ExecuteConcat(INIT, [Create("a")], [ReadMark(0, false), Fetch(0)]);
  }

  lemma FirstExported()
    ensures Execute(INIT, TO_EXPORTED) == EXPORTED
  {
    FirstUnderWay();
    Ends(UNDER_WAY, 0, A);
    assert UNDER_WAY.procs - {0} == map[] && [] + [Whole(A)] == [Whole(A)];
    ExecuteConcat(INIT, TO_UNDER_WAY, [AppendOne(0), FinishExport(0, true)]);
  }

  /** It does happen: an export fetches the second event, a reset truncates the file that held the first, and
      the export goes on to store a mark above both. */
  lemma ResetUndercutsExport()
    ensures var s := Execute(INIT, TO_EXPORTED + ([Create("b")] + ([ReadMark(1, false), Fetch(1)] +
                                   ([BeginReset(2), FinishReset(2)] + [AppendOne(1), FinishExport(1, true)]))));
            && s.db == [A, B] && s.mark == Some(2) && s.floor == 2
            && s.tape.lines == [Whole(B)] && !Covered(s, 0)
  {
    FirstExported();
    var begin, reset := [ReadMark(1, false), Fetch(1)], [BeginReset(2), FinishReset(2)];
    var end := [AppendOne(1), FinishExport(1, true)];
    ExecuteConcat(INIT, TO_EXPORTED, [Create("b")] + (begin + (reset + end)));
    OneRecord(EXPORTED, "b");
    Records(EXPORTED, "b");
    var r := EXPORTED.(db := [A, B], lastId := 2);
    ExecuteConcat(EXPORTED, [Create("b")], begin + (reset + end));
    assert [A] + [B] == [A, B];
    OneFound([A], B, 1);
    Begins(r, 1, false);
    var u := r.(procs := r.procs[1 := Exporting([B], 0, 2)]);
    ExecuteConcat(r, begin, reset + end);
    Truncates(u, 2);
    var t := u.(mark := None, tape := Tape([], false), floor := 2);
    ExecuteConcat(u, reset, end);
    Ends(t, 1, B);
    var s := Execute(t, end);
    assert s.tape.lines == [] + [Whole(B)] == [Whole(B)];
    assert A in s.db && Whole(A) !in s.tape.lines;
  }

  // An export that runs to its end.

  /** `x` is one of the first `n` events still to be written, the very first left out if `skip`. */
  ghost predicate Among(todo: seq<Event>, skip: bool, n: nat, x: Event) {
    exists k :: (if skip then 1 else 0) <= k < n && k < |todo| && todo[k] == x
  }

  /** What `n` appends bring into the file: their events, but for the one that meets an unfinished line. */
  lemma {:induction false} AppendsBring(s: State, p: nat, n: nat)
    requires Writing(s, p) && n <= |s.procs[p].todo|
    requires Progressing(s.procs[p].todo, s.procs[p].maxId, s.procs[p].upTo)
    ensures var w, t := s.procs[p], Execute(s, Appends(p, n));
            && t == s.(tape := t.tape,
                       procs := s.procs[p := Exporting(w.todo[n..], if n == 0 then w.maxId else w.todo[n - 1].id,
                           w.upTo)])
            && t.tape.openTail == (n == 0 && s.tape.openTail)
            && forall x :: Whole(x) in t.tape.lines <==>
                 Whole(x) in s.tape.lines || Among(w.todo, s.tape.openTail, n, x)
  {
    var w := s.procs[p];
    if n == 0 {
      assert s.procs[p := w] == s.procs && w.todo[0..] == w.todo;
    } else {
      AppendsBring(s, p, n - 1);
      var was, e := Execute(s, Appends(p, n - 1)), w.todo[n - 1];
      OneMoreAppend(s, p, n - 1);
      assert was.procs[p].todo[0] == e && was.procs[p].todo[1..] == w.todo[n..];
      assert e in w.todo && (n > 1 ==> w.todo[n - 2].id < e.id);
      AppendBrings(was, p);
      forall x ensures Among(w.todo, s.tape.openTail, n, x) <==>
                       Among(w.todo, s.tape.openTail, n - 1, x) || (x == e && !was.tape.openTail) {
      }
    }
  }

  /** An export that runs on to its end leaves every recorded event up to the new mark in the file if and only
      if its next append loses none, and the events recorded before the last truncation are either in the file
      or still to be written. */
  lemma CompletionCoversExactly(s: State, p: nat)
    requires Inv(s, s.floor) && Writing(s, p) && s.procs[p].todo != []
    ensures var w, t := s.procs[p], Execute(s, Appends(p, |s.procs[p].todo|) + [FinishExport(p, true)]);
            && p !in t.procs && t.mark == Some(w.upTo)
            && (Covered(t, 0) <==>
                  && !Loses(s, 0, AppendOne(p))
                  && forall e :: e in s.db && e.id <= s.floor && e.id <= w.upTo ==>
                       Whole(e) in s.tape.lines || e in w.todo)
  {
    var w := s.procs[p];
    assert ProcSound(s, s.floor, w);
    var n := |w.todo|;
    AppendsBring(s, p, n);
    ExecuteOneMore(s, Appends(p, n), FinishExport(p, true));
    var t := Execute(s, Appends(p, n) + [FinishExport(p, true)]);
    assert t.db == s.db && t.mark == Some(w.upTo) && t.tape == Execute(s, Appends(p, n)).tape;
    assert w.todo[0] in w.todo;
    forall e | e in s.db
      ensures Among(w.todo, s.tape.openTail, n, e) <==> e in w.todo && (s.tape.openTail ==> e != w.todo[0])
    {
      if e in w.todo {
        var k :| 0 <= k < n && w.todo[k] == e;
        assert k > 0 ==> w.todo[0].id < e.id;
      }
    }
  }

  /** A cut-short write does lose an event: the next export appends it to the unfinished line and the mark
      moves past it. */
  lemma TornWriteLosesEvent()
    ensures var s := Execute(INIT, TO_UNDER_WAY + ([TearOne(0)] + ([ReadMark(0, false), Fetch(0)] +
                                                                  [AppendOne(0), FinishExport(0, true)])));
            s.mark == Some(1) && s.db == [A] && s.tape.lines == [Garbled]
  {
    FirstUnderWay();
    var begin, end := [ReadMark(0, false), Fetch(0)], [AppendOne(0), FinishExport(0, true)];
    ExecuteConcat(INIT, TO_UNDER_WAY, [TearOne(0)] + (begin + end));
    var s := State([A], 1, None, Tape([], true), map[], 0);
    Tears(UNDER_WAY, 0);
    assert UNDER_WAY.procs - {0} == map[];
    ExecuteConcat(UNDER_WAY, [TearOne(0)], begin + end);
    OneFound([], A, 0);
    assert [] + [A] == [A];
    Begins(s, 0, false);
    ExecuteConcat(s, begin, end);
    Ends(s.(procs := s.procs[0 := Exporting([A], 0, 1)]), 0, A);
    assert [] + [Garbled] == [Garbled];
  }

  lemma Tears(s: State, p: nat)
    requires Enabled(s, TearOne(p))
    ensures Execute(s, [TearOne(p)]) == s.(tape := s.tape.(openTail := true), procs := s.procs - {p})
  {
    OneStep(s, TearOne(p));
  }

  // Exactly once.

  ghost predicate NoRepeats(lines: seq<Line>) {
    forall i, j :: 0 <= i < j < |lines| && lines[i].Whole? ==> lines[i] != lines[j]
  }

  /** The only step that repeats an event is an append of one the file already holds. */
  lemma RepeatsExactly(s: State, step: Step)
    requires NoRepeats(s.tape.lines) && Enabled(s, step)
    ensures NoRepeats(Next(s, step).tape.lines) <==>
            !(step.AppendOne? && !s.tape.openTail && Whole(s.procs[step.p].todo[0]) in s.tape.lines)
  {
    if step.AppendOne? {
      var lines, more := s.tape.lines, Next(s, step).tape.lines;
      assert forall i :: 0 <= i < |lines| ==> more[i] == lines[i];
      if !s.tape.openTail && Whole(s.procs[step.p].todo[0]) in lines {
        var i :| 0 <= i < |lines| && lines[i] == Whole(s.procs[step.p].todo[0]);
        assert more[i] == more[|lines|];
      }
    }
  }

  /** It does happen when two exports overlap: both fetch the event, both write it. */
  lemma OverlappingExportsRepeat()
    ensures var s := Execute(INIT, TO_UNDER_WAY + ([ReadMark(1, false), Fetch(1)] + [AppendOne(0), AppendOne(1)]));
            s.tape.lines == [Whole(A), Whole(A)]
  {
    FirstUnderWay();
    ExecuteConcat(INIT, TO_UNDER_WAY, [ReadMark(1, false), Fetch(1)] + [AppendOne(0), AppendOne(1)]);
    OneFound([], A, 0);
    assert [] + [A] == [A];
    Begins(UNDER_WAY, 1, false);
    ExecuteConcat(UNDER_WAY, [ReadMark(1, false), Fetch(1)], [AppendOne(0), AppendOne(1)]);
    BothWrite(UNDER_WAY.(procs := UNDER_WAY.procs[1 := Exporting([A], 0, 1)]));
  }

  lemma BothWrite(s: State)
    requires 0 in s.procs && s.procs[0] == Exporting([A], 0, 1) && 1 in s.procs && s.procs[1] == Exporting([A], 0, 1)
    requires s.tape == Tape([], false)
    ensures Execute(s, [AppendOne(0), AppendOne(1)]).tape.lines == [Whole(A), Whole(A)]
  {
    TwoSteps(s, AppendOne(0), AppendOne(1));
    var t := Try(s, AppendOne(0));
    assert 1 in t.procs && t.procs[1] == s.procs[1] && t.tape == Tape([Whole(A)], false);
  }

  /** Steps of an undisturbed run: no crash, no failure, and nothing begun while something is under way. */
  predicate Undisturbed(s: State, step: Step) {
    match step
    case ReadMark(_, unread) => !unread && s.procs == map[]
    case BeginReset(_) => s.procs == map[]
    case TearOne(_) => false
    case FinishExport(_, stored) => stored
    case Crash(_) => false
    case _ => true
  }

  ghost predicate UndisturbedRun(s: State, steps: seq<Step>) {
    forall i :: 0 <= i < |steps| ==> Undisturbed(Execute(s, steps[..i]), steps[i])
  }

  function LastId(lines: seq<Line>): nat {
    if lines != [] && lines[|lines| - 1].Whole? then lines[|lines| - 1].event.id else 0
  }

  /** Only events, in strictly increasing ID order. */
  ghost predicate Log(lines: seq<Line>) {
    && (forall i :: 0 <= i < |lines| ==> lines[i].Whole? && lines[i].event.id > 0)
    && (forall i, j :: 0 <= i < j < |lines| ==> lines[i].event.id < lines[j].event.id)
  }

  ghost predicate TidyProc(s: State, proc: Proc) {
    match proc
    case Reading(since) => since == MarkValue(s) && LastId(s.tape.lines) <= since
    case Exporting(todo, maxId, upTo) =>
      && Progressing(todo, maxId, upTo)
      && LastId(s.tape.lines) <= (if maxId == 0 then MarkValue(s) else maxId)
      && MarkValue(s) <= (if maxId == 0 then MarkValue(s) else maxId) && (maxId == 0 ==> todo != [])
      && forall e :: e in todo ==> e.id > MarkValue(s)
    case Resetting => s.mark.None?
  }

  /** The file is a log that ends at or before the mark, or what the one export under way has added to it. */
  ghost predicate Tidy(s: State) {
    && !s.tape.openTail && Log(s.tape.lines)
    && (s.procs == map[] ==> LastId(s.tape.lines) <= MarkValue(s))
    && forall p :: p in s.procs ==> s.procs.Keys == {p} && TidyProc(s, s.procs[p])
  }

  lemma AppendKeepsLog(lines: seq<Line>, e: Event)
    requires Log(lines) && e.id > LastId(lines) && e.id > 0
    ensures Log(lines + [Whole(e)]) && LastId(lines + [Whole(e)]) == e.id
  {
    forall i | 0 <= i < |lines| ensures lines[i].event.id < e.id {
      assert i < |lines| - 1 ==> lines[i].event.id < lines[|lines| - 1].event.id;
    }
  }

  lemma AppendKeepsTidy(s: State, p: nat)
    requires Tidy(s) && Enabled(s, AppendOne(p))
    ensures Tidy(Next(s, AppendOne(p)))
  {
    var w := s.procs[p];
    var e := w.todo[0];
    assert e in w.todo;
    AppendKeepsLog(s.tape.lines, e);
    AppendProgresses(w.todo, w.maxId, w.upTo);
  }

  lemma FetchKeepsTidy(s: State, p: nat)
    requires StoreSound(s) && Tidy(s) && Enabled(s, Fetch(p))
    ensures Tidy(Next(s, Fetch(p)))
  {
    var events := Since(s.db, s.procs[p].since);
    SinceElements(s.db, s.procs[p].since);
    if events != [] { FetchProgresses(s.db, s.lastId, events); }
  }

  /** One undisturbed step keeps the log tidy, and the mark only grows until a reset clears it. */
  lemma UndisturbedKeepsTidy(s: State, step: Step)
    requires StoreSound(s) && Tidy(s) && Enabled(s, step) && Undisturbed(s, step)
    ensures Tidy(Next(s, step))
    ensures !step.BeginReset? ==> MarkValue(s) <= MarkValue(Next(s, step))
  {
    match step {
      case Fetch(p) => FetchKeepsTidy(s, p);
      case AppendOne(p) => AppendKeepsTidy(s, p);
      case _ =>
    }
  }

  /** And the coverage above any bound, truncations included. */
  lemma UndisturbedKeepsInv(s: State, lo: nat, step: Step)
    requires Inv(s, lo) && Tidy(s) && Enabled(s, step) && Undisturbed(s, step)
    ensures Inv(Next(s, step), lo)
  {
    if step.FinishReset? { LoneTruncationKeepsInv(s, lo, step.p); } else { NextKeepsInv(s, lo, step); }
  }

  lemma {:induction false} UndisturbedRunKeepsTidy(s: State, lo: nat, steps: seq<Step>)
    requires Inv(s, lo) && Tidy(s) && UndisturbedRun(s, steps)
    ensures Inv(Execute(s, steps), lo) && Tidy(Execute(s, steps))
  {
    if steps != [] {
      var front, step := steps[..|steps| - 1], steps[|steps| - 1];
      assert forall i :: 0 <= i < |front| ==> front[..i] == steps[..i];
      UndisturbedRunKeepsTidy(s, lo, front);
      var t := Execute(s, front);
      if Enabled(t, step) {
        UndisturbedKeepsTidy(t, step);
        UndisturbedKeepsInv(t, lo, step);
      }
    }
  }

  /** `s` is what a reset leaves that ends with nothing else under way, after any history at all. */
  ghost predicate FreshlyReset(before: seq<Step>, p: nat, s: State) {
    var t := Execute(INIT, before);
    Enabled(t, FinishReset(p)) && s == Next(t, FinishReset(p)) && s.procs == map[]
  }

  lemma ResetIsTidy(before: seq<Step>, p: nat, s: State)
    requires FreshlyReset(before, p, s)
    ensures Inv(s, s.floor) && Tidy(s) && (s.mark.None? ==> Inv(s, 0))
  {
    RunKeepsStore(before);
    NextKeepsStore(Execute(INIT, before), FinishReset(p));
  }

  /** Since the last reset, whatever crashes, torn writes, losses and overlaps came before it: in an undisturbed
      run the file holds only events, in strictly increasing order and so none twice. */
  lemma ExactlyOnce(before: seq<Step>, p: nat, s: State, steps: seq<Step>)
    requires FreshlyReset(before, p, s) && UndisturbedRun(s, steps)
    ensures var t := Execute(s, steps);
            Inv(t, s.floor) && Tidy(t) && Log(t.tape.lines) && (s.mark.None? ==> Inv(t, 0))
  {
    ResetIsTidy(before, p, s);
    UndisturbedRunKeepsTidy(s, s.floor, steps);
    if s.mark.None? { UndisturbedRunKeepsTidy(s, 0, steps); }
  }

  /** In such a run, whenever nothing is under way, an event still recorded is in the file if and only if its ID is
      at most the mark; of the events older than the reset this holds if no mark was left standing over it. */
  lemma ExportedExactly(before: seq<Step>, p: nat, s: State, steps: seq<Step>, t: State, e: Event)
    requires FreshlyReset(before, p, s) && UndisturbedRun(s, steps) && t == Execute(s, steps) && t.procs == map[]
    requires e in t.db && (e.id > s.floor || s.mark.None?)
    ensures Whole(e) in t.tape.lines <==> e.id <= MarkValue(t)
  {
    ExactlyOnce(before, p, s, steps);
    LastIsHighest(t.tape.lines, e);
  }

  lemma LastIsHighest(lines: seq<Line>, e: Event)
    requires Log(lines)
    ensures Whole(e) in lines ==> e.id <= LastId(lines)
  {
    if Whole(e) in lines {
      var i :| 0 <= i < |lines| && lines[i] == Whole(e);
      assert i < |lines| - 1 ==> lines[i].event.id < lines[|lines| - 1].event.id;
    }
  }

  // The code of one process, as the steps it takes.

  /** Where an export stops short, if it does. */
  datatype Stop = Never | AtFetch | AtOpen | AtEvent(n: nat, torn: bool) | AtMark

  /** The steps an export takes, given what fails. */
  function ExportSteps(s: State, unread: bool, stop: Stop): seq<Step> {
    var n := |Found(s, unread)|;
    if stop.AtFetch? then [ReadMark(0, unread), Crash(0)]
    else if n == 0 then [ReadMark(0, unread), Fetch(0)]
    else if stop.AtOpen? then [ReadMark(0, unread), Fetch(0), Crash(0)]
    else [ReadMark(0, unread), Fetch(0)] + WriteSteps(n, stop)
  }

  /** Whether an export that found `n` events reports success. */
  predicate Succeeds(n: nat, stop: Stop) {
    stop != AtFetch && (n == 0 || (stop != AtOpen && stop != AtMark && (stop.AtEvent? ==> stop.n >= n)))
  }

  function WriteSteps(n: nat, stop: Stop): seq<Step> {
    if stop.AtEvent? && stop.n < n then Appends(0, stop.n) + [if stop.torn then TearOne(0) else Crash(0)]
    else Appends(0, n) + [FinishExport(0, !stop.AtMark?)]
  }

  /** What the steps of an export come to: nothing, or the writing of what was fetched. */
  lemma ExportUnfolds(s: State, unread: bool, stop: Stop)
    requires StoreSound(s) && s.procs == map[]
    ensures var events := Found(s, unread);
            && ById(events) && (forall e :: e in events ==> e.id > 0)
            && Execute(s, ExportSteps(s, unread, stop))
               == if stop.AtFetch? || events == [] || stop.AtOpen? then s
                  else Execute(s.(procs := map[0 := Exporting(events, 0, events[|events| - 1].id)]),
                      WriteSteps(|events|, stop))
  {
    var events := Found(s, unread);
    SinceElements(s.db, if unread then 0 else MarkValue(s));
    GivesUp(s, unread);
    Begins(s, 0, unread);
    if events != [] {
      var w := s.(procs := map[0 := Exporting(events, 0, events[|events| - 1].id)]);
      assert s.procs[0 := w.procs[0]] == w.procs;
      Stops(w, Crash(0));
      ExecuteOneMore(s, [ReadMark(0, unread), Fetch(0)], Crash(0));
      assert [ReadMark(0, unread), Fetch(0)] + [Crash(0)] == [ReadMark(0, unread), Fetch(0), Crash(0)];
      ExecuteConcat(s, [ReadMark(0, unread), Fetch(0)], WriteSteps(|events|, stop));
    }
  }

  lemma GivesUp(s: State, unread: bool)
    requires s.procs == map[]
    ensures Execute(s, [ReadMark(0, unread), Crash(0)]) == s
  {
    TwoSteps(s, ReadMark(0, unread), Crash(0));
    assert s.procs[0 := Reading(if unread then 0 else MarkValue(s))] - {0} == map[];
  }

  /** The one process under way stops, or writes one event. */
  lemma Stops(s: State, step: Step)
    requires s.procs.Keys == {0} && Enabled(s, step)
    requires step == TearOne(0) || step == Crash(0) || step == FinishExport(0, false) || step == FinishExport(0, true)
    ensures Next(s, step).procs == map[]
  {
    assert s.procs - {0} == map[];
  }

  lemma WritesOne(s: State, todo: seq<Event>, maxId: nat, upTo: nat)
    requires s.procs == map[0 := Exporting(todo, maxId, upTo)] && todo != [] && todo[0].id > maxId
    ensures Try(s, AppendOne(0))
         == s.(tape := Append(s.tape, todo[0]), procs := map[0 := Exporting(todo[1..], todo[0].id, upTo)])
  {
    assert s.procs[0 := Exporting(todo[1..], todo[0].id, upTo)] == map[0 := Exporting(todo[1..], todo[0].id, upTo)];
  }

  /** Where a reset stops short, if it does. */
  datatype ResetStop = Through | AtClear | AtTruncate

  function ResetSteps(stop: ResetStop): seq<Step> {
    match stop
    case AtClear => []
    case AtTruncate => [BeginReset(0), Crash(0)]
    case Through => [BeginReset(0), FinishReset(0)]
  }

  // What one successful export does, in plain terms.

  function Wholes(events: seq<Event>): seq<Line> {
    seq(|events|, i requires 0 <= i < |events| => Whole(events[i]))
  }

  /** `t` is `s` after an export from `since` on: every recorded event above it has been appended, in increasing
      order and each once, and the mark is the highest of their IDs; if there was none, nothing has changed. */
  ghost predicate Exports(s: State, since: nat, t: State) {
    && t.db == s.db && s.tape.lines <= t.tape.lines && !t.tape.openTail
    && var added := t.tape.lines[|s.tape.lines|..];
    && Log(added)
    && (forall l :: l in added ==> l.Whole? && l.event in s.db && l.event.id > since)
    && (forall e :: e in s.db && e.id > since ==> Whole(e) in added)
    && if added == [] then t.mark == s.mark
       else t.mark.Some? && t.mark.value > since && t.mark.value == LastId(added)
  }

  /** So the mark is at or above every recorded event, and is the ID of one of them unless it stayed. */
  lemma MarkIsHighest(s: State, t: State)
    requires Exports(s, MarkValue(s), t)
    ensures forall e :: e in s.db ==> e.id <= MarkValue(t)
    ensures t.mark != s.mark ==>
              t.mark.Some? && t.mark.value > MarkValue(s) && exists x :: x in s.db && x.id == t.mark.value
  {
    var added := t.tape.lines[|s.tape.lines|..];
    forall e | e in s.db ensures e.id <= MarkValue(t) {
      LastIsHighest(added, e);
      assert Whole(e) in added ==> added != [];
    }
    if t.mark != s.mark { assert added[|added| - 1] in added; }
  }

  /** A second export with nothing recorded in between changes neither the file nor the mark. */
  lemma SecondExportIsIdle(s: State, t: State, u: State)
    requires Exports(s, MarkValue(s), t) && Exports(t, MarkValue(t), u)
    ensures u.tape == t.tape && u.mark == t.mark
  {
    MarkIsHighest(t, u);
    MarkIsHighest(s, t);
    assert u.tape.lines == t.tape.lines + u.tape.lines[|t.tape.lines|..];
  }

  /** What the appends of an export write, in order, into a file whose last line is finished. */
  lemma {:induction false} AppendsWrite(s: State, n: nat)
    requires Writing(s, 0) && n <= |s.procs[0].todo|
    requires Progressing(s.procs[0].todo, s.procs[0].maxId, s.procs[0].upTo)
    ensures var t := Execute(s, Appends(0, n)).tape;
            && s.tape.lines <= t.lines
            && (!s.tape.openTail ==> t == Tape(s.tape.lines + Wholes(s.procs[0].todo[..n]), false))
  {
    var todo := s.procs[0].todo;
    if n == 0 {
      assert Appends(0, 0) == [];
      assert s.tape.lines + Wholes(todo[..0]) == s.tape.lines;
    } else {
      AppendsWrite(s, n - 1);
      NextAppend(s, n - 1);
      OneMoreWhole(s.tape.lines, todo, n - 1);
    }
  }

  lemma NextAppend(s: State, n: nat)
    requires Writing(s, 0) && n < |s.procs[0].todo|
    requires Progressing(s.procs[0].todo, s.procs[0].maxId, s.procs[0].upTo)
    ensures Execute(s, Appends(0, n + 1)).tape == Append(Execute(s, Appends(0, n)).tape, s.procs[0].todo[n])
    ensures Execute(s, Appends(0, n)).tape.openTail == (n == 0 && s.tape.openTail)
  {
    AppendsBring(s, 0, n);
    OneMoreAppend(s, 0, n);
  }

  lemma OneMoreWhole(lines: seq<Line>, todo: seq<Event>, n: nat)
    requires n < |todo|
    ensures lines + Wholes(todo[..n + 1]) == lines + Wholes(todo[..n]) + [Whole(todo[n])]
  {
  }

  lemma WholesExactly(db: seq<Event>, m: nat, events: seq<Event>)
    requires ById(events) && (forall e :: e in events <==> e in db && e.id > m)
    ensures Log(Wholes(events))
    ensures forall l :: l in Wholes(events) ==> l.Whole? && l.event in db && l.event.id > m
    ensures forall e :: e in db && e.id > m ==> Whole(e) in Wholes(events)
    ensures LastId(Wholes(events)) == if events == [] then 0 else events[|events| - 1].id
    ensures |Wholes(events)| == |events|
  {
    var added := Wholes(events);
    forall i | 0 <= i < |events| ensures added[i] == Whole(events[i]) && events[i] in db && events[i].id > m {
      assert events[i] in events;
    }
    forall e | e in db && e.id > m ensures Whole(e) in added {
      assert e in events;
      var i :| 0 <= i < |events| && events[i] == e;
      assert added[i] == Whole(e);
    }
  }

  lemma FoundIsExported(s: State, unread: bool, t: State, events: seq<Event>)
    requires StoreSound(s) && events == Found(s, unread) && t.db == s.db && !s.tape.openTail
    requires t.tape == Tape(s.tape.lines + Wholes(events), false)
    requires t.mark == if events == [] then s.mark else Some(events[|events| - 1].id)
    ensures Exports(s, if unread then 0 else MarkValue(s), t)
  {
    var since := if unread then 0 else MarkValue(s);
    SinceElements(s.db, since);
    WholesExactly(s.db, since, events);
    assert t.tape.lines[|s.tape.lines|..] == Wholes(events);
    assert events != [] ==> events[|events| - 1] in events;
  }

  /** The steps of an export without failures make an undisturbed run, so what holds of such runs holds of it. */
  lemma ExportIsUndisturbed(s: State)
    requires s.procs == map[]
    ensures UndisturbedRun(s, ExportSteps(s, false, Never))
  {
    var steps := ExportSteps(s, false, Never);
    forall i | 0 <= i < |steps| ensures Undisturbed(Execute(s, steps[..i]), steps[i]) {
      if i == 0 { assert steps[..0] == []; }
    }
  }

  lemma ExportKeepsTidy(s: State, lo: nat)
    requires Inv(s, lo) && Tidy(s) && s.procs == map[]
    ensures var t := Execute(s, ExportSteps(s, false, Never));
            Inv(t, lo) && Tidy(t)
  {
    ExportIsUndisturbed(s);
    UndisturbedRunKeepsTidy(s, lo, ExportSteps(s, false, Never));
  }

  class EventLog {
    var db: seq<Event>
    var lastId: nat
    var mark: Option<nat>
    var tape: Tape
    ghost var floor: nat

    ghost function View(): State
      reads this
    {
      State(db, lastId, mark, tape, map[], floor)
    }

    constructor ()
      ensures View() == INIT
    {
      db, lastId, mark, tape, floor := [], 0, None, Tape([], false), 0;
    }

    /** Lines 45 to 55. `completed` is false when it stops at an event. */
    method AppendEvents(events: seq<Event>, stop: Stop, ghost s: State) returns (completed: bool, maxId: nat)
      requires events != [] && s == View().(procs := map[0 := Exporting(events, 0, events[|events| - 1].id)])
      requires ById(events) && forall e :: e in events ==> e.id > 0
      modifies this`tape
      ensures completed <==> !(stop.AtEvent? && stop.n < |events|)
      ensures !completed ==>
                View() == Execute(s, Appends(0, stop.n) + [if stop.torn then TearOne(0) else Crash(0)])
      ensures completed ==>
                Execute(s, Appends(0, |events|)) == View().(procs := map[0 := Exporting([], maxId, s.procs[0].upTo)])
      ensures completed ==> maxId == events[|events| - 1].id
    {
      maxId := 0;
      ghost var upTo := s.procs[0].upTo;
      for i := 0 to |events|
        invariant Execute(s, Appends(0, i)) == View().(procs := map[0 := Exporting(events[i..], maxId, upTo)])
        invariant stop.AtEvent? ==> i <= stop.n
        invariant maxId == if i == 0 then 0 else events[i - 1].id
      {
        ghost var now := Execute(s, Appends(0, i));
        if stop.AtEvent? && stop.n == i {
          Stops(now, if stop.torn then TearOne(0) else Crash(0));
          ExecuteOneMore(s, Appends(0, i), if stop.torn then TearOne(0) else Crash(0));
          if stop.torn { tape := tape.(openTail := true); }
          return false, maxId;
        }
        OneMoreAppend(s, 0, i);
        assert events[i] in events && (i > 0 ==> events[i - 1].id < events[i].id) &&
                 events[i..][1..] == events[i + 1..];
        WritesOne(now, events[i..], maxId, upTo);
        tape := Append(tape, events[i]);
        if events[i].id > maxId { maxId := events[i].id; }
      }
      return true, maxId;
    }

    /** Lines 45 to 60. */
    method Write(events: seq<Event>, stop: Stop, ghost s: State) returns (ok: bool)
      requires events != [] && s == View().(procs := map[0 := Exporting(events, 0, events[|events| - 1].id)])
      requires ById(events) && forall e :: e in events ==> e.id > 0
      modifies this`mark, this`tape
      ensures View() == Execute(s, WriteSteps(|events|, stop))
      ensures ok <==> stop != AtMark && (stop.AtEvent? ==> stop.n >= |events|)
      ensures old(tape.lines) <= tape.lines && (!ok ==> mark == old(mark))
      ensures ok ==> mark == Some(events[|events| - 1].id)
      ensures ok && !old(tape.openTail) ==> tape == Tape(old(tape.lines) + Wholes(events), false)
    {
      var completed, maxId := AppendEvents(events, stop, s);
      if !completed {
        AppendsWrite(s, stop.n);
        AppendsBring(s, 0, stop.n);
        Stops(Execute(s, Appends(0, stop.n)), if stop.torn then TearOne(0) else Crash(0));
        ExecuteOneMore(s, Appends(0, stop.n), if stop.torn then TearOne(0) else Crash(0));
        return false;
      }
      AppendsWrite(s, |events|);
      assert events[..|events|] == events;
      ExecuteOneMore(s, Appends(0, |events|), FinishExport(0, stop != AtMark));
      Stops(Execute(s, Appends(0, |events|)), FinishExport(0, stop != AtMark));
      if stop == AtMark { return false; }
      mark := Some(maxId);
      return true;
    }

    /** exportEventsToJSONL. */
    method Export(markUnread: bool, stop: Stop) returns (ok: bool)
      requires StoreSound(View())
      modifies this`mark, this`tape
      ensures View() == Execute(old(View()), ExportSteps(old(View()), markUnread, stop))
      ensures ok <==> Succeeds(|Found(old(View()), markUnread)|, stop)
      ensures !ok ==> mark == old(mark) && old(tape.lines) <= tape.lines
      ensures stop == Never ==> ok
      ensures ok && !old(tape.openTail) ==>
                Exports(old(View()), if markUnread || old(mark).None? then 0 else old(mark).value, View())
    {
      ghost var s := View();
      ExportUnfolds(s, markUnread, stop);
      var sinceId := 0;
      if !markUnread && mark.Some? { sinceId := mark.value; }
      if stop == AtFetch { return false; }
      var events := Since(db, sinceId);
      assert events == Found(s, markUnread);
      if |events| == 0 {
        if !tape.openTail {
          assert tape == Tape(tape.lines + Wholes(events), false);
          FoundIsExported(s, markUnread, View(), events);
        }
        return true;
      }
      if stop == AtOpen { return false; }
      ok := Write(events, stop, s.(procs := map[0 := Exporting(events, 0, events[|events| - 1].id)]));
      if ok && !old(tape.openTail) { FoundIsExported(s, markUnread, View(), events); }
    }

    /** resetEventsExport. */
    method Reset(stop: ResetStop) returns (ok: bool)
      modifies this`mark, this`tape, this`floor
      ensures View() == Execute(old(View()), ResetSteps(stop))
      ensures ok <==> stop == Through
      ensures ok ==> mark == None && tape == Tape([], false)
      ensures !ok ==> tape == old(tape) && mark == if stop == AtClear then old(mark) else None
    {
      assert Execute(View(), []) == View();
      TwoSteps(View(), BeginReset(0), Crash(0));
      TwoSteps(View(), BeginReset(0), FinishReset(0));
      assert map[0 := Resetting] - {0} == map[];
      if stop == AtClear { return false; }
      mark := None;
      if stop == AtTruncate { return false; }
      tape, floor := Tape([], false), lastId;
      return true;
    }
  }
}
