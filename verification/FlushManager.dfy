/**
 The event loop of cmd/binds/flush_manager.go as a transition system: callers, timer callbacks and the
 loop take steps in any order. A flush is a step of its own, so everything but the loop can move while
 it runs.
 */
module FlushManager {
  const MARK_BUFFER := 10

  datatype Mark = Mark(fullExport: bool)

  /** One call of performFlush: the marks it answers for and its argument. */
  datatype Batch = Batch(marks: seq<Mark>, fullExport: bool)

  /** The answer to FlushNow request `request`: how many marks the loop had received when it took the
      request, and how many had been flushed when it answered. */
  datatype Response = Response(request: nat, received: nat, flushed: nat)

  datatype Cause = ByTimer | ByRequest(request: nat) | ByShutdown

  datatype Phase = Selecting | Flushing(cause: Cause) | Exited

  datatype ShutdownCall = NotCalled | Sent | Answered | Returned | TimedOut

  datatype Channels = Channels(marks: seq<Mark>, timer: bool, flushNow: seq<nat>, shutdown: bool)

  /** The locals of run. */
  datatype Loop = Loop(phase: Phase, isDirty: bool, needsFullExport: bool, timerSet: bool)

  /** The runtime: whether the current timer is armed, and how many callbacks have started but not sent. */
  datatype Timer = Timer(armed: bool, callbacks: nat)

  datatype Callers = Callers(cancelled: bool, shutdown: ShutdownCall, requests: nat)

  /** History. `asked` is how many marks had been received when the last FlushNow request was taken. */
  datatype Log = Log(accepted: seq<Mark>, ignored: nat, pending: seq<Mark>, batches: seq<Batch>,
                     asked: nat, responses: seq<Response>, shutdownsSent: nat)

  datatype State = State(enabled: bool, ch: Channels, loop: Loop, timer: Timer, callers: Callers, log: Log)

  datatype Event =
    // callers
    | SendMark(fullExport: bool) | IgnoreMark | SendFlushNow | SendShutdown | ShutdownReturns | ShutdownTimesOut
    // the runtime
    | FireTimer | RunCallback
    // the loop
    | TakeMark | TakeTimer | TakeFlushNow | TakeShutdown | TakeCancel | FinishFlush

  function Init(enabled: bool): State {
    State(enabled, Channels([], false, [], false), Loop(Selecting, false, false, false), Timer(false, 0),
          Callers(false, NotCalled, 0), Log([], 0, [], [], 0, [], 0))
  }

  function Flatten(bs: seq<Batch>): seq<Mark> {
    if bs == [] then [] else Flatten(bs[..|bs| - 1]) + bs[|bs| - 1].marks
  }

  predicate AnyFull(ms: seq<Mark>) {
    exists i :: 0 <= i < |ms| && ms[i].fullExport
  }

  predicate Enabled(s: State, e: Event) {
    match e
    case SendMark(_) => s.enabled && |s.ch.marks| < MARK_BUFFER
    case IgnoreMark => s.enabled && s.callers.cancelled
    case SendFlushNow => s.enabled && |s.ch.flushNow| < 1
    case SendShutdown => s.callers.shutdown == NotCalled
    case ShutdownReturns => s.callers.shutdown == Answered && s.loop.phase == Exited
    case ShutdownTimesOut => s.callers.shutdown == NotCalled
    case FireTimer => s.timer.armed
    case RunCallback => s.timer.callbacks > 0
    case TakeMark => s.loop.phase == Selecting && s.ch.marks != []
    case TakeTimer => s.loop.phase == Selecting && s.ch.timer
    case TakeFlushNow => s.loop.phase == Selecting && s.ch.flushNow != []
    case TakeShutdown => s.loop.phase == Selecting && s.ch.shutdown
    case TakeCancel => s.loop.phase == Selecting && s.callers.cancelled
    case FinishFlush => s.loop.phase.Flushing?
  }

  function Received(log: Log): nat {
    |Flatten(log.batches)| + |log.pending|
  }

  /** Stop, called when the loop holds a timer: it disarms it, unless the callback has already started. */
  function Stopped(s: State): Timer {
    if s.loop.timerSet then s.timer.(armed := false) else s.timer
  }

  function Flushed(s: State): Log {
    s.log.(batches := s.log.batches + [Batch(s.log.pending, s.loop.needsFullExport)], pending := [])
  }

  function Answer(log: Log, request: nat): Log {
    log.(responses := log.responses + [Response(request, log.asked, |Flatten(log.batches)|)])
  }

  /** A mark re-arms the timer: the old one is stopped, if its callback has not started, and a new one set. */
  function MarkTaken(s: State): State
    requires s.ch.marks != []
  {
    var event := s.ch.marks[0];
    s.(ch := s.ch.(marks := s.ch.marks[1..]), timer := s.timer.(armed := true),
    loop := s.loop.(isDirty := true, needsFullExport := s.loop.needsFullExport || event.fullExport, timerSet := true),
    log := s.log.(pending := s.log.pending + [event]))
  }

  /** A FlushNow request cancels the timer and is answered at once if nothing is dirty. */
  function FlushNowTaken(s: State): State
    requires s.ch.flushNow != []
  {
    var k, log := s.ch.flushNow[0], s.log.(asked := Received(s.log));
    s.(ch := s.ch.(flushNow := s.ch.flushNow[1..]), timer := Stopped(s),
    loop := s.loop.(timerSet := false, phase := if s.loop.isDirty then Flushing(ByRequest(k)) else Selecting),
    log := if s.loop.isDirty then log else Answer(log, k))
  }

  /** A shutdown request leads to a last flush if something is dirty, and out of the loop. */
  function ShutdownTaken(s: State): State {
    s.(ch := s.ch.(shutdown := false), timer := Stopped(s),
    loop := s.loop.(phase := if s.loop.isDirty then Flushing(ByShutdown) else Exited),
    callers := if s.loop.isDirty then s.callers else s.callers.(shutdown := Answered))
  }

  function Finish(s: State): State
    requires s.loop.phase.Flushing?
  {
    match s.loop.phase.cause
    case ByTimer => s.(loop := Loop(Selecting, false, false, s.loop.timerSet), log := Flushed(s))
    case ByRequest(k) => s.(loop := Loop(Selecting, false, false, s.loop.timerSet), log := Answer(Flushed(s), k))
    case ByShutdown =>
      s.(loop := s.loop.(phase := Exited), callers := s.callers.(shutdown := Answered), log := Flushed(s))
  }

  function Next(s: State, e: Event): State
    requires Enabled(s, e)
  {
    match e
    case SendMark(full) =>
      s.(ch := s.ch.(marks := s.ch.marks + [Mark(full)]), log := s.log.(accepted := s.log.accepted + [Mark(full)]))
    case IgnoreMark => s.(log := s.log.(ignored := s.log.ignored + 1))
    case SendFlushNow =>
      s.(ch := s.ch.(flushNow := s.ch.flushNow + [s.callers.requests]),
      callers := s.callers.(requests := s.callers.requests + 1))
    case SendShutdown =>
      s.(ch := s.ch.(shutdown := true), callers := s.callers.(shutdown := Sent),
      log := s.log.(shutdownsSent := s.log.shutdownsSent + 1))
    case ShutdownReturns => s.(callers := s.callers.(shutdown := Returned, cancelled := true))
    case ShutdownTimesOut => s.(callers := s.callers.(shutdown := TimedOut, cancelled := true))
    case FireTimer => s.(timer := Timer(false, s.timer.callbacks + 1))
    case RunCallback => s.(timer := s.timer.(callbacks := s.timer.callbacks - 1), ch := s.ch.(timer := true))
    case TakeMark => MarkTaken(s)
    case TakeTimer =>
      s.(ch := s.ch.(timer := false), loop := s.loop.(phase := if s.loop.isDirty then Flushing(ByTimer) else Selecting))
    case TakeFlushNow => FlushNowTaken(s)
    case TakeShutdown => ShutdownTaken(s)
    case TakeCancel => s.(loop := s.loop.(phase := Exited), timer := Stopped(s))
    case FinishFlush => Finish(s)
  }

  function Try(s: State, e: Event): State {
    if Enabled(s, e) then Next(s, e) else s
  }

  /** A schedule; events that are not enabled when their turn comes do not happen. */
  function Execute(s: State, es: seq<Event>): State {
    if es == [] then s
    else
      Try(Execute(s, es[..|es| - 1]), es[|es| - 1])
  }

  // The invariant.

  /** Every mark accepted is, in order, in a batch, in the pending batch or still buffered. */
  ghost predicate MarksConserved(s: State) {
    && s.log.accepted == Flatten(s.log.batches) + s.log.pending + s.ch.marks
    && |s.ch.marks| <= MARK_BUFFER
    && (!s.enabled ==> s.log.accepted == [] && s.callers.requests == 0)
  }

  ghost predicate BatchesSound(s: State) {
    forall i :: 0 <= i < |s.log.batches| ==>
      s.log.batches[i].marks != [] && (s.log.batches[i].fullExport <==> AnyFull(s.log.batches[i].marks))
  }

  /** While the loop runs, its flags describe the pending batch. */
  ghost predicate FlagsSound(s: State) {
    && (s.loop.phase != Exited ==>
          (s.loop.isDirty <==> s.log.pending != []) && (s.loop.needsFullExport <==> AnyFull(s.log.pending)))
    && (s.loop.phase.Flushing? ==> s.loop.isDirty)
  }

  /** A dirty loop that waits will be woken. */
  ghost predicate WakeUpDue(s: State) {
    s.loop.phase == Selecting && s.loop.isDirty ==> s.timer.armed || s.timer.callbacks > 0 || s.ch.timer
  }

  ghost predicate TimerSound(s: State) {
    && (s.timer.armed ==> s.loop.timerSet)
    && (s.loop.phase == Exited || s.loop.phase == Flushing(ByShutdown) ==> !s.timer.armed)
  }

  /** Requests are numbered; the loop takes and answers them in order, each once, and an answer finds
      every mark received before its request flushed. */
  ghost predicate RequestsAnswered(s: State) {
    var taken := |s.log.responses| + if s.loop.phase.Flushing? && s.loop.phase.cause.ByRequest? then 1 else 0;
    && s.callers.requests == taken + |s.ch.flushNow|
    && |s.ch.flushNow| <= 1
    && (s.ch.flushNow != [] ==> s.ch.flushNow == [taken])
    && (s.loop.phase.Flushing? && s.loop.phase.cause.ByRequest? ==>
          s.loop.phase.cause.request == |s.log.responses| && s.log.asked == Received(s.log))
    && (forall k :: 0 <= k < |s.log.responses| ==>
          s.log.responses[k].request == k && s.log.responses[k].flushed == s.log.responses[k].received)
  }

  ghost predicate ShutdownSound(s: State) {
    && s.log.shutdownsSent == (if s.callers.shutdown == NotCalled || s.callers.shutdown == TimedOut then 0 else 1)
    && (s.ch.shutdown ==> s.callers.shutdown == Sent && s.loop.phase != Exited && s.loop.phase != Flushing(ByShutdown))
    && (s.loop.phase == Flushing(ByShutdown) ==> s.callers.shutdown == Sent)
    && (s.callers.cancelled <==> s.callers.shutdown == Returned || s.callers.shutdown == TimedOut)
    && (s.callers.shutdown == Answered || s.callers.shutdown == Returned ==>
          s.loop.phase == Exited && s.log.pending == [])
    && (s.loop.phase == Exited ==>
          s.callers.shutdown == Answered || s.callers.shutdown == Returned || s.callers.shutdown == TimedOut)
  }

  ghost predicate Inv(s: State) {
    && MarksConserved(s) && BatchesSound(s) && FlagsSound(s) && WakeUpDue(s) && TimerSound(s)
    && RequestsAnswered(s) && ShutdownSound(s)
  }

  lemma FlattenAppend(bs: seq<Batch>, b: Batch)
    ensures Flatten(bs + [b]) == Flatten(bs) + b.marks
  {
    assert (bs + [b])[..|bs|] == bs;
  }

  lemma MarksUntouched(s: State, e: Event)
    requires Enabled(s, e) && !e.SendMark? && !e.TakeMark? && !e.FinishFlush?
    ensures var t := Next(s, e);
            && t.ch.marks == s.ch.marks && t.enabled == s.enabled && t.log.accepted == s.log.accepted
            && t.log.pending == s.log.pending && t.log.batches == s.log.batches
            && (!s.enabled ==> t.callers.requests == s.callers.requests)
  {
  }

  lemma TakeKeepsMarks(s: State)
    requires MarksConserved(s) && Enabled(s, TakeMark)
    ensures MarksConserved(Next(s, TakeMark))
  {
    assert s.ch.marks == [s.ch.marks[0]] + s.ch.marks[1..];
  }

  /** A flush moves the pending marks to the flushed ones. */
  lemma FlushedMarks(s: State)
    ensures Flatten(Flushed(s).batches) == Flatten(s.log.batches) + s.log.pending && Flushed(s).pending == []
  {
    FlattenAppend(s.log.batches, Batch(s.log.pending, s.loop.needsFullExport));
  }

  lemma FinishLog(s: State)
    requires Enabled(s, FinishFlush)
    ensures var t := Next(s, FinishFlush);
            && t.log.batches == Flushed(s).batches && t.log.pending == []
            && t.log.accepted == s.log.accepted && t.ch == s.ch && t.enabled == s.enabled
            && t.callers.requests == s.callers.requests
  {
  }

  lemma FinishKeepsMarks(s: State)
    requires MarksConserved(s) && Enabled(s, FinishFlush)
    ensures MarksConserved(Next(s, FinishFlush))
  {
    FlushedMarks(s);
    FinishLog(s);
    var flushed := Flatten(s.log.batches) + s.log.pending;
    assert flushed + [] == flushed;
  }

  lemma {:induction false} NextKeepsMarks(s: State, e: Event)
    requires MarksConserved(s) && Enabled(s, e)
    ensures MarksConserved(Next(s, e))
  {
    if e.FinishFlush? {
      FinishKeepsMarks(s);
    } else if e.TakeMark? {
      TakeKeepsMarks(s);
    } else if e.SendMark? {
      var m := Mark(e.fullExport);
      var all := Flatten(s.log.batches) + s.log.pending;
      assert all + (s.ch.marks + [m]) == (all + s.ch.marks) + [m];
    } else {
      MarksUntouched(s, e);
    }
  }

  lemma AnyFullAppend(ms: seq<Mark>, m: Mark)
    ensures AnyFull(ms + [m]) <==> AnyFull(ms) || m.fullExport
  {
    assert forall i :: 0 <= i < |ms| ==> (ms + [m])[i] == ms[i];
    assert (ms + [m])[|ms|] == m;
  }

  lemma NextKeepsFlags(s: State, e: Event)
    requires FlagsSound(s) && Enabled(s, e)
    ensures FlagsSound(Next(s, e))
  {
    if e.TakeMark? { AnyFullAppend(s.log.pending, s.ch.marks[0]); }
  }

  lemma NextKeepsBatches(s: State, e: Event)
    requires BatchesSound(s) && FlagsSound(s) && Enabled(s, e)
    ensures BatchesSound(Next(s, e))
  {
  }

  lemma NextKeepsWakeUp(s: State, e: Event)
    requires FlagsSound(s) && WakeUpDue(s) && TimerSound(s) && ShutdownSound(s) && Enabled(s, e)
    ensures WakeUpDue(Next(s, e)) && TimerSound(Next(s, e))
  {
  }

  predicate LeavesLoopAlone(e: Event) {
    || e.SendMark? || e.IgnoreMark? || e.SendShutdown? || e.ShutdownReturns? || e.ShutdownTimesOut?
    || e.FireTimer? || e.RunCallback?
  }

  lemma LoopUntouched(s: State, e: Event)
    requires Enabled(s, e) && LeavesLoopAlone(e)
    ensures var t := Next(s, e);
            && t.loop == s.loop && t.ch.flushNow == s.ch.flushNow && t.callers.requests == s.callers.requests
            && t.log.(accepted := s.log.accepted, ignored := s.log.ignored,
                 shutdownsSent := s.log.shutdownsSent) == s.log
  {
  }

  lemma FinishKeepsRequests(s: State)
    requires FlagsSound(s) && RequestsAnswered(s) && Enabled(s, FinishFlush)
    ensures RequestsAnswered(Next(s, FinishFlush))
  {
    FlushedMarks(s);
    FinishLog(s);
    assert |Flatten(Flushed(s).batches)| == Received(s.log);
  }

  lemma TakeKeepsRequests(s: State)
    requires FlagsSound(s) && RequestsAnswered(s) && Enabled(s, TakeFlushNow)
    ensures RequestsAnswered(Next(s, TakeFlushNow))
  {
  }

  lemma {:induction false} NextKeepsRequests(s: State, e: Event)
    requires FlagsSound(s) && RequestsAnswered(s) && Enabled(s, e)
    ensures RequestsAnswered(Next(s, e))
  {
    if e.FinishFlush? {
      FinishKeepsRequests(s);
    } else if LeavesLoopAlone(e) {
      LoopUntouched(s, e);
    } else if e.TakeFlushNow? {
      TakeKeepsRequests(s);
    }
  }

  lemma NextKeepsShutdown(s: State, e: Event)
    requires FlagsSound(s) && ShutdownSound(s) && Enabled(s, e)
    ensures ShutdownSound(Next(s, e))
  {
  }

  lemma {:induction false} NextKeepsInv(s: State, e: Event)
    requires Inv(s) && Enabled(s, e)
    ensures Inv(Next(s, e))
  {
    NextKeepsMarks(s, e);
    NextKeepsFlags(s, e);
    NextKeepsBatches(s, e);
    NextKeepsWakeUp(s, e);
    NextKeepsRequests(s, e);
    NextKeepsShutdown(s, e);
  }

  /** Every state of every schedule satisfies the invariant. */
  lemma {:induction false} ExecuteKeepsInv(s: State, es: seq<Event>)
    requires Inv(s)
    ensures Inv(Execute(s, es))
  {
    if es != [] {
      ExecuteKeepsInv(s, es[..|es| - 1]);
      var t, e := Execute(s, es[..|es| - 1]), es[|es| - 1];
      if Enabled(t, e) { NextKeepsInv(t, e); }
    }
  }

  lemma {:induction false} Reachable(enabled: bool, es: seq<Event>)
    ensures Inv(Execute(Init(enabled), es))
  {
    ExecuteKeepsInv(Init(enabled), es);
  }

  lemma ExecuteOneMore(s: State, es: seq<Event>, e: Event)
    ensures Execute(s, es + [e]) == Try(Execute(s, es), e)
  {
    assert (es + [e])[..|es|] == es;
  }

  // What the invariant gives over every schedule.

  /** Conservation of marks: nothing is lost, repeated or reordered between the channel and the flushes,
      every flush has a non-empty batch and exports fully exactly when a mark of it asked for that. */
  lemma MarksAccountedFor(enabled: bool, es: seq<Event>, s: State)
    requires s == Execute(Init(enabled), es)
    ensures && s.log.accepted == Flatten(s.log.batches) + s.log.pending + s.ch.marks
            && |s.ch.marks| <= 10
            && forall i :: 0 <= i < |s.log.batches| ==>
                 s.log.batches[i].marks != [] && (s.log.batches[i].fullExport <==> AnyFull(s.log.batches[i].marks))
  {
    Reachable(enabled, es);
  }

  lemma FourSteps(s: State, a: Event, b: Event, c: Event, d: Event)
    ensures Execute(s, [a, b, c, d]) == Try(Try(Try(Try(s, a), b), c), d)
  {
    assert [] + [a] == [a] && [a] + [b] == [a, b] && [a, b] + [c] == [a, b, c] && [a, b, c] + [d] == [a, b, c, d];
    ExecuteOneMore(s, [], a);
    ExecuteOneMore(s, [a], b);
    ExecuteOneMore(s, [a, b], c);
    ExecuteOneMore(s, [a, b, c], d);
  }

  lemma WakeUpFlushes(s: State)
    requires FlagsSound(s) && WakeUpDue(s) && s.loop.phase == Selecting && s.loop.isDirty
    ensures var t := Execute(s, [FireTimer, RunCallback, TakeTimer, FinishFlush]);
            && t.log.batches == s.log.batches + [Batch(s.log.pending, AnyFull(s.log.pending))]
            && t.log.pending == [] && t.loop.phase == Selecting
  {
    FourSteps(s, FireTimer, RunCallback, TakeTimer, FinishFlush);
    var t := Try(Try(s, FireTimer), RunCallback);
    assert t.ch.timer && t.loop == s.loop && t.log == s.log;
  }

  /** No lost wake-up, in spite of stale tokens, of Stop losing to a started callback, and of FlushNow
      cancelling the timer: from any reachable state where the loop waits and marks are pending, the timer
      and the loop alone can bring about the flush of exactly those marks. */
  lemma NoLostWakeUp(enabled: bool, es: seq<Event>, s: State)
    requires s == Execute(Init(enabled), es)
    ensures s.loop.phase == Selecting && s.log.pending != [] ==>
              && (s.timer.armed || s.timer.callbacks > 0 || s.ch.timer)
              && var t := Execute(s, [FireTimer, RunCallback, TakeTimer, FinishFlush]);
              && t.log.batches == s.log.batches + [Batch(s.log.pending, AnyFull(s.log.pending))]
              && t.log.pending == [] && t.loop.phase == Selecting
  {
    Reachable(enabled, es);
    if s.loop.phase == Selecting && s.log.pending != [] { WakeUpFlushes(s); }
  }

  /** Each request the loop has taken has exactly one answer, in order, given once every mark received
      before the request had been flushed; only the one being served is still without. */
  lemma RequestsAnsweredOnce(enabled: bool, es: seq<Event>, s: State)
    requires s == Execute(Init(enabled), es)
    ensures && s.callers.requests
               == |s.log.responses| + |s.ch.flushNow|
                  + (if s.loop.phase.Flushing? && s.loop.phase.cause.ByRequest? then 1 else 0)
            && |s.ch.flushNow| <= 1
            && forall k :: 0 <= k < |s.log.responses| ==>
                 s.log.responses[k].request == k && s.log.responses[k].flushed == s.log.responses[k].received
  {
    Reachable(enabled, es);
  }

  /** At most one shutdown request is ever sent, and unless the 30 second branch was taken a cancelled
      context means the loop has exited with nothing pending. */
  lemma ShutdownIsClean(enabled: bool, es: seq<Event>, s: State)
    requires s == Execute(Init(enabled), es)
    ensures && s.log.shutdownsSent <= 1
            && (s.callers.cancelled && s.callers.shutdown != TimedOut ==> s.loop.phase == Exited && s.log.pending == [])
            && (s.loop.phase == Exited ==> !s.timer.armed)
            && (s.loop.phase == Exited && s.callers.shutdown != TimedOut ==>
                 s.log.accepted == Flatten(s.log.batches) + s.ch.marks)
  {
    Reachable(enabled, es);
  }

  /** The loop never comes back: after it exits there are no more flushes and no more answers, so the
      marks and requests still buffered then, or sent later, are never served. */
  lemma {:induction false} ExitIsFinal(s: State, es: seq<Event>)
    requires s.loop.phase == Exited
    ensures var t := Execute(s, es);
            && t.loop.phase == Exited && t.log.batches == s.log.batches
            && t.log.responses == s.log.responses && t.log.pending == s.log.pending
            && s.ch.marks <= t.ch.marks && s.ch.flushNow <= t.ch.flushNow
  {
    if es != [] { ExitIsFinal(s, es[..|es| - 1]); }
  }

  /** The exact fate of a mark at a clean exit: the i-th accepted mark has been flushed if and only if the
      loop took it from the channel before it took the shutdown request. */
  lemma MarkFlushedIffTaken(enabled: bool, es: seq<Event>, s: State, i: nat)
    requires s == Execute(Init(enabled), es)
    requires s.loop.phase == Exited && s.callers.shutdown != TimedOut && i < |s.log.accepted|
    ensures && (i < |Flatten(s.log.batches)| <==> i < |s.log.accepted| - |s.ch.marks|)
            && (i < |Flatten(s.log.batches)| ==> s.log.accepted[i] == Flatten(s.log.batches)[i])
  {
    Reachable(enabled, es);
  }

  /** The exact fate of a request: once the loop has exited, one sent at any time is ever answered if and only
      if it had left the channel by then, whatever follows. */
  lemma RequestAnsweredIffTaken(enabled: bool, es: seq<Event>, s: State, later: seq<Event>, t: State, k: nat)
    requires s == Execute(Init(enabled), es) && s.loop.phase == Exited
    requires t == Execute(s, later) && k < t.callers.requests
    ensures (exists i :: 0 <= i < |t.log.responses| && t.log.responses[i].request == k)
            <==> k < s.callers.requests - |s.ch.flushNow|
  {
    Reachable(enabled, es);
    ExitIsFinal(s, later);
    if k < |t.log.responses| { assert t.log.responses[k].request == k; }
  }

  /** What has become of the request taken in `s`: it is being served with the marks received by then on record,
      or its answer shows them. */
  ghost predicate Serving(s: State, t: State) {
    var k := |s.log.responses|;
    if |t.log.responses| <= k
    then |t.log.responses| == k && t.loop.phase == Flushing(ByRequest(k)) && t.log.asked == Received(s.log)
    else t.log.responses[k].received == Received(s.log)
  }

  lemma TakenIsServed(s: State)
    requires Inv(s) && Enabled(s, TakeFlushNow)
    ensures Inv(Next(s, TakeFlushNow)) && Serving(s, Next(s, TakeFlushNow))
  {
    NextKeepsInv(s, TakeFlushNow);
  }

  lemma NextKeepsServing(s: State, t: State, e: Event)
    requires Inv(t) && Serving(s, t) && Enabled(t, e)
    ensures Serving(s, Next(t, e))
  {
  }

  lemma {:induction false} ExecuteKeepsServing(s: State, t: State, es: seq<Event>)
    requires Inv(t) && Serving(s, t)
    ensures Inv(Execute(t, es)) && Serving(s, Execute(t, es))
  {
    if es != [] {
      ExecuteKeepsServing(s, t, es[..|es| - 1]);
      var u, e := Execute(t, es[..|es| - 1]), es[|es| - 1];
      if Enabled(u, e) {
        NextKeepsInv(u, e);
        NextKeepsServing(s, u, e);
      }
    }
  }

  /** Which marks an answer covers: the first `m` marks accepted have been flushed when the answer is given if and
      only if the loop had taken them all from the channel when it took the request. */
  lemma AnswerCoversExactly(s: State, es: seq<Event>, t: State, m: nat)
    requires Inv(s) && Enabled(s, TakeFlushNow) && t == Execute(Next(s, TakeFlushNow), es)
    requires |t.log.responses| > |s.log.responses| && m <= |s.log.accepted|
    ensures t.log.responses[|s.log.responses|].flushed >= m <==> m <= |s.log.accepted| - |s.ch.marks|
  {
    TakenIsServed(s);
    ExecuteKeepsServing(s, Next(s, TakeFlushNow), es);
  }

  /** A mark accepted before the call need not be covered: the loop takes the request first, finds nothing dirty
      and answers at once. */
  lemma AnswerMissesBufferedMark()
    ensures var s := Execute(Init(true), [SendMark(false), SendFlushNow] + [TakeFlushNow]);
            && s.log.responses == [Response(0, 0, 0)]
            && s.log.accepted == [Mark(false)] && s.ch.marks == [Mark(false)] && s.log.batches == []
  {
    TwoSteps(Init(true), SendMark(false), SendFlushNow);
    ExecuteOneMore(Init(true), [SendMark(false), SendFlushNow], TakeFlushNow);
  }

  lemma {:induction false} ExecuteConcat(s: State, a: seq<Event>, b: seq<Event>)
    ensures Execute(s, a + b) == Execute(Execute(s, a), b)
  {
    if b == [] {
      assert a + b == a;
    } else {
      assert (a + b)[..|a + b| - 1] == a + b[..|b| - 1];
      ExecuteConcat(s, a, b[..|b| - 1]);
    }
  }

  lemma TwoSteps(s: State, a: Event, b: Event)
    requires Enabled(s, a) && Enabled(Next(s, a), b)
    ensures Execute(s, [a, b]) == Next(Next(s, a), b)
  {
    assert Execute(s, [a, b][..1]) == Next(s, a) by { assert [a, b][..1][..0] == []; }
  }

  /** A mark that was accepted and then outrun by the shutdown request is dropped for good. */
  lemma BufferedMarkIsDropped(later: seq<Event>)
    ensures var s := Execute(Init(true), [SendMark(true), SendShutdown] + [TakeShutdown, ShutdownReturns]);
            && s.callers.shutdown == Returned && s.log.accepted == [Mark(true)]
            && Execute(s, later).log.batches == []
  {
    var s := Next(Next(Init(true), SendMark(true)), SendShutdown);
    TwoSteps(Init(true), SendMark(true), SendShutdown);
    TwoSteps(s, TakeShutdown, ShutdownReturns);
    ExecuteConcat(Init(true), [SendMark(true), SendShutdown], [TakeShutdown, ShutdownReturns]);
    ExitIsFinal(Execute(s, [TakeShutdown, ShutdownReturns]), later);
  }

  /** A request sent after the loop has exited, before the context is cancelled, is never answered. */
  lemma LateRequestIsNeverAnswered(later: seq<Event>)
    ensures var s := Execute(Init(true), [SendShutdown, TakeShutdown] + [SendFlushNow]);
            s.callers.requests == 1 && Execute(s, later).log.responses == []
  {
    TwoSteps(Init(true), SendShutdown, TakeShutdown);
    ExecuteOneMore(Init(true), [SendShutdown, TakeShutdown], SendFlushNow);
    ExitIsFinal(Execute(Init(true), [SendShutdown, TakeShutdown] + [SendFlushNow]), later);
  }

  /** A timer fired, its callback started, and then a second mark was taken and armed a new timer. */
  function RacingState(): State {
    State(true, Channels([], false, [], false), Loop(Selecting, true, false, true), Timer(true, 1),
          Callers(false, NotCalled, 0), Log([Mark(false), Mark(false)], 0, [Mark(false), Mark(false)], [], 0, [], 0))
  }

  lemma OneMarkTaken()
    ensures Execute(Init(true), [SendMark(false), TakeMark])
         == State(true, Channels([], false, [], false), Loop(Selecting, true, false, true), Timer(true, 0),
                  Callers(false, NotCalled, 0), Log([Mark(false)], 0, [Mark(false)], [], 0, [], 0))
  {
    TwoSteps(Init(true), SendMark(false), TakeMark);
  }

  lemma RaceIsReachable()
    ensures Execute(Init(true), [SendMark(false), TakeMark] + [FireTimer] + [SendMark(false), TakeMark])
         == RacingState()
  {
    OneMarkTaken();
    ExecuteOneMore(Init(true), [SendMark(false), TakeMark], FireTimer);
    var s := Execute(Init(true), [SendMark(false), TakeMark] + [FireTimer]);
    TwoSteps(s, SendMark(false), TakeMark);
    ExecuteConcat(Init(true), [SendMark(false), TakeMark] + [FireTimer], [SendMark(false), TakeMark]);
  }

  /** The debounce is no guaranteed quiet period: from that reachable state the old callback starts a flush
      while the timer of the newest mark is still armed. */
  lemma StaleCallbackFlushesEarly()
    ensures var s := Execute(RacingState(), [RunCallback, TakeTimer]);
            s.loop.phase == Flushing(ByTimer) && s.timer.armed && s.log.pending == [Mark(false), Mark(false)]
  {
    TwoSteps(RacingState(), RunCallback, TakeTimer);
  }

  ghost predicate NoMarkTaken(es: seq<Event>) {
    forall i :: 0 <= i < |es| ==> !es[i].TakeMark?
  }

  /** The debounce timer starts a flush while it is still armed: before the quiet period is over. */
  predicate Early(s: State) {
    s.loop.phase == Flushing(ByTimer) && s.timer.armed
  }

  /** With no token and no callback of an older timer about, the timer has to fire before it starts a flush. */
  lemma {:induction false} ArmedMeansQuiet(s: State, es: seq<Event>)
    requires NoMarkTaken(es) && s.loop.phase == Selecting && s.timer.callbacks == 0 && !s.ch.timer
    ensures var t := Execute(s, es);
            t.timer.armed ==> t.timer.callbacks == 0 && !t.ch.timer && t.loop.phase != Flushing(ByTimer)
  {
    if es != [] { ArmedMeansQuiet(s, es[..|es| - 1]); }
  }

  /** Exactly when the debounce can fail: after a mark is taken, some schedule without a further mark flushes
      before the quiet period is over if and only if an older timer's callback or token was still about. */
  lemma DebounceFailsIffStale(s: State)
    requires Enabled(s, TakeMark)
    ensures (exists es :: NoMarkTaken(es) && Early(Execute(Next(s, TakeMark), es)))
            <==> s.timer.callbacks > 0 || s.ch.timer
  {
    var t := Next(s, TakeMark);
    if s.ch.timer {
      ExecuteOneMore(t, [], TakeTimer);
      assert [] + [TakeTimer] == [TakeTimer] && NoMarkTaken([TakeTimer]);
      assert Early(Execute(t, [TakeTimer]));
    } else if s.timer.callbacks > 0 {
      TwoSteps(t, RunCallback, TakeTimer);
      assert NoMarkTaken([RunCallback, TakeTimer]) && Early(Execute(t, [RunCallback, TakeTimer]));
    } else {
      forall es | NoMarkTaken(es) ensures !Early(Execute(t, es)) { ArmedMeansQuiet(t, es); }
    }
  }

  /** When a caller can send: while the marks accepted outnumber those the loop has taken by less than ten, and while
      no request is waiting to be taken. Otherwise the call blocks, or is ignored if the context is cancelled. */
  lemma SendsExactly(enabled: bool, es: seq<Event>, full: bool)
    ensures var s := Execute(Init(enabled), es);
            var serving := if s.loop.phase.Flushing? && s.loop.phase.cause.ByRequest? then 1 else 0;
            && (Enabled(s, SendMark(full)) <==>
                  s.enabled && |s.log.accepted| < |Flatten(s.log.batches)| + |s.log.pending| + 10)
            && (Enabled(s, SendFlushNow) <==> s.enabled && s.callers.requests == |s.log.responses| + serving)
            && (Enabled(s, IgnoreMark) <==> s.enabled && s.callers.cancelled)
  {
    Reachable(enabled, es);
  }

  // What the events of a schedule add up to.

  /** The events of a schedule that happened, those enabled when their turn came. */
  function Happened(s: State, es: seq<Event>): seq<Event> {
    if es == [] then []
    else
      var front, e := es[..|es| - 1], es[|es| - 1];
      Happened(s, front) + if Enabled(Execute(s, front), e) then [e] else []
  }

  function Times(h: seq<Event>, e: Event): nat {
    multiset(h)[e]
  }

  function SentMarks(h: seq<Event>): seq<Mark> {
    if h == [] then []
    else SentMarks(h[..|h| - 1]) + if h[|h| - 1].SendMark? then [Mark(h[|h| - 1].fullExport)] else []
  }

  /** Each timer fires at most once for each mark taken, each callback that started is run or still to run, and
      each token is used up by the loop when it takes it. */
  ghost predicate TimersAccounted(s: State, h: seq<Event>) {
    && Times(h, FireTimer) + (if s.timer.armed then 1 else 0) <= Times(h, TakeMark)
    && Times(h, RunCallback) + s.timer.callbacks == Times(h, FireTimer)
    && Times(h, TakeTimer) + (if s.ch.timer then 1 else 0) <= Times(h, RunCallback)
  }

  /** Marks are ignored only once the context is cancelled, and a disabled manager takes no call. */
  ghost predicate Gated(s: State) {
    && (s.log.ignored > 0 ==> s.callers.cancelled)
    && (s.log.accepted != [] || s.log.ignored > 0 || s.callers.requests > 0 ==> s.enabled)
  }

  lemma GatedStays(s: State, e: Event)
    requires Gated(s) && Enabled(s, e)
    ensures Gated(Next(s, e))
  {
  }

  /** Every call of a sender has its one effect. */
  ghost predicate SendersAccounted(s: State, h: seq<Event>) {
    && s.log.accepted == SentMarks(h)
    && s.log.ignored == Times(h, IgnoreMark)
    && s.callers.requests == Times(h, SendFlushNow)
    && s.log.shutdownsSent == Times(h, SendShutdown)
    && |s.log.batches| == Times(h, FinishFlush)
  }

  lemma OneHappens(s: State, h: seq<Event>, e: Event)
    requires TimersAccounted(s, h) && Enabled(s, e)
    ensures TimersAccounted(Next(s, e), h + [e])
  {
  }

  lemma OneIsSent(s: State, h: seq<Event>, e: Event)
    requires SendersAccounted(s, h) && Enabled(s, e)
    ensures SendersAccounted(Next(s, e), h + [e])
  {
    assert (h + [e])[..|h|] == h;
  }

  /** In every schedule the events that happened account for the state. */
  lemma {:induction false} EventsAccounted(enabled: bool, es: seq<Event>)
    ensures TimersAccounted(Execute(Init(enabled), es), Happened(Init(enabled), es))
    ensures SendersAccounted(Execute(Init(enabled), es), Happened(Init(enabled), es))
    ensures Gated(Execute(Init(enabled), es))
  {
    if es != [] {
      var front, e := es[..|es| - 1], es[|es| - 1];
      EventsAccounted(enabled, front);
      var s, h := Execute(Init(enabled), front), Happened(Init(enabled), front);
      if Enabled(s, e) {
        OneHappens(s, h, e);
        OneIsSent(s, h, e);
        GatedStays(s, e);
      } else {
        assert h + [] == h;
      }
    }
  }

  /** An ordinary debounced flush leaves nothing of its timer behind, so the next mark is debounced for its full
      time: no schedule without a further mark flushes it early. */
  lemma DebouncedFlushLeavesNothing(s: State)
    requires Inv(s) && s.loop.phase == Selecting && s.log.pending != []
    requires s.timer.armed && s.timer.callbacks == 0 && !s.ch.timer
    ensures var t := Execute(s, [FireTimer, RunCallback, TakeTimer, FinishFlush]);
            && t.timer.callbacks == 0 && !t.ch.timer && !t.timer.armed && t.log.pending == []
            && forall es :: Enabled(t, TakeMark) && NoMarkTaken(es) ==> !Early(Execute(Next(t, TakeMark), es))
  {
    FourSteps(s, FireTimer, RunCallback, TakeTimer, FinishFlush);
    var t := Execute(s, [FireTimer, RunCallback, TakeTimer, FinishFlush]);
    assert t.timer.callbacks == 0 && !t.ch.timer && !t.timer.armed;
    if Enabled(t, TakeMark) { DebounceFailsIffStale(t); }
  }

  /** FlushNow cancels the timer: none starts a callback any more until a further mark is taken. */
  lemma {:induction false} FlushNowCancelsTimer(s: State, es: seq<Event>)
    requires Inv(s) && Enabled(s, TakeFlushNow) && NoMarkTaken(es)
    ensures var t := Execute(Next(s, TakeFlushNow), es);
            !t.timer.armed && t.timer.callbacks <= s.timer.callbacks
  {
    if es != [] { FlushNowCancelsTimer(s, es[..|es| - 1]); }
  }

  // The code: one method for each caller, callback and branch of the select.

  class Manager {
    const enabled: bool
    var markCh: seq<Mark>
    var timerCh: bool
    var flushNowCh: seq<nat>
    var shutdownCh: bool
    var cancelled: bool
    var phase: Phase
    var isDirty: bool
    var needsFullExport: bool
    var timerSet: bool
    var armed: bool
    var callbacks: nat
    var shutdown: ShutdownCall
    var requests: nat
    ghost var log: Log

    ghost function View(): State
      reads this
    {
      State(enabled, Channels(markCh, timerCh, flushNowCh, shutdownCh), Loop(phase, isDirty, needsFullExport, timerSet),
            Timer(armed, callbacks), Callers(cancelled, shutdown, requests), log)
    }

    predicate CanDo(e: Event)
      reads this
      ensures CanDo(e) <==> Enabled(View(), e)
    {
      Enabled(State(enabled, Channels(markCh, timerCh, flushNowCh, shutdownCh),
                    Loop(phase, isDirty, needsFullExport, timerSet), Timer(armed, callbacks),
                    Callers(cancelled, shutdown, requests), Log([], 0, [], [], 0, [], 0)), e)
    }

    constructor (enabled: bool)
      ensures View() == Init(enabled)
    {
      this.enabled := enabled;
      markCh, timerCh, flushNowCh, shutdownCh, cancelled := [], false, [], false, false;
      phase, isDirty, needsFullExport, timerSet, armed, callbacks := Selecting, false, false, false, false, 0;
      shutdown, requests := NotCalled, 0;
      log := Log([], 0, [], [], 0, [], 0);
    }

    /** MarkDirty, with the choice its select makes when both cases are ready; `blocked` when neither is. */
    method MarkDirty(fullExport: bool, preferContext: bool) returns (blocked: bool)
      modifies this
      ensures blocked <==> enabled && !old(cancelled) && |old(markCh)| >= 10
      ensures markCh == old(markCh) || (enabled && markCh == old(markCh) + [Mark(fullExport)])
      ensures enabled && !old(cancelled) && |old(markCh)| < 10 ==> markCh == old(markCh) + [Mark(fullExport)]
      ensures blocked <==> enabled && !Enabled(old(View()), SendMark(fullExport)) && !Enabled(old(View()), IgnoreMark)
      ensures View() == if blocked || !enabled then old(View())
                        else if Enabled(old(View()), IgnoreMark) &&
                                (preferContext || !Enabled(old(View()), SendMark(fullExport)))
                        then Next(old(View()), IgnoreMark)
                        else Next(old(View()), SendMark(fullExport))
    {
      if !enabled { return false; }
      if cancelled && (preferContext || |markCh| >= MARK_BUFFER) {
        log := log.(ignored := log.ignored + 1);
        return false;
      }
      if |markCh| >= MARK_BUFFER { return true; }
      markCh, log := markCh + [Mark(fullExport)], log.(accepted := log.accepted + [Mark(fullExport)]);
      return false;
    }

    /** The body of time.AfterFunc's callback: a send that gives up when the one slot is taken. */
    method TimerCallback()
      requires Enabled(View(), RunCallback)
      modifies this
      ensures View() == Next(old(View()), RunCallback)
    {
      callbacks := callbacks - 1;
      if !timerCh { timerCh := true; }
    }

    /** debounceTimer.Stop(), where there is a timer; a callback that has started is not called back. */
    method StopTimer()
      modifies this`armed
      ensures armed == (old(armed) && !timerSet)
    {
      if timerSet { armed := false; }
    }

    method OnMark()
      requires phase == Selecting && markCh != []
      modifies this
      ensures View() == MarkTaken(old(View()))
    {
      var event := markCh[0];
      markCh, isDirty, log := markCh[1..], true, log.(pending := log.pending + [event]);
      if event.fullExport { needsFullExport := true; }
      StopTimer();
      timerSet, armed := true, true;
    }

    method OnTimer()
      requires phase == Selecting && timerCh
      modifies this
      ensures View() == Next(old(View()), TakeTimer)
      ensures !timerCh && phase == if isDirty then Flushing(ByTimer) else Selecting
    {
      timerCh := false;
      if isDirty { phase := Flushing(ByTimer); }
    }

    method OnFlushNow()
      requires phase == Selecting && flushNowCh != []
      modifies this
      ensures View() == FlushNowTaken(old(View()))
    {
      var request := flushNowCh[0];
      flushNowCh, log := flushNowCh[1..], log.(asked := Received(log));
      StopTimer();
      timerSet := false;
      if !isDirty {
        log := Answer(log, request);
        return;
      }
      phase := Flushing(ByRequest(request));
    }

    method OnShutdown()
      requires phase == Selecting && shutdownCh
      modifies this
      ensures View() == ShutdownTaken(old(View()))
    {
      shutdownCh := false;
      StopTimer();
      if isDirty {
        phase := Flushing(ByShutdown);
        return;
      }
      phase, shutdown := Exited, Answered;
    }

    method OnCancel()
      requires phase == Selecting && cancelled
      modifies this
      ensures View() == Next(old(View()), TakeCancel)
    {
      phase := Exited;
      StopTimer();
    }

    /** The return of performFlush, and what the interrupted branch does then. */
    method AfterFlush()
      requires Enabled(View(), FinishFlush)
      modifies this
      ensures View() == Finish(old(View()))
    {
      log := Flushed(View());
      match phase.cause {
        case ByTimer => isDirty, needsFullExport, phase := false, false, Selecting;
        case ByRequest(request) =>
          isDirty, needsFullExport, phase := false, false, Selecting;
          log := Answer(log, request);
        case ByShutdown => phase, shutdown := Exited, Answered;
      }
    }

    method Do(e: Event)
      requires Enabled(View(), e)
      modifies this
      ensures View() == Next(old(View()), e)
    {
      match e {
        case SendMark(full) => var _ := MarkDirty(full, false);
        case IgnoreMark => var _ := MarkDirty(false, true);
        case SendFlushNow => flushNowCh, requests := flushNowCh + [requests], requests + 1;
        case SendShutdown =>
          shutdown, shutdownCh, log := Sent, true, log.(shutdownsSent := log.shutdownsSent + 1);
        case ShutdownReturns => shutdown, cancelled := Returned, true;
        case ShutdownTimesOut => shutdown, cancelled := TimedOut, true;
        case FireTimer => armed, callbacks := false, callbacks + 1;
        case RunCallback => TimerCallback();
        case TakeMark => OnMark();
        case TakeTimer => OnTimer();
        case TakeFlushNow => OnFlushNow();
        case TakeShutdown => OnShutdown();
        case TakeCancel => OnCancel();
        case FinishFlush => AfterFlush();
      }
    }

    /** The loop together with its callers and its timer, driven by any schedule. */
    method Run(schedule: seq<Event>)
      requires Inv(View())
      modifies this
      ensures View() == Execute(old(View()), schedule) && Inv(View())
    {
      ExecuteKeepsInv(View(), schedule);
      for i := 0 to |schedule|
        invariant View() == Execute(old(View()), schedule[..i])
      {
        ExecuteOneMore(old(View()), schedule[..i], schedule[i]);
        assert schedule[..i + 1] == schedule[..i] + [schedule[i]];
        if CanDo(schedule[i]) { Do(schedule[i]); }
      }
      assert schedule[..|schedule|] == schedule;
    }
  }
}
