/**
  The retrying request of http_json_rpc_request.cpp as a state machine. Its steps are the stretches of code between the
  points at which another thread can come in: the completion of an operation, the stop of the timer, the locked part of
  the error handler, what follows it, the start of the next operation, and a timeout, which runs under the lock as a whole.
 */
module RpcRequest {
  datatype Operation = Resolve | Connect | Handshake | Write | Read

  /** Where the thread that handles completions stands. */
  datatype Handler =
    | Waiting
    | Stopping(op: Operation, failed: bool) // about to stop the timer
    | Checking(op: Operation, failed: bool) // about to enter the error handler
    | Proceeding(op: Operation)             // the error handler found nothing
    | Failing                               // the error handler has cancelled the attempt
    | Executing                             // at the start of execute
    | Launching(op: Operation)              // about to start an operation

  /** What the callback finds in m_result: nothing yet, what was read, or an error. */
  datatype Outcome = NoOutcome | Response | Failure

  datatype State = State(
    attempt: nat, limit: nat, canceled: bool, rerun: bool, callback: bool, // m_attempt, m_attempts_count, m_canceled, m_rerun, m_callback
    timer: bool, outstanding: seq<Operation>, handler: Handler,
    calls: nat, outcome: Outcome,                                          // how often the callback has been called, and with what
    launched: seq<Operation>, reused: bool,                                // the operations of this attempt, and whether it reuses a connection
    ssl: bool, ownContext: bool, stopped: bool)                            // m_use_ssl, m_io_ctx and whether it is stopped

  /** What happens next; `failed` is the error code of a completion, `reused` whether the pool gave a connected socket. */
  datatype Event = Completion(failed: bool) | StopTimer | Check | Fail | Execute(reused: bool) | Launch | Proceed | Timeout

  predicate Enabled(s: State, e: Event) {
    match e
    case Completion(_) => s.outstanding != [] && s.handler == Waiting && !s.stopped
    case StopTimer => s.handler.Stopping?
    case Check => s.handler.Checking?
    case Fail => s.handler.Failing?
    case Execute(_) => s.handler.Executing?
    case Launch => s.handler.Launching?
    case Proceed => s.handler.Proceeding?
    case Timeout => s.timer
  }

  // ---------------------------------------------------------------------------------------------
  // Steps
  // ---------------------------------------------------------------------------------------------

  /** A read has completed without error, and its response is on the way to the callback or there. */
  predicate HasRead(s: State) {
    s.outcome == Response || s.handler == Stopping(Read, false) || s.handler == Checking(Read, false) || s.handler == Proceeding(Read)
  }

  /** What no step changes. */
  predicate Same(s: State, r: State) {
    r.limit == s.limit && r.ssl == s.ssl && r.ownContext == s.ownContext
  }

  /** No attempt was started and no read completed. */
  predicate Continues(s: State, r: State) {
    Same(s, r) && r.attempt == s.attempt && (HasRead(r) ==> HasRead(s))
  }

  /** perform_callback with that result, and the stop of the context that the request owns. */
  function Performed(s: State, outcome: Outcome): (r: State)
    ensures Same(s, r) && r.attempt == s.attempt && r.handler == s.handler
  {
    s.(calls := if s.callback then s.calls + 1 else s.calls, outcome := if s.callback then outcome else s.outcome, callback := false,
       stopped := s.stopped || s.ownContext)
  }

  /** on_connect and on_read stop the timer before anything else; the others enter the error handler. */
  function Handled(op: Operation, failed: bool): (h: Handler) {
    if op == Connect || op == Read then Stopping(op, failed) else Checking(op, failed)
  }

  /** An operation has completed: its handler starts. */
  function Completed(s: State, failed: bool): (r: State)
    requires s.outstanding != []
    ensures Same(s, r) && r.attempt == s.attempt && (HasRead(r) ==> HasRead(s) || (s.outstanding[0] == Read && !failed))
  {
    s.(outstanding := s.outstanding[1..], handler := Handled(s.outstanding[0], failed))
  }

  function Stopped(s: State): (r: State)
    requires s.handler.Stopping?
    ensures Continues(s, r)
  {
    s.(timer := false, handler := Checking(s.handler.op, s.handler.failed))
  }

  /** The locked part of error_handler. */
  function Checked(s: State): (r: State)
    requires s.handler.Checking?
    ensures Continues(s, r)
  {
    if !s.rerun && s.canceled then s.(handler := Waiting)
    else if !s.rerun && !s.handler.failed then s.(handler := Proceeding(s.handler.op))
    else s.(rerun := false, canceled := true, handler := Failing)
  }

  /** The rest of error_handler: another attempt, or the error is reported. */
  function Failed(s: State): (r: State)
    ensures Continues(s, r)
  {
    if s.attempt < s.limit then s.(timer := false, handler := Executing)
    else Performed(s.(timer := false, handler := Waiting), Failure)
  }

  /** execute, up to the start of its first operation. */
  function Executed(s: State, reused: bool): (r: State)
    ensures Same(s, r) && r.attempt == s.attempt + 1 && (HasRead(r) ==> HasRead(s))
  {
    s.(attempt := s.attempt + 1, canceled := false, timer := if reused then true else s.timer, launched := [], reused := reused,
       handler := Launching(if reused then Write else Resolve))
  }

  /** The operation that follows another one. */
  function Following(op: Operation, ssl: bool): (r: Operation)
    requires op != Read
  {
    match op
    case Resolve => Connect
    case Connect => if ssl then Handshake else Write
    case Handshake => Write
    case Write => Read
  }

  /** on_resolve, on_connect, on_handshake, on_write and on_read after their error handler; the first two start the timer. */
  function Proceeded(s: State): (r: State)
    requires s.handler.Proceeding?
    ensures Continues(s, r)
  {
    if s.handler.op == Read then Performed(s.(handler := Waiting), Response)
    else s.(timer := s.timer || s.handler.op == Resolve || s.handler.op == Connect, handler := Launching(Following(s.handler.op, s.ssl)))
  }

  function Launched(s: State): (r: State)
    requires s.handler.Launching?
    ensures Continues(s, r)
  {
    s.(outstanding := s.outstanding + [s.handler.op], launched := s.launched + [s.handler.op], handler := Waiting)
  }

  /** on_timeout. The timer is started once and then spent. */
  function TimedOut(s: State): (r: State)
    ensures Continues(s, r)
  {
    var t := s.(timer := false);
    if s.canceled then t
    else if s.attempt < s.limit then t.(canceled := true, rerun := true)
    else Performed(t.(canceled := true), Failure)
  }

  function Step(s: State, e: Event): (r: State)
    requires Enabled(s, e)
    ensures Same(s, r) && r.attempt == s.attempt + (if e.Execute? then 1 else 0)
    ensures HasRead(r) ==> HasRead(s) || (e == Completion(false) && s.outstanding[0] == Read)
  {
    match e
    case Completion(failed) => Completed(s, failed)
    case StopTimer => Stopped(s)
    case Check => Checked(s)
    case Fail => Failed(s)
    case Execute(reused) => Executed(s, reused)
    case Launch => Launched(s)
    case Proceed => Proceeded(s)
    case Timeout => TimedOut(s)
  }

  /** The first call of execute, with a callback. */
  function Initial(limit: nat, ssl: bool, ownContext: bool): (s: State) {
    State(0, limit, false, false, true, false, [], Executing, 0, NoOutcome, [], false, ssl, ownContext, false)
  }

  // ---------------------------------------------------------------------------------------------
  // What every step keeps
  // ---------------------------------------------------------------------------------------------

  function Allowed(limit: nat): (n: nat) {
    if limit == 0 then 1 else limit
  }

  /** The operation at which the attempt is, if it is at one. */
  predicate AtOperation(s: State, op: Operation) {
    match s.handler
    case Waiting => s.outstanding != [] && s.outstanding[0] == op
    case Stopping(o, _) => o == op
    case Checking(o, _) => o == op
    case Proceeding(o) => o == op
    case Launching(o) => o == op
    case _ => false
  }

  /** Handlers that nothing but a step of their own can disturb. */
  predicate Undisturbed(s: State) {
    s.handler == Executing || (s.handler.Proceeding? && s.handler.op != Write && s.handler.op != Handshake)
  }

  /** The timer is not running here. */
  predicate Untimed(s: State) {
    s.handler == Executing || AtOperation(s, Resolve) || (s.handler.Checking? && (s.handler.op == Connect || s.handler.op == Read))
    || (s.handler.Proceeding? && (s.handler.op == Connect || s.handler.op == Read))
  }

  predicate Once(s: State) {
    s.calls == (if s.callback then 0 else 1)
  }

  /** At most one operation is outstanding, and none while a handler runs. */
  predicate Single(s: State) {
    |s.outstanding| <= 1 && (s.handler != Waiting ==> s.outstanding == [])
  }

  predicate Counted(s: State) {
    s.attempt <= Allowed(s.limit) && (s.handler == Executing ==> s.attempt < Allowed(s.limit)) && (s.rerun ==> s.attempt < s.limit)
  }

  predicate Flags(s: State) {
    && (s.rerun ==> s.canceled && s.callback && !s.timer && s.handler != Failing)
    && (s.callback && s.canceled ==> s.rerun || s.handler == Failing || s.handler == Executing)
    && (s.callback && s.handler == Waiting ==> s.outstanding != [])
    && (!s.callback ==> !s.timer && !s.rerun && (s.canceled || (s.handler == Waiting && s.outstanding == [])))
    && (s.stopped ==> !s.callback)
  }

  predicate Stages(s: State) {
    && (Untimed(s) ==> !s.timer)
    && (Undisturbed(s) ==> s.callback && !s.rerun)
    && (Undisturbed(s) && s.handler != Executing ==> !s.canceled)
    && (s.handler == Failing ==> s.callback && s.canceled)
  }

  predicate Inv(s: State) {
    Once(s) && Single(s) && Counted(s) && Flags(s) && Stages(s)
  }

  // ---------------------------------------------------------------------------------------------
  // Progress
  // ---------------------------------------------------------------------------------------------

  function Rank(op: Operation): (r: nat) {
    match op
    case Resolve => 32
    case Connect => 26
    case Handshake => 20
    case Write => 14
    case Read => 8
  }

  /** A bound on the steps that are left in the attempt. */
  function HandlerRank(s: State): (r: nat) {
    match s.handler
    case Waiting => if s.outstanding == [] then 0 else Rank(s.outstanding[0]) + 3
    case Stopping(op, _) => Rank(op) + 2
    case Checking(op, _) => Rank(op) + 1
    case Proceeding(op) => Rank(op)
    case Failing => 2
    case Executing => 1
    case Launching(op) => Rank(op) + 4
  }

  /** A bound on the steps that are left. */
  function Measure(s: State): (m: nat)
    requires Inv(s)
  {
    40 * (Allowed(s.limit) - s.attempt) + HandlerRank(s) + if s.timer then 1 else 0
  }

  lemma CompletionKeeps(s: State, failed: bool)
    requires Inv(s) && Enabled(s, Completion(failed))
    ensures var r := Completed(s, failed); Inv(r) && Measure(r) < Measure(s)
  {
  }

  lemma StopTimerKeeps(s: State)
    requires Inv(s) && Enabled(s, StopTimer)
    ensures var r := Stopped(s); Inv(r) && Measure(r) < Measure(s)
  {
  }

  lemma CheckKeeps(s: State)
    requires Inv(s) && Enabled(s, Check)
    ensures var r := Checked(s); Inv(r) && Measure(r) < Measure(s)
  {
  }

  lemma FailKeeps(s: State)
    requires Inv(s) && Enabled(s, Fail)
    ensures var r := Failed(s); Inv(r) && Measure(r) < Measure(s)
  {
  }

  lemma ExecuteKeeps(s: State, reused: bool)
    requires Inv(s) && Enabled(s, Execute(reused))
    ensures var r := Executed(s, reused); Inv(r) && Measure(r) < Measure(s)
  {
  }

  lemma LaunchKeeps(s: State)
    requires Inv(s) && Enabled(s, Launch)
    ensures var r := Launched(s); Inv(r) && Measure(r) < Measure(s)
  {
  }

  lemma ConnectKeeps(s: State)
    requires Inv(s) && (s.handler == Proceeding(Resolve) || s.handler == Proceeding(Connect))
    ensures var r := Proceeded(s); Inv(r) && Measure(r) < Measure(s)
  {
  }

  lemma WriteKeeps(s: State)
    requires Inv(s) && (s.handler == Proceeding(Handshake) || s.handler == Proceeding(Write))
    ensures var r := Proceeded(s); Inv(r) && Measure(r) < Measure(s)
  {
  }

  lemma ReadKeeps(s: State)
    requires Inv(s) && s.handler == Proceeding(Read)
    ensures var r := Proceeded(s); Inv(r) && Measure(r) < Measure(s)
  {
  }

  lemma ProceedKeeps(s: State)
    requires Inv(s) && Enabled(s, Proceed)
    ensures var r := Proceeded(s); Inv(r) && Measure(r) < Measure(s)
  {
    hide Inv, Measure, Proceeded;
    match s.handler.op
    case Resolve => ConnectKeeps(s);
    case Connect => ConnectKeeps(s);
    case Handshake => WriteKeeps(s);
    case Write => WriteKeeps(s);
    case Read => ReadKeeps(s);
  }

  lemma TimeoutKeeps(s: State)
    requires Inv(s) && Enabled(s, Timeout)
    ensures var r := TimedOut(s); Inv(r) && Measure(r) < Measure(s)
  {
  }

  /** Every step keeps the invariant and leaves fewer steps. */
  lemma StepKeeps(s: State, e: Event)
    requires Inv(s) && Enabled(s, e)
    ensures Inv(Step(s, e)) && Measure(Step(s, e)) < Measure(s)
  {
    hide Inv, Measure;
    match e
    case Completion(failed) => CompletionKeeps(s, failed);
    case StopTimer => StopTimerKeeps(s);
    case Check => CheckKeeps(s);
    case Fail => FailKeeps(s);
    case Execute(reused) => ExecuteKeeps(s, reused);
    case Launch => LaunchKeeps(s);
    case Proceed => ProceedKeeps(s);
    case Timeout => TimeoutKeeps(s);
  }

  // ---------------------------------------------------------------------------------------------
  // Runs
  // ---------------------------------------------------------------------------------------------

  /** Nothing can happen any more. */
  predicate Quiescent(s: State) {
    s.handler == Waiting && !s.timer && (s.outstanding == [] || s.stopped)
  }

  lemma QuiescentMeans(s: State)
    ensures Quiescent(s) <==> forall e :: !Enabled(s, e)
  {
    if !Quiescent(s) {
      assert Enabled(s, Completion(false)) || Enabled(s, StopTimer) || Enabled(s, Check) || Enabled(s, Fail) || Enabled(s, Execute(false))
          || Enabled(s, Launch) || Enabled(s, Proceed) || Enabled(s, Timeout);
    }
  }

  predicate IsRun(s: State, events: seq<Event>)
    decreases |events|
  {
    events == [] || (Enabled(s, events[0]) && IsRun(Step(s, events[0]), events[1..]))
  }

  function After(s: State, events: seq<Event>): (r: State)
    requires IsRun(s, events)
    decreases |events|
  {
    if events == [] then s else After(Step(s, events[0]), events[1..])
  }

  lemma {:induction false} RunKeeps(s: State, events: seq<Event>)
    requires Inv(s) && IsRun(s, events)
    ensures Inv(After(s, events)) && |events| + Measure(After(s, events)) <= Measure(s) && After(s, events).limit == s.limit
    decreases |events|
  {
    hide Inv, Measure, Step, Enabled;
    if events != [] {
      StepKeeps(s, events[0]);
      RunKeeps(Step(s, events[0]), events[1..]);
    }
  }

  // ---------------------------------------------------------------------------------------------
  // What has happened
  // ---------------------------------------------------------------------------------------------

  /** The operations of an attempt, in their order. */
  function Plan(ssl: bool, reused: bool): (r: seq<Operation>) {
    if reused then [Write, Read]
    else if ssl then [Resolve, Connect, Handshake, Write, Read]
    else [Resolve, Connect, Write, Read]
  }

  ghost predicate LastIs(launched: seq<Operation>, op: Operation) {
    launched != [] && launched[|launched| - 1] == op
  }

  /** The operations of the attempt are started one after the other, as planned. */
  ghost predicate Planned(s: State) {
    && s.launched <= Plan(s.ssl, s.reused)
    && match s.handler
       case Waiting => s.outstanding != [] ==> LastIs(s.launched, s.outstanding[0])
       case Stopping(op, _) => LastIs(s.launched, op)
       case Checking(op, _) => LastIs(s.launched, op)
       case Proceeding(op) => LastIs(s.launched, op)
       case Launching(op) => s.launched + [op] <= Plan(s.ssl, s.reused)
       case _ => true
  }

  /** Where the attempt has a timer. */
  ghost predicate NeedsTimer(s: State) {
    match s.handler
    case Waiting => s.outstanding != [] && s.outstanding[0] != Resolve
    case Stopping(op, _) => true
    case Checking(op, _) => op == Handshake || op == Write
    case Proceeding(op) => op == Handshake || op == Write
    case Launching(op) => op != Resolve
    case _ => false
  }

  /** No operation but the first is waited for without a timer, unless the attempt is cancelled. */
  ghost predicate Timed(s: State) {
    && (!s.canceled && NeedsTimer(s) ==> s.timer)
    && (s.handler.Stopping? ==> s.handler.op == Connect || s.handler.op == Read)
  }

  /** What was given to the callback, and when. */
  ghost predicate Given(s: State) {
    && (s.callback <==> s.outcome == NoOutcome)
    && (s.outcome == Response ==> s.handler == Waiting && s.outstanding == [] && s.launched == Plan(s.ssl, s.reused))
    && (s.outcome == Failure ==> s.attempt >= Allowed(s.limit))
    && (s.attempt == 0 ==> s.handler == Executing)
    && (s.stopped <==> s.ownContext && s.outcome != NoOutcome)
  }

  ghost predicate Past(s: State) {
    Planned(s) && Timed(s) && Given(s)
  }

  /** The operations of the plan come in the order in which the handlers start them. */
  lemma PlanStep(launched: seq<Operation>, op: Operation, ssl: bool, reused: bool)
    requires launched <= Plan(ssl, reused) && LastIs(launched, op)
    ensures op != Read ==> launched + [Following(op, ssl)] <= Plan(ssl, reused)
    ensures op == Read ==> launched == Plan(ssl, reused)
  {
  }

  lemma CompletionPast(s: State, failed: bool)
    requires Inv(s) && Past(s) && Enabled(s, Completion(failed))
    ensures Past(Completed(s, failed))
  {
  }

  lemma StopTimerPast(s: State)
    requires Inv(s) && Past(s) && Enabled(s, StopTimer)
    ensures Past(Stopped(s))
  {
  }

  lemma CheckPast(s: State)
    requires Inv(s) && Past(s) && Enabled(s, Check)
    ensures Past(Checked(s))
  {
  }

  lemma FailPast(s: State)
    requires Inv(s) && Past(s) && Enabled(s, Fail)
    ensures Past(Failed(s))
  {
  }

  lemma ExecutePast(s: State, reused: bool)
    requires Inv(s) && Past(s) && Enabled(s, Execute(reused))
    ensures Past(Executed(s, reused))
  {
  }

  lemma LaunchPast(s: State)
    requires Inv(s) && Past(s) && Enabled(s, Launch)
    ensures Past(Launched(s))
  {
    assert Launched(s).outstanding == [s.handler.op];
    hide Plan;
  }

  lemma ConnectPast(s: State)
    requires Inv(s) && Past(s) && (s.handler == Proceeding(Resolve) || s.handler == Proceeding(Connect))
    ensures Past(Proceeded(s))
  {
    PlanStep(s.launched, s.handler.op, s.ssl, s.reused);
    hide Plan;
  }

  lemma WritePast(s: State)
    requires Inv(s) && Past(s) && (s.handler == Proceeding(Handshake) || s.handler == Proceeding(Write))
    ensures Past(Proceeded(s))
  {
    PlanStep(s.launched, s.handler.op, s.ssl, s.reused);
    hide Plan;
  }

  lemma ReadPast(s: State)
    requires Inv(s) && Past(s) && s.handler == Proceeding(Read)
    ensures Past(Proceeded(s))
  {
    PlanStep(s.launched, s.handler.op, s.ssl, s.reused);
    hide Plan;
  }

  lemma ProceedPast(s: State)
    requires Inv(s) && Past(s) && Enabled(s, Proceed)
    ensures Past(Proceeded(s))
  {
    hide Inv, Past, Proceeded;
    match s.handler.op
    case Resolve => ConnectPast(s);
    case Connect => ConnectPast(s);
    case Handshake => WritePast(s);
    case Write => WritePast(s);
    case Read => ReadPast(s);
  }

  lemma TimeoutPast(s: State)
    requires Inv(s) && Past(s) && Enabled(s, Timeout)
    ensures Past(TimedOut(s))
  {
  }

  lemma StepPast(s: State, e: Event)
    requires Inv(s) && Past(s) && Enabled(s, e)
    ensures Past(Step(s, e))
  {
    hide Inv, Past;
    match e
    case Completion(failed) => CompletionPast(s, failed);
    case StopTimer => StopTimerPast(s);
    case Check => CheckPast(s);
    case Fail => FailPast(s);
    case Execute(reused) => ExecutePast(s, reused);
    case Launch => LaunchPast(s);
    case Proceed => ProceedPast(s);
    case Timeout => TimeoutPast(s);
  }

  lemma {:induction false} RunPast(s: State, events: seq<Event>)
    requires Inv(s) && Past(s) && IsRun(s, events)
    ensures Past(After(s, events))
    decreases |events|
  {
    hide Inv, Step, Enabled, Past;
    if events != [] {
      StepKeeps(s, events[0]);
      StepPast(s, events[0]);
      RunPast(Step(s, events[0]), events[1..]);
    }
  }

  /** How often an attempt was started. */
  function Attempts(events: seq<Event>): (n: nat) {
    if events == [] then 0 else (if events[0].Execute? then 1 else 0) + Attempts(events[1..])
  }

  lemma {:induction false} RunAttempts(s: State, events: seq<Event>)
    requires IsRun(s, events)
    ensures After(s, events).attempt == s.attempt + Attempts(events) && Same(s, After(s, events))
    decreases |events|
  {
    hide Step, Enabled;
    if events != [] {
      RunAttempts(Step(s, events[0]), events[1..]);
    }
  }

  /** A read completed without error in the run. */
  ghost predicate Answered(s: State, events: seq<Event>)
    requires IsRun(s, events)
    decreases |events|
  {
    events != [] && ((events[0] == Completion(false) && s.outstanding[0] == Read) || Answered(Step(s, events[0]), events[1..]))
  }

  lemma {:induction false} RunAnswered(s: State, events: seq<Event>)
    requires IsRun(s, events) && HasRead(After(s, events)) && !HasRead(s)
    ensures Answered(s, events)
    decreases |events|
  {
    hide Step, HasRead, Enabled;
    if !HasRead(Step(s, events[0])) { RunAnswered(Step(s, events[0]), events[1..]); }
  }

  /**
    What the callback is given. When nothing can happen any more, either a read has completed without error, all operations of the
    last attempt having been started in their order, and its response was given; or an error was given after exactly max(1, limit)
    attempts. Until then nothing was given or one of these. A context of the request's own is stopped exactly from then on. An operation
    other than resolving is only ever waited for with the timer running, as long as the attempt is not cancelled.
   */
  lemma EveryOutcome(limit: nat, ssl: bool, ownContext: bool, events: seq<Event>)
    requires IsRun(Initial(limit, ssl, ownContext), events)
    ensures var first := Initial(limit, ssl, ownContext);
            var s := After(first, events);
            && ((forall e :: !Enabled(s, e)) ==> s.outcome != NoOutcome)
            && (s.outcome == Response ==> Answered(first, events) && s.launched == Plan(ssl, s.reused))
            && (s.outcome == Failure ==> Attempts(events) == if limit == 0 then 1 else limit)
            && s.launched <= Plan(ssl, s.reused)
            && (s.stopped <==> ownContext && s.outcome != NoOutcome)
            && (s.outstanding != [] && s.handler == Waiting && s.outstanding[0] != Resolve && !s.canceled ==> s.timer)
  {
    var first := Initial(limit, ssl, ownContext);
    EveryRun(limit, ssl, ownContext, events);
    RunPast(first, events);
    RunAttempts(first, events);
    RunKeeps(first, events);
    if After(first, events).outcome == Response { RunAnswered(first, events); }
    hide IsRun, After, Enabled, Inv, Measure;
  }

  /** With a limit of three a first attempt that fails is followed by another. */
  lemma FailureIsRetried()
    ensures var events := [Execute(false), Launch, Completion(true), Check, Fail];
            var first := Initial(3, false, false);
            IsRun(first, events) && After(first, events).handler == Executing && After(first, events).calls == 0
  {
    var first := Initial(3, false, false);
    var a := Step(first, Execute(false));
    var b := Step(a, Launch);
    var c := Step(b, Completion(true));
    var d := Step(c, Check);
    var e := Step(d, Fail);
    assert [Fail][1..] == [] && [Check, Fail][1..] == [Fail] && [Completion(true), Check, Fail][1..] == [Check, Fail];
    assert [Launch, Completion(true), Check, Fail][1..] == [Completion(true), Check, Fail];
    assert [Execute(false), Launch, Completion(true), Check, Fail][1..] == [Launch, Completion(true), Check, Fail];
    assert IsRun(e, []) && After(e, []) == e;
    assert IsRun(d, [Fail]) && After(d, [Fail]) == e;
    assert IsRun(c, [Check, Fail]) && After(c, [Check, Fail]) == e;
    assert IsRun(b, [Completion(true), Check, Fail]) && After(b, [Completion(true), Check, Fail]) == e;
    assert IsRun(a, [Launch, Completion(true), Check, Fail]) && After(a, [Launch, Completion(true), Check, Fail]) == e;
  }

  /**
    Whatever the operations, the timer and the pool do: a run makes at most max(1, limit) attempts, never has more than
    one operation outstanding, ends after a bounded number of steps, and at its end the callback has been called exactly
    once; until then it has been called at most once.
   */
  lemma EveryRun(limit: nat, ssl: bool, ownContext: bool, events: seq<Event>)
    requires IsRun(Initial(limit, ssl, ownContext), events)
    ensures var s := After(Initial(limit, ssl, ownContext), events);
            && s.attempt <= (if limit == 0 then 1 else limit)
            && |s.outstanding| <= 1
            && s.calls <= 1
            && |events| <= 40 * (if limit == 0 then 1 else limit) + 1
            && ((forall e :: !Enabled(s, e)) ==> s.calls == 1)
  {
    var first := Initial(limit, ssl, ownContext);
    RunKeeps(first, events);
    QuiescentMeans(After(first, events));
  }

  // ---------------------------------------------------------------------------------------------
  // The object
  // ---------------------------------------------------------------------------------------------

  class Request {
    const limit: nat
    const ssl: bool
    const ownContext: bool
    var attempt: nat
    var canceled: bool
    var rerun: bool
    var callback: bool
    var timer: bool
    var outstanding: seq<Operation>
    var handler: Handler
    var calls: nat
    var outcome: Outcome
    var launched: seq<Operation>
    var reused: bool
    var stopped: bool

    function Now(): (s: State)
      reads this
    {
      State(attempt, limit, canceled, rerun, callback, timer, outstanding, handler, calls, outcome, launched, reused, ssl, ownContext, stopped)
    }

    constructor (limit: nat, ssl: bool, ownContext: bool)
      ensures Now() == Initial(limit, ssl, ownContext)
    {
      this.limit, this.ssl, this.ownContext := limit, ssl, ownContext;
      attempt, canceled, rerun, callback, timer := 0, false, false, true, false;
      outstanding, handler, calls, outcome, launched, reused, stopped := [], Executing, 0, NoOutcome, [], false, false;
    }

    method PerformCallback(result: Outcome)
      modifies this`calls, this`outcome, this`callback, this`stopped
      ensures Now() == Performed(old(Now()), result)
    {
      if callback {
        calls := calls + 1;
        outcome := result;
        callback := false;
      }
      if ownContext && !stopped {
        stopped := true;
      }
    }

    /**
      error_handler, the part under the lock; `failed` is its error code. When the attempt is cancelled the source unlocks by
      hand, and the lock guard unlocks once more on return. The second unlock is taken to do nothing.
     */
    method ErrorHandler(failed: bool) returns (handled: bool)
      requires handler.Checking? && handler.failed == failed
      modifies this`canceled, this`rerun, this`handler
      ensures Now() == Checked(old(Now())) && (handled <==> !handler.Proceeding?)
    {
      if !rerun {
        if canceled {
          handler := Waiting;
          return true;
        }
        if !failed {
          handler := Proceeding(handler.op);
          return false;
        }
      } else {
        rerun := false;
      }
      canceled := true;
      handler := Failing;
      return true;
    }

    /** error_handler, the part after the lock. */
    method GiveUpOrRetry()
      requires handler.Failing?
      modifies this
      ensures Now() == Failed(old(Now()))
    {
      timer := false;
      if attempt < limit {
        handler := Executing;
      } else {
        handler := Waiting;
        PerformCallback(Failure);
      }
    }

    method Execute(reused: bool)
      requires handler.Executing?
      modifies this
      ensures Now() == Executed(old(Now()), reused)
    {
      attempt := attempt + 1;
      canceled := false;
      launched, this.reused := [], reused;
      var needConnect := true;
      if reused {
        needConnect := false;
        timer := true;
        handler := Launching(Write);
      }
      if needConnect {
        handler := Launching(Resolve);
      }
    }

    method OnTimeout()
      requires timer
      modifies this
      ensures Now() == TimedOut(old(Now()))
    {
      timer := false;
      if canceled {
        return;
      }
      canceled := true;
      if attempt < limit {
        rerun := true;
      } else {
        PerformCallback(Failure);
      }
    }

    method Proceed()
      requires handler.Proceeding?
      modifies this
      ensures Now() == Proceeded(old(Now()))
    {
      match handler.op
      case Resolve =>
        timer := true;
        handler := Launching(Connect);
      case Connect =>
        timer := true;
        handler := Launching(if ssl then Handshake else Write);
      case Handshake => handler := Launching(Write);
      case Write => handler := Launching(Read);
      case Read =>
        handler := Waiting;
        PerformCallback(Response);
    }

    /** One step of the request. */
    method Take(e: Event)
      requires Enabled(Now(), e)
      modifies this
      ensures Now() == Step(old(Now()), e)
    {
      match e
      case Completion(failed) =>
        var op := outstanding[0];
        outstanding := outstanding[1..];
        handler := Handled(op, failed);
      case StopTimer =>
        timer := false;
        handler := Checking(handler.op, handler.failed);
      case Check => var _ := ErrorHandler(handler.failed);
      case Fail => GiveUpOrRetry();
      case Execute(reused) => Execute(reused);
      case Launch =>
        outstanding := outstanding + [handler.op];
        launched := launched + [handler.op];
        handler := Waiting;
      case Proceed => Proceed();
      case Timeout => OnTimeout();
    }

    /**
      Runs the request to its end under any scheduler that picks an enabled step: it ends, and the callback has been
      called exactly once.
     */
    method Run(schedule: State -> Event)
      requires Inv(Now()) && Past(Now()) && callback
      requires forall s: State :: !Quiescent(s) ==> Enabled(s, schedule(s))
      modifies this
      ensures Quiescent(Now()) && calls == 1 && attempt <= Allowed(limit)
      ensures outcome == Response || (outcome == Failure && attempt == Allowed(limit))
    {
      hide Step, Enabled, Planned, Timed;
      while !Quiescent(Now())
        invariant Inv(Now()) && Past(Now())
        decreases Measure(Now())
      {
        var e := schedule(Now());
        StepKeeps(Now(), e);
        StepPast(Now(), e);
        Take(e);
      }
    }
  }
}
