/** rocketmq/client/remote/future.go and the request/response half of remote_client.go: callers, connection
    readers, completion goroutines, timeouts and shutdown, interleaved in atomic steps over one response table. */
module Correlation {
  import opened Common
  import opened Bytes
  import opened Codec

  // ---------------------------------------------------------------------------
  // The future and the steps that change it
  // ---------------------------------------------------------------------------

  /** What a callback could see of its future when it ran. */
  datatype Seen = Seen(response: Option<RemotingCommand>, timedOut: bool)

  /** ResponseFuture. `timedOut` is Err == ErrRequestTimeout, `closes` counts close(Done), `runs` lists the
      runs of the callback, `expired` says that the context is done. */
  datatype Future = Future(
    id: int32,
    hasCallback: bool,
    response: Option<RemotingCommand>,
    timedOut: bool,
    onceDone: bool,
    runs: seq<Seen>,
    closes: nat,
    expired: bool)

  function NewFuture(id: int32, hasCallback: bool): Future {
    Future(id, hasCallback, None, false, false, [], 0, false)
  }

  function SetResponse(f: Future, cmd: RemotingCommand): Future {
    f.(response := Some(cmd))
  }

  /** executeInvokeCallback. */
  function RunOnce(f: Future): Future {
    if f.onceDone then f
    else f.(onceDone := true, runs := if f.hasCallback then f.runs + [Seen(f.response, f.timedOut)] else f.runs)
  }

  function CloseDone(f: Future): Future {
    f.(closes := f.closes + 1)
  }

  function SetTimeout(f: Future): Future {
    f.(timedOut := true)
  }

  // ---------------------------------------------------------------------------
  // The system
  // ---------------------------------------------------------------------------

  datatype Result = NotSent | Returned(cmd: Option<RemotingCommand>, timedOut: bool)

  /** Where an InvokeSync call, or an InvokeAsync call with the waiter it spawned, stands. */
  datatype Phase =
    | Sending                                                    // stored in the table, request not written
    | SendFailed                                                 // about to delete its key and return the error
    | Waiting                                                    // in waitResponse
    | Woken(cmd: Option<RemotingCommand>, timedOut: bool)        // waitResponse has returned
    | Leaving(cmd: Option<RemotingCommand>, timedOut: bool)      // about to delete its key
    | Finished(result: Result)

  datatype Call = Call(future: Future, isAsync: bool, phase: Phase)

  /** A completion goroutine of processCMD. */
  datatype Stage = Taken | ResponseSet | CallbackRun | Closed
  datatype Job = Job(call: nat, cmd: RemotingCommand, stage: Stage)

  /** A reader between its Load and its Delete. */
  datatype Held = Held(call: nat, cmd: RemotingCommand)

  /** `calls` holds every call ever begun; the table and the goroutines refer to them by position. */
  datatype State = State(
    table: map<int32, nat>,
    calls: seq<Call>,
    readers: map<nat, Held>,
    jobs: seq<Job>,
    received: set<RemotingCommand>)

  const INIT := State(map[], [], map[], [], {})

  datatype Action =
    | Begin(id: int32, isAsync: bool, hasCallback: bool)
    | SendOk(i: nat)
    | SendFail(i: nat)
    | Expire(i: nat)
    | WakeOnDone(i: nat)
    | WakeOnTimeout(i: nat)
    | AfterWait(i: nat)
    | Leave(i: nat)
    | Load(conn: nat, cmd: RemotingCommand)
    | DeleteAndSpawn(conn: nat)
    | JobStep(j: nat)
    | ShutDownDelete(id: int32)

  predicate Enabled(s: State, a: Action) {
    match a
    case Begin(_, _, _) => true
    case SendOk(i) => i < |s.calls| && s.calls[i].phase.Sending?
    case SendFail(i) => i < |s.calls| && s.calls[i].phase.Sending?
    case Expire(i) => i < |s.calls|
    case WakeOnDone(i) => i < |s.calls| && s.calls[i].phase.Waiting? && s.calls[i].future.closes > 0
    case WakeOnTimeout(i) => i < |s.calls| && s.calls[i].phase.Waiting? && s.calls[i].future.expired
    case AfterWait(i) => i < |s.calls| && s.calls[i].phase.Woken?
    case Leave(i) => i < |s.calls| && (s.calls[i].phase.SendFailed? || s.calls[i].phase.Leaving?)
    case Load(conn, cmd) => conn !in s.readers && cmd.IsResponseType()
    case DeleteAndSpawn(conn) => conn in s.readers
    case JobStep(j) => j < |s.jobs| && !s.jobs[j].stage.Closed? && s.jobs[j].call < |s.calls|
    case ShutDownDelete(_) => true
  }

  function WithCall(s: State, i: nat, c: Call): State
    requires i < |s.calls|
  {
    s.(calls := s.calls[i := c])
  }

  function WithFuture(s: State, i: nat, f: Future): State
    requires i < |s.calls|
  {
    WithCall(s, i, s.calls[i].(future := f))
  }

  function WithPhase(s: State, i: nat, p: Phase): State
    requires i < |s.calls|
  {
    WithCall(s, i, s.calls[i].(phase := p))
  }

  function WithoutKey(s: State, id: int32): State {
    s.(table := s.table - {id})
  }

  /** The next step of a completion goroutine, on the future it completes. */
  function Progress(f: Future, job: Job): Future {
    match job.stage
    case Taken => SetResponse(f, job.cmd)
    case ResponseSet => RunOnce(f)
    case CallbackRun => CloseDone(f)
    case Closed => f
  }

  function Next(job: Job): Job {
    job.(stage := match job.stage case Taken => ResponseSet case ResponseSet => CallbackRun case _ => Closed)
  }

  function JobStepped(s: State, j: nat): State
    requires Enabled(s, JobStep(j))
  {
    var job := s.jobs[j];
    WithFuture(s.(jobs := s.jobs[j := Next(job)]), job.call, Progress(s.calls[job.call].future, job))
  }

  function Apply(s: State, a: Action): State
    requires Enabled(s, a)
  {
    match a
    case Begin(id, isAsync, hasCallback) =>
      s.(calls := s.calls + [Call(NewFuture(id, hasCallback), isAsync, Sending)], table := s.table[id := |s.calls|])
    case SendOk(i) => WithPhase(s, i, Waiting)
    case SendFail(i) => WithPhase(s, i, SendFailed)
    case Expire(i) => WithFuture(s, i, s.calls[i].future.(expired := true))
    case WakeOnDone(i) =>
      var f := s.calls[i].future;
      WithPhase(s, i, Woken(f.response, f.timedOut))
    case WakeOnTimeout(i) =>
      var c := s.calls[i];
      WithCall(s, i, c.(future := SetTimeout(c.future), phase := Woken(None, true)))
    case AfterWait(i) =>
      var c := s.calls[i];
      WithCall(s, i, c.(future := if c.isAsync && c.phase.timedOut then RunOnce(c.future) else c.future,
      phase := Leaving(c.phase.cmd, c.phase.timedOut)))
    case Leave(i) =>
      var c := s.calls[i];
      var result := if c.phase.SendFailed? then NotSent else Returned(c.phase.cmd, c.phase.timedOut);
      WithPhase(WithoutKey(s, c.future.id), i, Finished(result))
    case Load(conn, cmd) =>
      var heard := s.(received := s.received + {cmd});
      if cmd.requestId in s.table then heard.(readers := s.readers[conn := Held(s.table[cmd.requestId], cmd)])
      else heard
    case DeleteAndSpawn(conn) =>
      var held := s.readers[conn];
      WithoutKey(s, held.cmd.requestId).(readers := s.readers - {conn}, jobs := s.jobs + [Job(held.call, held.cmd, Taken)])
    case JobStep(j) => JobStepped(s, j)
    case ShutDownDelete(id) => WithoutKey(s, id)
  }

  function Step(s: State, a: Action): State {
    if Enabled(s, a) then Apply(s, a) else s
  }

  /** The state after any schedule; actions that are not enabled when their turn comes do nothing. */
  function Run(s: State, actions: seq<Action>): State
    decreases |actions|
  {
    if actions == [] then s else Run(Step(s, actions[0]), actions[1..])
  }

  /** Every opaque is answered on one connection: `route` says which. */
  ghost predicate Routed(route: int32 -> nat, actions: seq<Action>) {
    forall a | a in actions && a.Load? :: a.conn == route(a.cmd.requestId)
  }

  // ---------------------------------------------------------------------------
  // The invariant
  // ---------------------------------------------------------------------------

  ghost predicate NoJob(jobs: seq<Job>, i: nat) {
    forall job | job in jobs :: job.call != i
  }

  /** A response that was received for this future. */
  ghost predicate Answers(received: set<RemotingCommand>, f: Future, cmd: RemotingCommand) {
    cmd.requestId == f.id && cmd in received && cmd.IsResponseType()
  }

  ghost predicate TableOk(s: State) {
    forall id | id in s.table ::
      && s.table[id] < |s.calls|
      && s.calls[s.table[id]].future.id == id
      && !s.calls[s.table[id]].phase.Finished?
      && NoJob(s.jobs, s.table[id])
  }

  ghost predicate ReadersOk(route: int32 -> nat, s: State) {
    forall conn | conn in s.readers ::
      && s.readers[conn].call < |s.calls|
      && Answers(s.received, s.calls[s.readers[conn].call].future, s.readers[conn].cmd)
      && route(s.readers[conn].cmd.requestId) == conn
      && NoJob(s.jobs, s.readers[conn].call)
  }

  /** How far a completion has got shows in the future it completes. */
  ghost predicate StageOk(f: Future, job: Job) {
    match job.stage
    case Taken => f.response == None && f.closes == 0
    case ResponseSet => f.response == Some(job.cmd) && f.closes == 0
    case CallbackRun => f.response == Some(job.cmd) && f.closes == 0 && f.onceDone
    case Closed => f.response == Some(job.cmd) && f.closes == 1 && f.onceDone
  }

  ghost predicate JobsOk(s: State) {
    && (forall j | 0 <= j < |s.jobs| ::
          && s.jobs[j].call < |s.calls|
          && Answers(s.received, s.calls[s.jobs[j].call].future, s.jobs[j].cmd)
          && StageOk(s.calls[s.jobs[j].call].future, s.jobs[j]))
    && (forall i, j | 0 <= i < j < |s.jobs| :: s.jobs[i].call != s.jobs[j].call)
    && (forall i | 0 <= i < |s.calls| && NoJob(s.jobs, i) ::
          s.calls[i].future.response == None && s.calls[i].future.closes == 0)
  }

  /** What waitResponse returned: the future's own response without an error, or the timeout error alone. */
  ghost predicate OutcomeOk(c: Call, cmd: Option<RemotingCommand>, timedOut: bool) {
    && timedOut == c.future.timedOut
    && (timedOut ==> cmd == None)
    && (!timedOut ==> cmd.Some? && cmd == c.future.response && c.future.closes == 1)
  }

  ghost predicate CallOk(received: set<RemotingCommand>, c: Call) {
    var f := c.future;
    && (f.response.Some? ==> Answers(received, f, f.response.value))
    && f.closes <= 1
    && (f.closes == 1 ==> f.response.Some? && f.onceDone)
    && (f.timedOut ==> f.expired)
    && |f.runs| == (if f.onceDone && f.hasCallback then 1 else 0)
    && (forall seen | seen in f.runs :: seen.response.Some? || seen.timedOut)
    && match c.phase
       case Sending => !f.timedOut
       case SendFailed => !f.timedOut
       case Waiting => !f.timedOut
       case Woken(cmd, timedOut) => OutcomeOk(c, cmd, timedOut)
       case Leaving(cmd, timedOut) => OutcomeOk(c, cmd, timedOut) && (c.isAsync ==> f.onceDone)
       case Finished(NotSent) => !f.timedOut
       case Finished(Returned(cmd, timedOut)) => OutcomeOk(c, cmd, timedOut) && (c.isAsync ==> f.onceDone)
  }

  ghost predicate CallsOk(s: State) {
    forall i | 0 <= i < |s.calls| :: CallOk(s.received, s.calls[i])
  }

  ghost predicate Inv(route: int32 -> nat, s: State) {
    TableOk(s) && ReadersOk(route, s) && JobsOk(s) && CallsOk(s)
  }

  /** Changing one call in ways that no completion can notice. */
  lemma CallChanges(route: int32 -> nat, s: State, i: nat, c: Call)
    requires Inv(route, s) && i < |s.calls| && CallOk(s.received, c)
    requires var f, g := s.calls[i].future, c.future;
             f.id == g.id && f.response == g.response && f.closes == g.closes && (f.onceDone ==> g.onceDone)
    requires s.calls[i].phase.Finished? ==> c.phase.Finished?
    requires c.phase.Finished? ==> forall id | id in s.table :: s.table[id] != i
    ensures Inv(route, WithCall(s, i, c))
  {
    hide CallOk, NoJob;
    var t := WithCall(s, i, c);
    assert TableOk(t) && ReadersOk(route, t);
    assert JobsOk(t);
  }

  lemma KeyGoes(route: int32 -> nat, s: State, id: int32)
    requires Inv(route, s)
    ensures Inv(route, WithoutKey(s, id))
  {
    var t := WithoutKey(s, id);
  }

  lemma NewCallOk(received: set<RemotingCommand>, id: int32, isAsync: bool, hasCallback: bool)
    ensures CallOk(received, Call(NewFuture(id, hasCallback), isAsync, Sending))
  {
  }

  lemma BeginKeeps(route: int32 -> nat, s: State, id: int32, isAsync: bool, hasCallback: bool)
    requires Inv(route, s) && Enabled(s, Begin(id, isAsync, hasCallback))
    ensures Inv(route, Apply(s, Begin(id, isAsync, hasCallback)))
  {
    hide StageOk, CallOk;
    var t := Apply(s, Begin(id, isAsync, hasCallback));
    assert CallOk(t.received, t.calls[|s.calls|]) by { NewCallOk(s.received, id, isAsync, hasCallback); }
    assert NoJob(s.jobs, |s.calls|) by {
      forall job | job in s.jobs ensures job.call != |s.calls| {}
    }
  }

  lemma LoadKeeps(route: int32 -> nat, s: State, conn: nat, cmd: RemotingCommand)
    requires Inv(route, s) && Enabled(s, Load(conn, cmd)) && conn == route(cmd.requestId)
    ensures Inv(route, Apply(s, Load(conn, cmd)))
  {
    var t := Apply(s, Load(conn, cmd));
    assert CallsOk(t);
  }

  lemma SpawnKeeps(route: int32 -> nat, s: State, conn: nat)
    requires Inv(route, s) && Enabled(s, DeleteAndSpawn(conn))
    ensures Inv(route, Apply(s, DeleteAndSpawn(conn)))
  {
    var t := Apply(s, DeleteAndSpawn(conn));
    var held := s.readers[conn];
    var job := Job(held.call, held.cmd, Taken);
    assert t.jobs == s.jobs + [job];
    forall k: nat ensures NoJob(t.jobs, k) == (NoJob(s.jobs, k) && k != held.call) {
      assert job in t.jobs;
      forall x | x in s.jobs ensures x in t.jobs {}
    }
    assert NoJob(s.jobs, held.call);
    forall other | other in t.readers ensures t.readers[other].call != held.call {
      assert route(s.readers[other].cmd.requestId) == other && route(held.cmd.requestId) == conn;
    }
    forall i, j | 0 <= i < j < |t.jobs| ensures t.jobs[i].call != t.jobs[j].call {
      if j == |s.jobs| {
        assert s.jobs[i] in s.jobs;
      }
    }
  }

  lemma StageMoves(jobs: seq<Job>, j: nat, job: Job)
    requires j < |jobs| && job.call == jobs[j].call
    ensures forall k: nat :: NoJob(jobs[j := job], k) == NoJob(jobs, k)
  {
    forall k: nat | NoJob(jobs[j := job], k) ensures NoJob(jobs, k) {
      forall x | x in jobs ensures x.call != k {
        var n :| 0 <= n < |jobs| && jobs[n] == x;
        assert jobs[j := job][n] in jobs[j := job];
      }
    }
  }

  lemma JobCallOk(received: set<RemotingCommand>, c: Call, job: Job)
    requires CallOk(received, c) && StageOk(c.future, job) && !job.stage.Closed? && Answers(received, c.future, job.cmd)
    ensures var f := Progress(c.future, job);
            f.id == c.future.id && CallOk(received, c.(future := f)) && StageOk(f, Next(job))
  {
  }

  lemma JobKeeps(route: int32 -> nat, s: State, j: nat)
    requires Inv(route, s) && Enabled(s, JobStep(j))
    ensures Inv(route, Apply(s, JobStep(j)))
  {
    hide CallOk, StageOk, NoJob, Progress;
    var job, c := s.jobs[j], s.calls[s.jobs[j].call];
    JobCallOk(s.received, c, job);
    JobChanges(route, s, j, Next(job), c.(future := Progress(c.future, job)));
  }

  /** Advancing one completion together with the call it completes. */
  lemma JobChanges(route: int32 -> nat, s: State, j: nat, job: Job, c: Call)
    requires Inv(route, s) && j < |s.jobs| && CallOk(s.received, c) && StageOk(c.future, job)
    requires job.call == s.jobs[j].call && job.cmd == s.jobs[j].cmd
    requires c.future.id == s.calls[job.call].future.id && c.phase == s.calls[job.call].phase
    ensures Inv(route, WithCall(s.(jobs := s.jobs[j := job]), job.call, c))
  {
    hide CallOk, NoJob, StageOk;
    var t := WithCall(s.(jobs := s.jobs[j := job]), job.call, c);
    StageMoves(s.jobs, j, job);
    assert !NoJob(s.jobs, job.call) by {
      HasJob(s.jobs, j);
    }
    assert TableOk(t) && ReadersOk(route, t);
    assert JobsOk(t);
  }

  lemma HasJob(jobs: seq<Job>, j: nat)
    requires j < |jobs|
    ensures !NoJob(jobs, jobs[j].call)
  {
    assert jobs[j] in jobs;
  }

  lemma LeaveKeeps(route: int32 -> nat, s: State, i: nat)
    requires Inv(route, s) && Enabled(s, Leave(i))
    ensures Inv(route, Apply(s, Leave(i)))
  {
    KeyGoes(route, s, s.calls[i].future.id);
    assert CallOk(s.received, s.calls[i]);
    CallChanges(route, WithoutKey(s, s.calls[i].future.id), i, Apply(s, Leave(i)).calls[i]);
  }

  /** The steps of a caller, its waiter and its context that leave the table alone. */
  ghost predicate IsCallerStep(a: Action) {
    a.SendOk? || a.SendFail? || a.Expire? || a.WakeOnDone? || a.WakeOnTimeout? || a.AfterWait?
  }

  lemma CallerStepOk(s: State, a: Action)
    requires IsCallerStep(a) && Enabled(s, a) && CallOk(s.received, s.calls[a.i])
    ensures var c, d := s.calls[a.i], Apply(s, a).calls[a.i];
            && CallOk(s.received, d) && Apply(s, a) == WithCall(s, a.i, d)
            && c.future.id == d.future.id && c.future.response == d.future.response
            && c.future.closes == d.future.closes && (c.future.onceDone ==> d.future.onceDone)
            && (c.phase.Finished? <==> d.phase.Finished?)
  {
  }

  lemma StepKeeps(route: int32 -> nat, s: State, a: Action)
    requires Inv(route, s) && (a.Load? ==> a.conn == route(a.cmd.requestId))
    ensures Inv(route, Step(s, a))
  {
    hide Apply, CallOk, NoJob;
    if Enabled(s, a) {
      match a {
        case Begin(id, isAsync, hasCallback) => BeginKeeps(route, s, id, isAsync, hasCallback);
        case Load(conn, cmd) => LoadKeeps(route, s, conn, cmd);
        case DeleteAndSpawn(conn) => SpawnKeeps(route, s, conn);
        case JobStep(j) => JobKeeps(route, s, j);
        case ShutDownDelete(id) => ShutDownKeeps(route, s, id);
        case Leave(i) => LeaveKeeps(route, s, i);
        case _ => CallerStepKeeps(route, s, a);
      }
    }
  }

  lemma ShutDownKeeps(route: int32 -> nat, s: State, id: int32)
    requires Inv(route, s)
    ensures Inv(route, Apply(s, ShutDownDelete(id)))
  {
    KeyGoes(route, s, id);
  }

  lemma CallerStepKeeps(route: int32 -> nat, s: State, a: Action)
    requires Inv(route, s) && IsCallerStep(a) && Enabled(s, a)
    ensures Inv(route, Apply(s, a))
  {
    hide Apply, CallOk, NoJob;
    CallerStepOk(s, a);
    CallChanges(route, s, a.i, Apply(s, a).calls[a.i]);
  }

  lemma {:induction false} RunKeeps(route: int32 -> nat, s: State, actions: seq<Action>)
    requires Inv(route, s) && Routed(route, actions)
    ensures Inv(route, Run(s, actions))
    decreases |actions|
  {
    if actions != [] {
      assert actions[0] in actions;
      StepKeeps(route, s, actions[0]);
      RunKeeps(route, Step(s, actions[0]), actions[1..]);
    }
  }

  // ---------------------------------------------------------------------------
  // Safety over whole runs
  // ---------------------------------------------------------------------------

  /** The table leads from an opaque to the unfinished call with that opaque, never to a completed future. */
  ghost predicate TableIsSound(s: State) {
    forall id | id in s.table ::
      && s.table[id] < |s.calls|
      && var c := s.calls[s.table[id]]; c.future.id == id && !c.phase.Finished? && c.future.closes == 0
  }

  /** A call that returned a command returned a received response with its own opaque; otherwise it timed out. */
  ghost predicate ReturnsOwnResponse(s: State, c: Call) {
    c.phase.Finished? && c.phase.result.Returned? ==>
      var Returned(cmd, timedOut) := c.phase.result;
      && (!timedOut ==> cmd.Some? && Answers(s.received, c.future, cmd.value))
      && (timedOut ==> cmd == None && c.future.expired)
  }

  /** The callback of a finished InvokeAsync that returned nil has run once, on a response or on the timeout error. */
  ghost predicate CalledBackOnce(c: Call) {
    c.phase.Finished? && c.phase.result.Returned? && c.isAsync && c.future.hasCallback ==>
      |c.future.runs| == 1 && (c.future.runs[0].response.Some? || c.future.runs[0].timedOut)
  }

  /** In every schedule, with each opaque answered on one connection; calls in flight may even share an opaque. */
  lemma CorrelationIsSafe(route: int32 -> nat, actions: seq<Action>)
    requires Routed(route, actions)
    ensures var s := Run(INIT, actions);
            && TableIsSound(s)
            && forall i | 0 <= i < |s.calls| ::
                 && s.calls[i].future.closes <= 1
                 && |s.calls[i].future.runs| <= 1
                 && ReturnsOwnResponse(s, s.calls[i])
                 && CalledBackOnce(s.calls[i])
  {
    var s := Run(INIT, actions);
    assert Inv(route, INIT);
    RunKeeps(route, INIT, actions);
    forall id | id in s.table ensures s.calls[s.table[id]].future.closes == 0 {
      assert NoJob(s.jobs, s.table[id]);
    }
    forall i | 0 <= i < |s.calls|
      ensures s.calls[i].future.closes <= 1 && |s.calls[i].future.runs| <= 1
      ensures ReturnsOwnResponse(s, s.calls[i]) && CalledBackOnce(s.calls[i])
    {
      assert CallOk(s.received, s.calls[i]);
    }
  }

  lemma {:induction false} RunAppend(s: State, first: seq<Action>, more: seq<Action>)
    ensures Run(s, first + more) == Run(Run(s, first), more)
    decreases |first|
  {
    if first == [] {
      assert first + more == more;
    } else {
      assert (first + more)[0] == first[0] && (first + more)[1..] == first[1..] + more;
      RunAppend(Step(s, first[0]), first[1..], more);
    }
  }

  /** What later steps may do to a call: its outcome, once there, stands, and callback runs only accumulate. */
  ghost predicate Stands(c: Call, d: Call) {
    && d.future.id == c.future.id && d.isAsync == c.isAsync && d.future.hasCallback == c.future.hasCallback
    && (c.phase.Finished? ==> d.phase == c.phase)
    && c.future.runs <= d.future.runs
  }

  lemma ProgressExtends(f: Future, job: Job)
    ensures var g := Progress(f, job); g.id == f.id && g.hasCallback == f.hasCallback && f.runs <= g.runs
  {
  }

  lemma JobStepStands(s: State, j: nat, i: nat)
    requires i < |s.calls| && Enabled(s, JobStep(j))
    ensures |JobStepped(s, j).calls| == |s.calls| && Stands(s.calls[i], JobStepped(s, j).calls[i])
  {
    hide Progress;
    ProgressExtends(s.calls[s.jobs[j].call].future, s.jobs[j]);
  }

  lemma StepStands(s: State, a: Action, i: nat)
    requires i < |s.calls|
    ensures i < |Step(s, a).calls| && Stands(s.calls[i], Step(s, a).calls[i])
  {
    hide JobStepped;
    if a.JobStep? && Enabled(s, a) {
      JobStepStands(s, a.j, i);
    }
  }

  lemma {:induction false} RunStands(s: State, more: seq<Action>, i: nat)
    requires i < |s.calls|
    ensures i < |Run(s, more).calls| && Stands(s.calls[i], Run(s, more).calls[i])
    decreases |more|
  {
    hide Step;
    if more != [] {
      StepStands(s, more[0], i);
      RunStands(Step(s, more[0]), more[1..], i);
    }
  }

  /** Late and duplicate responses, and anything else that happens later, change nothing for a finished call:
      its result stands and its callback does not run again. */
  lemma LateEventsChangeNothing(route: int32 -> nat, actions: seq<Action>, more: seq<Action>, i: nat)
    requires Routed(route, actions + more)
    requires var s := Run(INIT, actions);
             i < |s.calls| && s.calls[i].phase.Finished? && s.calls[i].phase.result.Returned?
    ensures i < |Run(INIT, actions + more).calls|
    ensures var c, d := Run(INIT, actions).calls[i], Run(INIT, actions + more).calls[i];
            d.phase == c.phase && (c.isAsync ==> d.future.runs == c.future.runs)
  {
    var s, t := Run(INIT, actions), Run(INIT, actions + more);
    RunAppend(INIT, actions, more);
    RunStands(s, more, i);
    forall a | a in actions && a.Load? ensures a.conn == route(a.cmd.requestId) {
      assert a in actions + more;
    }
    RunKeeps(route, INIT, actions);
    RunKeeps(route, INIT, actions + more);
    assert CallOk(s.received, s.calls[i]) && CallOk(t.received, t.calls[i]);
  }

  // ---------------------------------------------------------------------------
  // Delivery
  // ---------------------------------------------------------------------------

  /** The table, a reader or a completion leads to this call: a response can still reach it, or is about to. */
  ghost predicate Reached(s: State, i: nat) {
    || (exists id | id in s.table :: s.table[id] == i)
    || (exists conn | conn in s.readers :: s.readers[conn].call == i)
    || !NoJob(s.jobs, i)
  }

  ghost predicate Expects(c: Call) {
    c.phase.Sending? || c.phase.Waiting?
  }

  ghost predicate NobodyLost(s: State) {
    forall i | 0 <= i < |s.calls| && Expects(s.calls[i]) :: Reached(s, i)
  }

  /** A new call has an opaque that no unfinished call has and no reader holds a response for; and the client is not
      shutting down. */
  ghost predicate Fresh(s: State, a: Action) {
    && (a.Begin? ==>
          && (forall c | c in s.calls :: c.phase.Finished? || c.future.id != a.id)
          && (forall conn | conn in s.readers :: s.readers[conn].cmd.requestId != a.id))
    && !a.ShutDownDelete?
  }

  ghost predicate AllFresh(s: State, actions: seq<Action>)
    decreases |actions|
  {
    actions == [] || (Fresh(s, actions[0]) && AllFresh(Step(s, actions[0]), actions[1..]))
  }

  /** An opaque in flight means one call, in the table and for the readers. */
  ghost predicate OpaquesApart(s: State) {
    && (forall i, j | 0 <= i < j < |s.calls| && !s.calls[i].phase.Finished? && !s.calls[j].phase.Finished? ::
          s.calls[i].future.id != s.calls[j].future.id)
    && (forall id | id in s.table ::
          s.table[id] < |s.calls| && s.calls[s.table[id]].future.id == id && !s.calls[s.table[id]].phase.Finished?)
    && (forall conn, i | conn in s.readers && 0 <= i < |s.calls| && !s.calls[i].phase.Finished? ::
          s.calls[i].future.id == s.readers[conn].cmd.requestId ==> s.readers[conn].call == i)
  }

  lemma JobsGrow(jobs: seq<Job>, job: Job, i: nat)
    ensures NoJob(jobs + [job], i) <==> NoJob(jobs, i) && job.call != i
  {
    assert job in jobs + [job];
    assert forall x | x in jobs :: x in jobs + [job];
  }

  lemma CallerStepShape(s: State, a: Action)
    requires IsCallerStep(a) && Enabled(s, a)
    ensures var t, c := Apply(s, a), s.calls[a.i];
            && t == WithCall(s, a.i, t.calls[a.i]) && t.calls[a.i].future.id == c.future.id
            && (t.calls[a.i].phase.Finished? <==> c.phase.Finished?) && (Expects(t.calls[a.i]) ==> Expects(c))
  {
  }

  lemma JobStepShape(s: State, j: nat)
    requires Enabled(s, JobStep(j))
    ensures var t, i := Apply(s, JobStep(j)), s.jobs[j].call;
            && t.table == s.table && t.readers == s.readers && |t.calls| == |s.calls|
            && (forall k | 0 <= k < |s.calls| :: t.calls[k].phase == s.calls[k].phase && t.calls[k].future.id == s.calls[k].future.id)
            && forall k: nat :: NoJob(t.jobs, k) == NoJob(s.jobs, k)
  {
    StageMoves(s.jobs, j, Next(s.jobs[j]));
  }

  /** A fresh step loses nobody. */
  lemma StepLosesNobody(s: State, a: Action)
    requires OpaquesApart(s) && NobodyLost(s) && Fresh(s, a)
    ensures OpaquesApart(Step(s, a)) && NobodyLost(Step(s, a))
  {
    hide NoJob, Apply;
    if Enabled(s, a) {
      match a {
        case Begin(id, isAsync, hasCallback) => BeginLosesNobody(s, id, isAsync, hasCallback);
        case Load(conn, cmd) => LoadLosesNobody(s, conn, cmd);
        case DeleteAndSpawn(conn) => SpawnLosesNobody(s, conn);
        case JobStep(j) => JobStepLosesNobody(s, j);
        case Leave(i) => LeaveLosesNobody(s, i);
        case _ => CallerStepLosesNobody(s, a);
      }
    }
  }

  lemma BeginLosesNobody(s: State, id: int32, isAsync: bool, hasCallback: bool)
    requires OpaquesApart(s) && NobodyLost(s) && Fresh(s, Begin(id, isAsync, hasCallback))
    ensures var t := Apply(s, Begin(id, isAsync, hasCallback)); OpaquesApart(t) && NobodyLost(t)
  {
    hide NoJob;
    var t := Apply(s, Begin(id, isAsync, hasCallback));
    forall i | 0 <= i < |s.calls| && !s.calls[i].phase.Finished? ensures s.calls[i].future.id != id {
      assert s.calls[i] in s.calls;
    }
    assert t.table[id] == |s.calls|;
    forall i | 0 <= i < |s.calls| && Expects(s.calls[i]) ensures Reached(t, i) {
      assert Reached(s, i);
      if key :| key in s.table && s.table[key] == i {
        assert key in t.table && t.table[key] == i;
      }
    }
  }

  lemma LoadLosesNobody(s: State, conn: nat, cmd: RemotingCommand)
    requires OpaquesApart(s) && NobodyLost(s) && Enabled(s, Load(conn, cmd))
    ensures var t := Apply(s, Load(conn, cmd)); OpaquesApart(t) && NobodyLost(t)
  {
    hide NoJob;
    var t := Apply(s, Load(conn, cmd));
    forall i | 0 <= i < |s.calls| && Expects(s.calls[i]) ensures Reached(t, i) {
      assert Reached(s, i);
      if other :| other in s.readers && s.readers[other].call == i {
        assert other in t.readers && t.readers[other].call == i;
      }
    }
  }

  lemma SpawnLosesNobody(s: State, conn: nat)
    requires OpaquesApart(s) && NobodyLost(s) && Enabled(s, DeleteAndSpawn(conn))
    ensures var t := Apply(s, DeleteAndSpawn(conn)); OpaquesApart(t) && NobodyLost(t)
  {
    hide NoJob;
    var t, held := Apply(s, DeleteAndSpawn(conn)), s.readers[conn];
    forall i | 0 <= i < |s.calls| && Expects(s.calls[i]) ensures Reached(t, i) {
      assert Reached(s, i);
      JobsGrow(s.jobs, Job(held.call, held.cmd, Taken), i);
      if held.call != i {
        if key :| key in s.table && s.table[key] == i {
          assert key in t.table;
        } else if other :| other in s.readers && s.readers[other].call == i {
          assert other in t.readers;
        }
      }
    }
  }

  lemma JobStepLosesNobody(s: State, j: nat)
    requires OpaquesApart(s) && NobodyLost(s) && Enabled(s, JobStep(j))
    ensures var t := Apply(s, JobStep(j)); OpaquesApart(t) && NobodyLost(t)
  {
    hide NoJob, Apply;
    JobStepShape(s, j);
    var t := Apply(s, JobStep(j));
    forall i | 0 <= i < |t.calls| && Expects(t.calls[i]) ensures Reached(t, i) {
      assert Reached(s, i);
    }
  }

  lemma LeaveLosesNobody(s: State, i: nat)
    requires OpaquesApart(s) && NobodyLost(s) && Enabled(s, Leave(i))
    ensures var t := Apply(s, Leave(i)); OpaquesApart(t) && NobodyLost(t)
  {
    hide NoJob;
    var t := Apply(s, Leave(i));
    forall k | 0 <= k < |s.calls| && k != i && Expects(s.calls[k]) ensures Reached(t, k) {
      assert Reached(s, k);
      if key :| key in s.table && s.table[key] == k {
        assert key in t.table && t.table[key] == k;
      }
    }
  }

  lemma CallerStepLosesNobody(s: State, a: Action)
    requires OpaquesApart(s) && NobodyLost(s) && IsCallerStep(a) && Enabled(s, a)
    ensures OpaquesApart(Apply(s, a)) && NobodyLost(Apply(s, a))
  {
    hide NoJob, Apply;
    CallerStepShape(s, a);
    var t := Apply(s, a);
    forall i | 0 <= i < |t.calls| && Expects(t.calls[i]) ensures Reached(t, i) {
      assert Reached(s, i);
    }
  }

  lemma {:induction false} RunLosesNobody(s: State, actions: seq<Action>)
    requires OpaquesApart(s) && NobodyLost(s) && AllFresh(s, actions)
    ensures NobodyLost(Run(s, actions))
    decreases |actions|
  {
    hide Step, Fresh, OpaquesApart, NobodyLost;
    if actions != [] {
      StepLosesNobody(s, actions[0]);
      RunLosesNobody(Step(s, actions[0]), actions[1..]);
    }
  }

  /** In every schedule without shutdown whose new calls have fresh opaques, no call that expects a response is lost: its
      response is still looked for in the table, or held by a reader, or being completed. */
  lemma NobodyIsLost(actions: seq<Action>)
    requires AllFresh(INIT, actions)
    ensures NobodyLost(Run(INIT, actions))
  {
    RunLosesNobody(INIT, actions);
  }

  /** And a response to a call in the table, processed to the end, is what the call returns. */
  lemma AnsweredCallReturns(s: State, i: nat, conn: nat, cmd: RemotingCommand) returns (actions: seq<Action>)
    requires i < |s.calls| && s.calls[i].phase.Waiting? && !s.calls[i].future.timedOut && s.calls[i].future.id == cmd.requestId
    requires cmd.requestId in s.table && s.table[cmd.requestId] == i && cmd.IsResponseType() && conn !in s.readers
    ensures var t := Run(s, actions);
            && i < |t.calls| && t.calls[i].phase == Finished(Returned(Some(cmd), false))
            && t.table == WithoutKey(s, cmd.requestId).table
            && t.calls[i].future == CloseDone(RunOnce(SetResponse(s.calls[i].future, cmd)))
    ensures forall a | a in actions :: !a.Begin? && !a.ShutDownDelete? && (a.Load? ==> a.cmd == cmd && a.conn == conn)
  {
    hide Step;
    var j := |s.jobs|;
    var answer := [Load(conn, cmd), DeleteAndSpawn(conn)] + [JobStep(j), JobStep(j), JobStep(j)];
    var wake := [WakeOnDone(i), AfterWait(i), Leave(i)];
    UninterruptedResponse(s, conn, cmd);
    var t := Run(s, answer);
    RunAppend(s, answer, wake);
    WokenReturns(t, i, cmd);
    actions := answer + wake;
  }

  lemma WokenReturns(s: State, i: nat, cmd: RemotingCommand)
    requires i < |s.calls| && s.calls[i].phase.Waiting?
    requires s.calls[i].future.closes > 0 && s.calls[i].future.response == Some(cmd) && !s.calls[i].future.timedOut
    ensures var t := Run(s, [WakeOnDone(i), AfterWait(i), Leave(i)]);
            && i < |t.calls| && t.calls[i].phase == Finished(Returned(Some(cmd), false))
            && t.table == WithoutKey(s, s.calls[i].future.id).table && t.calls[i].future == s.calls[i].future
  {
    var a, b, c := WakeOnDone(i), AfterWait(i), Leave(i);
    RunOfThree(s, a, b, c);
  }

  /** A new call takes the place of an unfinished one with its opaque: someone is lost exactly when the call it displaces
      from the table still expects its response and nothing else leads to it. */
  lemma BeginLosesIff(s: State, id: int32, isAsync: bool, hasCallback: bool)
    requires NobodyLost(s) && forall key, other | key in s.table && other in s.table && s.table[key] == s.table[other] :: key == other
    requires forall key | key in s.table :: s.table[key] < |s.calls|
    ensures var t := Apply(s, Begin(id, isAsync, hasCallback));
            !NobodyLost(t) <==>
            id in s.table && Expects(s.calls[s.table[id]]) && NoJob(s.jobs, s.table[id])
            && forall conn | conn in s.readers :: s.readers[conn].call != s.table[id]
  {
    hide NoJob;
    var t := Apply(s, Begin(id, isAsync, hasCallback));
    assert t.table[id] == |s.calls|;
    forall i | 0 <= i < |s.calls| && Expects(s.calls[i]) && !(id in s.table && s.table[id] == i) ensures Reached(t, i) {
      assert Reached(s, i);
      if key :| key in s.table && s.table[key] == i {
        assert key in t.table && t.table[key] == i;
      }
    }
    if id in s.table {
      var k := s.table[id];
      assert t.calls[k] == s.calls[k];
      forall key | key in t.table ensures t.table[key] != k {
        if key != id {
          assert key in s.table;
        }
      }
    }
  }

  /** How a call can stand that no response reached. */
  ghost predicate Unanswered(c: Call) {
    && c.future.response == None && c.future.closes == 0
    && match c.phase
       case Woken(cmd, timedOut) => cmd == None && timedOut
       case Leaving(cmd, timedOut) => cmd == None && timedOut
       case Finished(Returned(cmd, timedOut)) => cmd == None && timedOut
       case _ => true
  }

  lemma StepStaysLost(s: State, a: Action, i: nat)
    requires i < |s.calls| && !Reached(s, i) && Unanswered(s.calls[i])
    ensures i < |Step(s, a).calls| && !Reached(Step(s, a), i) && Unanswered(Step(s, a).calls[i])
  {
    hide NoJob, JobStepped;
    if Enabled(s, a) {
      match a {
        case JobStep(j) =>
          JobStepShape(s, j);
          HasJob(s.jobs, j);
          assert s.jobs[j].call != i;
          JobLeavesAlone(s, j, i);
        case DeleteAndSpawn(conn) =>
          JobsGrow(s.jobs, Job(s.readers[conn].call, s.readers[conn].cmd, Taken), i);
        case _ =>
      }
    }
  }

  lemma JobLeavesAlone(s: State, j: nat, i: nat)
    requires Enabled(s, JobStep(j)) && i < |s.calls| && s.jobs[j].call != i
    ensures JobStepped(s, j).calls[i] == s.calls[i]
  {
  }

  /** A lost call stays lost: in no continuation does a response reach it, and if it returns at all it has timed out. */
  lemma {:induction false} LostForever(s: State, actions: seq<Action>, i: nat)
    requires i < |s.calls| && !Reached(s, i) && Unanswered(s.calls[i])
    ensures i < |Run(s, actions).calls| && Unanswered(Run(s, actions).calls[i])
    decreases |actions|
  {
    hide Step, Reached, Unanswered;
    if actions != [] {
      StepStaysLost(s, actions[0], i);
      LostForever(Step(s, actions[0]), actions[1..], i);
    }
  }

  /** So fresh opaques are needed: whenever a new call displaces an unanswered one that only the table led to, the earlier
      call never gets a response, whatever happens afterwards. */
  lemma DisplacedCallIsLost(s: State, id: int32, isAsync: bool, hasCallback: bool, actions: seq<Action>)
    requires id in s.table && s.table[id] < |s.calls| && Unanswered(s.calls[s.table[id]]) && NoJob(s.jobs, s.table[id])
    requires forall key | key in s.table && s.table[key] == s.table[id] :: key == id
    requires forall conn | conn in s.readers :: s.readers[conn].call != s.table[id]
    ensures var k, t := s.table[id], Run(Step(s, Begin(id, isAsync, hasCallback)), actions);
            k < |t.calls| && Unanswered(t.calls[k])
  {
    hide NoJob, Unanswered;
    var k, t := s.table[id], Step(s, Begin(id, isAsync, hasCallback));
    assert t.calls[k] == s.calls[k];
    assert !Reached(t, k);
    LostForever(t, actions, k);
  }

  /** Nor is it enough that no unfinished call has the opaque: a reader that still holds a response to an earlier call
      deletes the key of the new one, and the new call is lost. */
  lemma StaleReaderLosesCall(route: int32 -> nat, s: State, conn: nat, isAsync: bool, hasCallback: bool, actions: seq<Action>)
    requires Inv(route, s) && conn in s.readers
    ensures var begin := Begin(s.readers[conn].cmd.requestId, isAsync, hasCallback);
            var k, t := |s.calls|, Run(Step(Step(s, begin), DeleteAndSpawn(conn)), actions);
            k < |t.calls| && Unanswered(t.calls[k])
  {
    hide NoJob, CallsOk, StageOk;
    var begin := Begin(s.readers[conn].cmd.requestId, isAsync, hasCallback);
    var k, b, t := |s.calls|, Step(s, begin), Step(Step(s, begin), DeleteAndSpawn(conn));
    assert t.calls[k] == b.calls[k] && b.readers == s.readers;
    NoJobBeyond(s, k);
    JobsGrow(s.jobs, Job(s.readers[conn].call, s.readers[conn].cmd, Taken), k);
    assert !Reached(t, k);
    LostForever(t, actions, k);
  }

  lemma NoJobBeyond(s: State, k: nat)
    requires JobsOk(s) && k >= |s.calls|
    ensures NoJob(s.jobs, k)
  {
    hide StageOk;
  }

  // ---------------------------------------------------------------------------
  // How a call can end
  // ---------------------------------------------------------------------------

  /** From any state: a call whose request cannot be written returns the error of the write and nothing else. Its key is
      gone, its callback has not run, and nobody else has noticed. */
  lemma FailedSendReturnsNotSent(s: State, id: int32, isAsync: bool, hasCallback: bool)
    ensures var i := |s.calls|;
            var t := Run(s, [Begin(id, isAsync, hasCallback), SendFail(i), Leave(i)]);
            && t.calls == s.calls + [Call(NewFuture(id, hasCallback), isAsync, Finished(NotSent))]
            && t.table == s.table - {id} && t.readers == s.readers && t.jobs == s.jobs && t.received == s.received
  {
    hide Run, Step;
    var i := |s.calls|;
    RunOfThree(s, Begin(id, isAsync, hasCallback), SendFail(i), Leave(i));
    BeginStep(s, id, isAsync, hasCallback);
    var t := Step(s, Begin(id, isAsync, hasCallback));
    SendFailStep(t, i);
    LeaveStep(Step(t, SendFail(i)), i);
  }

  lemma BeginStep(s: State, id: int32, isAsync: bool, hasCallback: bool)
    ensures Step(s, Begin(id, isAsync, hasCallback)) ==
            s.(calls := s.calls + [Call(NewFuture(id, hasCallback), isAsync, Sending)], table := s.table[id := |s.calls|])
  {
  }

  lemma SendFailStep(s: State, i: nat)
    requires i < |s.calls| && s.calls[i].phase.Sending?
    ensures Step(s, SendFail(i)) == s.(calls := s.calls[i := s.calls[i].(phase := SendFailed)])
  {
  }

  lemma LeaveStep(s: State, i: nat)
    requires i < |s.calls| && (s.calls[i].phase.SendFailed? || s.calls[i].phase.Leaving?)
    ensures Step(s, Leave(i)) ==
            s.(calls := s.calls[i := s.calls[i].(phase := Finished(if s.calls[i].phase.SendFailed? then NotSent
                                                                   else Returned(s.calls[i].phase.cmd, s.calls[i].phase.timedOut)))],
               table := s.table - {s.calls[i].future.id})
  {
  }

  /** The write error is final: whatever happens afterwards, the call returns that error or has not returned yet. */
  lemma {:induction false} FailedSendStays(s: State, actions: seq<Action>, i: nat)
    requires i < |s.calls| && (s.calls[i].phase == SendFailed || s.calls[i].phase == Finished(NotSent))
    ensures var t := Run(s, actions);
            i < |t.calls| && (t.calls[i].phase == SendFailed || t.calls[i].phase == Finished(NotSent))
    decreases |actions|
  {
    hide Step;
    if actions != [] {
      FailedSendStep(s, actions[0], i);
      FailedSendStays(Step(s, actions[0]), actions[1..], i);
    }
  }

  lemma FailedSendStep(s: State, a: Action, i: nat)
    requires i < |s.calls| && (s.calls[i].phase == SendFailed || s.calls[i].phase == Finished(NotSent))
    ensures var t := Step(s, a);
            i < |t.calls| && (t.calls[i].phase == SendFailed || t.calls[i].phase == Finished(NotSent))
  {
  }

  /** From any state: a call that nobody answers before its context ends returns the timeout error, and not before. Its key
      is gone, and the callback of an asynchronous call has run once and seen that error. */
  lemma UnansweredCallTimesOut(s: State, id: int32, isAsync: bool, hasCallback: bool)
    ensures var i := |s.calls|;
            var t := Run(s, [Begin(id, isAsync, hasCallback), SendOk(i), Expire(i)] + [WakeOnTimeout(i), AfterWait(i), Leave(i)]);
            && t.table == s.table - {id} && |t.calls| == i + 1 && t.calls[..i] == s.calls
            && t.calls[i].phase == Finished(Returned(None, true)) && t.calls[i].future.closes == 0
            && t.calls[i].future.runs == if isAsync && hasCallback then [Seen(None, true)] else []
    ensures var sent := Run(s, [Begin(id, isAsync, hasCallback), SendOk(|s.calls|)]);
            Step(sent, WakeOnTimeout(|s.calls|)) == sent
  {
    hide Run, Step, RunOnce;
    var i := |s.calls|;
    var a, b := Begin(id, isAsync, hasCallback), WakeOnTimeout(i);
    RunAppend(s, [a, SendOk(i), Expire(i)], [b, AfterWait(i), Leave(i)]);
    RunOfThree(s, a, SendOk(i), Expire(i));
    BeginStep(s, id, isAsync, hasCallback);
    var t0 := Step(s, a);
    var t1 := Step(Step(t0, SendOk(i)), Expire(i));
    assert t1 == t0.(calls := s.calls + [t0.calls[i].(phase := Waiting, future := t0.calls[i].future.(expired := true))]) by {
      SendAndExpire(t0, i);
    }
    RunOfThree(t1, b, AfterWait(i), Leave(i));
    TimeoutSteps(t1, i);
    RunOfTwo(s, a, SendOk(i));
    NotBeforeItExpires(Step(t0, SendOk(i)), i) by {
      SendOkStep(t0, i);
    }
  }

  lemma NotBeforeItExpires(s: State, i: nat)
    requires i < |s.calls| && !s.calls[i].future.expired
    ensures Step(s, WakeOnTimeout(i)) == s
  {
  }

  lemma SendAndExpire(s: State, i: nat)
    requires i < |s.calls| && s.calls[i].phase.Sending?
    ensures Step(Step(s, SendOk(i)), Expire(i)) ==
            s.(calls := s.calls[i := s.calls[i].(phase := Waiting, future := s.calls[i].future.(expired := true))])
  {
  }

  lemma TimeoutSteps(s: State, i: nat)
    requires i < |s.calls| && s.calls[i].phase.Waiting? && s.calls[i].future.expired
    ensures var c := s.calls[i];
            var g := c.future.(timedOut := true);
            var h := if !c.isAsync || g.onceDone then g
                     else g.(onceDone := true, runs := if g.hasCallback then g.runs + [Seen(g.response, true)] else g.runs);
            Step(Step(Step(s, WakeOnTimeout(i)), AfterWait(i)), Leave(i)) ==
            s.(calls := s.calls[i := Call(h, c.isAsync, Finished(Returned(None, true)))], table := s.table - {c.future.id})
  {
  }

  /** From any state: a call that is answered returns its answer, and its callback has run once and seen it. */
  lemma AnsweredCallEnds(s: State, id: int32, isAsync: bool, hasCallback: bool, conn: nat, cmd: RemotingCommand)
    returns (actions: seq<Action>)
    requires cmd.requestId == id && cmd.IsResponseType() && conn !in s.readers
    ensures var t, i := Run(s, [Begin(id, isAsync, hasCallback), SendOk(|s.calls|)] + actions), |s.calls|;
            && i < |t.calls| && t.calls[i].phase == Finished(Returned(Some(cmd), false)) && id !in t.table
            && t.calls[i].future.closes == 1
            && t.calls[i].future.runs == if hasCallback then [Seen(Some(cmd), false)] else []
    ensures forall a | a in actions :: !a.Begin? && !a.ShutDownDelete? && (a.Load? ==> a.cmd == cmd && a.conn == conn)
  {
    hide Run, Step;
    var i := |s.calls|;
    var a := Begin(id, isAsync, hasCallback);
    RunOfTwo(s, a, SendOk(i));
    BeginStep(s, id, isAsync, hasCallback);
    SendOkStep(Step(s, a), i);
    var t := Run(s, [a, SendOk(i)]);
    assert t.calls[i] == Call(NewFuture(id, hasCallback), isAsync, Waiting);
    actions := AnsweredCallReturns(t, i, conn, cmd);
    RunAppend(s, [a, SendOk(i)], actions);
  }

  lemma SendOkStep(s: State, i: nat)
    requires i < |s.calls| && s.calls[i].phase.Sending?
    ensures Step(s, SendOk(i)) == s.(calls := s.calls[i := s.calls[i].(phase := Waiting)])
  {
  }

  /** Shutdown takes a waiting call out of the table: unless a response is already on its way to it, none ever gets
      there. */
  lemma ShutDownAbandons(s: State, id: int32, actions: seq<Action>)
    requires id in s.table && s.table[id] < |s.calls| && Unanswered(s.calls[s.table[id]]) && NoJob(s.jobs, s.table[id])
    requires forall key | key in s.table && s.table[key] == s.table[id] :: key == id
    requires forall conn | conn in s.readers :: s.readers[conn].call != s.table[id]
    ensures id !in Step(s, ShutDownDelete(id)).table
    ensures forall key | key != id :: key in Step(s, ShutDownDelete(id)).table <==> key in s.table
    ensures var k, t := s.table[id], Run(Step(s, ShutDownDelete(id)), actions);
            k < |t.calls| && Unanswered(t.calls[k])
  {
    hide NoJob, Unanswered;
    var k, t := s.table[id], Step(s, ShutDownDelete(id));
    assert !Reached(t, k);
    LostForever(t, actions, k);
  }

  // ---------------------------------------------------------------------------
  // Why one connection per opaque, and where distinct opaques come from
  // ---------------------------------------------------------------------------

  /** Two readers that both load a future before either deletes its key, each on its own connection. */
  function BothTake(cmd: RemotingCommand, conn: nat, other: nat): seq<Action> {
    [Begin(cmd.requestId, false, false), Load(conn, cmd), Load(other, cmd), DeleteAndSpawn(conn), DeleteAndSpawn(other)]
  }

  lemma BothReadersTake(cmd: RemotingCommand, conn: nat, other: nat)
    requires cmd.IsResponseType() && conn != other
    ensures var call := Call(NewFuture(cmd.requestId, false), false, Sending);
            Run(INIT, BothTake(cmd, conn, other))
            == State(map[], [call], map[], [Job(0, cmd, Taken), Job(0, cmd, Taken)], {cmd})
  {
    var id, call, held := cmd.requestId, Call(NewFuture(cmd.requestId, false), false, Sending), Held(0, cmd);
    var s1 := State(map[id := 0], [call], map[], [], {});
    var s2 := State(map[id := 0], [call], map[conn := held], [], {cmd});
    var s3 := State(map[id := 0], [call], map[conn := held, other := held], [], {cmd});
    var s4 := State(map[], [call], map[other := held], [Job(0, cmd, Taken)], {cmd});
    var s5 := State(map[], [call], map[], [Job(0, cmd, Taken), Job(0, cmd, Taken)], {cmd});
    assert Step(INIT, Begin(id, false, false)) == s1;
    assert Step(s1, Load(conn, cmd)) == s2;
    assert Step(s2, Load(other, cmd)) == s3;
    assert s3.table - {id} == map[] && s3.readers - {conn} == s4.readers;
    assert Step(s3, DeleteAndSpawn(conn)) == s4;
    assert s4.table - {id} == map[] && s4.readers - {other} == map[];
    assert Step(s4, DeleteAndSpawn(other)) == s5;
    RunOfFive(INIT, Begin(id, false, false), Load(conn, cmd), Load(other, cmd), DeleteAndSpawn(conn), DeleteAndSpawn(other));
  }

  lemma RunOfOne(s: State, a: Action, more: seq<Action>)
    ensures Run(s, [a] + more) == Run(Step(s, a), more)
  {
  }

  lemma RunOfFive(s: State, a: Action, b: Action, c: Action, d: Action, e: Action)
    ensures Run(s, [a, b, c, d, e]) == Step(Step(Step(Step(Step(s, a), b), c), d), e)
  {
    hide Step;
    var s1 := Step(s, a);
    var s2 := Step(s1, b);
    var s3 := Step(s2, c);
    var s4 := Step(s3, d);
    RunOfOne(s, a, [b, c, d, e]);
    RunOfOne(s1, b, [c, d, e]);
    RunOfOne(s2, c, [d, e]);
    RunOfOne(s3, d, [e]);
    RunOfOne(s4, e, []);
    assert [a, b, c, d, e] == [a] + [b, c, d, e] && [b, c, d, e] == [b] + [c, d, e];
    assert [c, d, e] == [c] + [d, e] && [d, e] == [d] + [e] && [e] == [e] + [];
  }

  lemma RunOfThree(s: State, a: Action, b: Action, c: Action)
    ensures Run(s, [a, b, c]) == Step(Step(Step(s, a), b), c)
  {
    hide Step;
    RunOfOne(s, a, [b, c]);
    RunOfOne(Step(s, a), b, [c]);
    RunOfOne(Step(Step(s, a), b), c, []);
    assert [a, b, c] == [a] + [b, c] && [b, c] == [b] + [c] && [c] == [c] + [];
  }

  /** Three steps complete a job: afterwards its future has been closed once more. */
  lemma JobRuns(s: State, j: nat)
    requires j < |s.jobs| && s.jobs[j].stage.Taken? && s.jobs[j].call < |s.calls|
    ensures var i, t := s.jobs[j].call, Run(s, [JobStep(j), JobStep(j), JobStep(j)]);
            && |t.calls| == |s.calls| && t.calls[i].future.closes == s.calls[i].future.closes + 1
            && t.table == s.table
            && t.calls == s.calls[i := s.calls[i].(future := CloseDone(RunOnce(SetResponse(s.calls[i].future, s.jobs[j].cmd))))]
            && t.jobs == s.jobs[j := s.jobs[j].(stage := Closed)]
  {
    hide Run, Step;
    var a := JobStep(j);
    var s1 := Step(s, a);
    var s2 := Step(s1, a);
    RunOfThree(s, a, a, a);
    StageRuns(s, j);
    StageRuns(s1, j);
    StageRuns(s2, j);
  }

  lemma StageRuns(s: State, j: nat)
    requires Enabled(s, JobStep(j))
    ensures var i, job := s.jobs[j].call, s.jobs[j];
            Step(s, JobStep(j)) == s.(calls := s.calls[i := s.calls[i].(future := Progress(s.calls[i].future, job))],
                                      jobs := s.jobs[j := Next(job)])
  {
  }

  /** The connections on which each opaque may be answered allow only these responses. */
  ghost predicate Permitted(may: (nat, int32) -> bool, actions: seq<Action>) {
    forall a | a in actions && a.Load? :: may(a.conn, a.cmd.requestId)
  }

  ghost predicate OneConnectionEach(may: (nat, int32) -> bool) {
    forall conn, other, id | may(conn, id) && may(other, id) :: conn == other
  }

  ghost predicate ClosedOnce(s: State) {
    forall c | c in s.calls :: c.future.closes <= 1
  }

  /** Load and Delete are two steps: when two connections may answer one opaque, both readers can take the same
      future, and its Done channel is closed twice, which is a panic in Go. */
  lemma TwoConnectionsCloseTwice(cmd: RemotingCommand, conn: nat, other: nat) returns (actions: seq<Action>)
    requires cmd.IsResponseType() && conn != other
    ensures |Run(INIT, actions).calls| == 1 && Run(INIT, actions).calls[0].future.closes == 2
    ensures forall a | a in actions && a.Load? :: a.cmd == cmd && (a.conn == conn || a.conn == other)
  {
    hide Step;
    var take := BothTake(cmd, conn, other);
    var first, second := [JobStep(0), JobStep(0), JobStep(0)], [JobStep(1), JobStep(1), JobStep(1)];
    BothReadersTake(cmd, conn, other);
    var s := Run(INIT, take);
    JobRuns(s, 0);
    JobRuns(Run(s, first), 1);
    RunAppend(INIT, take, first);
    RunAppend(INIT, take + first, second);
    actions := take + first + second;
  }

  /** Done is closed at most once in every schedule exactly when no opaque may be answered on two connections. */
  lemma ClosedOnceIff(may: (nat, int32) -> bool)
    ensures (forall actions | Permitted(may, actions) :: ClosedOnce(Run(INIT, actions))) <==> OneConnectionEach(may)
  {
    hide Run, TableIsSound, ReturnsOwnResponse, CalledBackOnce;
    if OneConnectionEach(may) {
      var route := RouteOf(may);
      forall actions | Permitted(may, actions) ensures ClosedOnce(Run(INIT, actions)) {
        assert Routed(route, actions);
        CorrelationIsSafe(route, actions);
      }
    } else {
      var conn, other, id :| may(conn, id) && may(other, id) && conn != other;
      var cmd := RemotingCommand(0, GO_LANGUAGE, 0, id, RESPONSE_TYPE, [], None, None);
      var actions := TwoConnectionsCloseTwice(cmd, conn, other);
      assert Permitted(may, actions);
      assert Run(INIT, actions).calls[0] in Run(INIT, actions).calls;
    }
  }

  ghost function RouteOf(may: (nat, int32) -> bool): (route: int32 -> nat)
    requires OneConnectionEach(may)
    ensures forall conn: nat, id: int32 | may(conn, id) :: route(id) == conn
  {
    (id: int32) => if exists conn: nat :: may(conn, id) then (var conn: nat :| may(conn, id); conn) else 0
  }

  /** The opaque of the n-th command: atomic.AddInt32 on a 32-bit counter. */
  function NthOpaque(start: int32, n: nat): int32 {
    Wrap32(start + n)
  }

  /** Two commands share an opaque exactly when a multiple of 2^32 commands lies between them. */
  lemma OpaquesRepeatIff(start: int32, m: nat, n: nat)
    ensures NthOpaque(start, m) == NthOpaque(start, n) <==> (m - n) % 0x1_0000_0000 == 0
  {
    var a, b := start + m, start + n;
    assert a - b == (a / 0x1_0000_0000 - b / 0x1_0000_0000) * 0x1_0000_0000 + (a % 0x1_0000_0000 - b % 0x1_0000_0000);
  }

  // ---------------------------------------------------------------------------
  // The objects
  // ---------------------------------------------------------------------------

  /** Run without interruption, the five steps that answer a response do to table and future what ProcessCMD does
      below: the key goes, the future is completed, and every other call is left alone. */
  lemma UninterruptedResponse(s: State, conn: nat, cmd: RemotingCommand)
    requires conn !in s.readers && cmd.IsResponseType() && cmd.requestId in s.table && s.table[cmd.requestId] < |s.calls|
    ensures var j, i := |s.jobs|, s.table[cmd.requestId];
            var t := Run(s, [Load(conn, cmd), DeleteAndSpawn(conn)] + [JobStep(j), JobStep(j), JobStep(j)]);
            && t.table == s.table - {cmd.requestId}
            && t.calls == s.calls[i := s.calls[i].(future := CloseDone(RunOnce(SetResponse(s.calls[i].future, cmd))))]
  {
    var j, i := |s.jobs|, s.table[cmd.requestId];
    var loaded := Step(s, Load(conn, cmd));
    var taken := Step(loaded, DeleteAndSpawn(conn));
    RunAppend(s, [Load(conn, cmd), DeleteAndSpawn(conn)], [JobStep(j), JobStep(j), JobStep(j)]);
    RunOfTwo(s, Load(conn, cmd), DeleteAndSpawn(conn));
    assert taken.jobs[j] == Job(i, cmd, Taken) && taken.calls == s.calls && taken.table == s.table - {cmd.requestId};
    JobRuns(taken, j);
  }

  lemma RunOfTwo(s: State, a: Action, b: Action)
    ensures Run(s, [a, b]) == Step(Step(s, a), b)
  {
    hide Step;
    assert [a, b][1..] == [b] && [b][1..] == [];
    assert Run(Step(s, a), [b]) == Step(Step(s, a), b);
  }

  /** The reply to a request: that of the function, under the opaque of the request and marked as a response. */
  function Reply(f: Processor, cmd: RemotingCommand): Option<RemotingCommand> {
    match f(cmd)
    case None => None
    case Some(res) => Some(res.(requestId := cmd.requestId, flag := MarkResponse(res.flag)))
  }

  /** Such a reply is a response with the opaque of the request, so it completes the call that sent the request and no
      other; the request itself changes nothing at the client that receives it. */
  lemma ReplyCompletesCall(f: Processor, cmd: RemotingCommand, s: State, conn: nat)
    requires cmd.flag % 2 == 0
    ensures Step(s, Load(conn, cmd)) == s
    ensures Reply(f, cmd).Some? && conn !in s.readers && cmd.requestId in s.table && s.table[cmd.requestId] < |s.calls| ==>
              var reply, j, i := Reply(f, cmd).value, |s.jobs|, s.table[cmd.requestId];
              var t := Run(s, [Load(conn, reply), DeleteAndSpawn(conn)] + [JobStep(j), JobStep(j), JobStep(j)]);
              && t.table == s.table - {cmd.requestId}
              && t.calls == s.calls[i := s.calls[i].(future := CloseDone(RunOnce(SetResponse(s.calls[i].future, reply))))]
  {
    hide Run, RunOnce;
    if Reply(f, cmd).Some? && conn !in s.readers && cmd.requestId in s.table && s.table[cmd.requestId] < |s.calls| {
      var reply := Reply(f, cmd).value;
      assert reply.flag % 2 == 1 && reply.requestId == cmd.requestId;
      UninterruptedResponse(s, conn, reply);
    }
  }

  class ResponseFuture {
    const id: int32
    const hasCallback: bool
    var responseCommand: Option<RemotingCommand>
    var err: bool
    var onceDone: bool
    var closes: nat
    ghost var runs: seq<Seen>
    ghost var expired: bool

    ghost function View(): Future
      reads this
    {
      Future(id, hasCallback, responseCommand, err, onceDone, runs, closes, expired)
    }

    constructor (id: int32, hasCallback: bool)
      ensures View() == NewFuture(id, hasCallback)
    {
      this.id, this.hasCallback := id, hasCallback;
      responseCommand, err, onceDone, closes := None, false, false, 0;
      runs, expired := [], false;
    }

    method ExecuteInvokeCallback()
      modifies this
      ensures View() == RunOnce(old(View()))
    {
      if !onceDone {
        onceDone := true;
        if hasCallback {
          runs := runs + [Seen(responseCommand, err)];
        }
      }
    }

    /** The select of waitResponse: either channel, if it is ready. */
    method WaitResponse(viaContext: bool) returns (cmd: Option<RemotingCommand>, timedOut: bool)
      requires if viaContext then expired else closes > 0
      modifies this
      ensures viaContext ==> cmd == None && timedOut && View() == SetTimeout(old(View()))
      ensures !viaContext ==> cmd == responseCommand && timedOut == err && View() == old(View())
    {
      cmd, timedOut := None, false;
      if viaContext {
        timedOut := true;
        err := timedOut;
      } else {
        cmd, timedOut := responseCommand, err;
      }
    }

    /** The goroutine that processCMD starts, run without interruption. */
    method Complete(cmd: RemotingCommand)
      modifies this
      ensures View() == CloseDone(RunOnce(SetResponse(old(View()), cmd)))
    {
      responseCommand := Some(cmd);
      ExecuteInvokeCallback();
      closes := closes + 1;
    }
  }

  /** What a registered function answers to a request of the server; `None` is no answer. */
  type Processor = RemotingCommand -> Option<RemotingCommand>

  class RemotingClient {
    var responseTable: map<int32, ResponseFuture>
    var processors: map<int, Processor>

    constructor ()
      ensures responseTable == map[] && processors == map[]
    {
      responseTable, processors := map[], map[];
    }

    method RegisterRequestFunc(code: int16, f: Processor)
      modifies this`processors
      ensures processors == old(processors)[code := f]
    {
      processors := processors[code := f];
    }

    /** The first half of InvokeSync and InvokeAsync. */
    method Register(id: int32, hasCallback: bool) returns (f: ResponseFuture)
      modifies this`responseTable
      ensures fresh(f) && f.View() == NewFuture(id, hasCallback)
      ensures responseTable == old(responseTable)[id := f]
    {
      f := new ResponseFuture(id, hasCallback);
      responseTable := responseTable[f.id := f];
    }

    /** processCMD. A response, that is a command with an odd flag, takes the waiting future, if any, out of the table
        and completes it. Any other command is a request: it touches neither table nor futures, and the reply of the
        function registered for its code, if any, goes back marked as a response to it. */
    method ProcessCMD(cmd: RemotingCommand) returns (reply: Option<RemotingCommand>)
      modifies this`responseTable, responseTable.Values
      ensures cmd.flag % 2 == 0 ==>
                responseTable == old(responseTable) && forall f | f in old(responseTable).Values :: f.View() == old(f.View())
      ensures cmd.flag % 2 == 0 ==>
                reply == if cmd.code in processors then Reply(processors[cmd.code], cmd) else None
      ensures cmd.flag % 2 == 1 ==> reply == None && responseTable == old(responseTable) - {cmd.requestId}
      ensures forall f | cmd.flag % 2 == 1 && f in old(responseTable).Values ::
                f.View() == if cmd.requestId in old(responseTable) && old(responseTable)[cmd.requestId] == f
                            then CloseDone(RunOnce(SetResponse(old(f.View()), cmd)))
                            else old(f.View())
      ensures forall f | cmd.flag % 2 == 1 && f in old(responseTable).Values && cmd.requestId in old(responseTable)
                         && old(responseTable)[cmd.requestId] == f ::
                f.responseCommand == Some(cmd) && f.closes == old(f.closes) + 1 && f.onceDone
                && f.runs == old(f.runs) + if f.hasCallback && !old(f.onceDone) then [Seen(Some(cmd), old(f.err))] else []
    {
      reply := None;
      if cmd.IsResponseType() {
        if cmd.requestId in responseTable {
          var f := responseTable[cmd.requestId];
          responseTable := responseTable - {cmd.requestId};
          f.Complete(cmd);
        }
      } else if cmd.code in processors {
        var f := processors[cmd.code];
        var res := f(cmd);
        if res.Some? {
          var marked := res.value.(requestId := cmd.requestId);
          marked := marked.(flag := MarkResponse(marked.flag));
          reply := Some(marked);
        }
      }
    }

    /** ShutDown empties the table key by key and leaves every future to its context. */
    method ShutDown()
      modifies this`responseTable
      ensures responseTable == map[]
    {
      while responseTable.Keys != {}
        invariant responseTable.Keys <= old(responseTable).Keys
        decreases responseTable.Keys
      {
        var id :| id in responseTable.Keys;
        responseTable := responseTable - {id};
        assert id !in responseTable.Keys;
      }
    }
  }
}
