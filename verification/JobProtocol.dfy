/**
 * Clients, one worker and shutdown (src/server/q3_server.c) as a transition system. Each job is owned by its client;
 * queue operations and the flags of a job are protected by mutexes, so each critical section is one step or a pair of
 * steps that hold the mutex.
 */
module JobProtocol {

  datatype Owner = Nobody | Client | Worker

  /** Where the client of a job is: dispatch_job and wait_for_job_or_disconnect. */
  datatype Phase = Fresh | Refused | Queued | Checking | Sleeping | Leaving | Freed

  datatype Job = Job(phase: Phase, done: bool, cancelled: bool, mutex: Owner)

  /** worker_main: between jobs, inside job_run, before locking the job, holding its mutex, or returned. */
  datatype WorkerAt = Idle | Running(job: nat) | Ran(job: nat) | Signalling(job: nat) | Exited

  datatype MainAt = Serving | Stopped | Joined

  /** accepted and ran are the histories of successful enqueues and of completed job_run calls. */
  datatype State = State(jobs: map<nat, Job>, queue: seq<nat>, worker: WorkerAt, main: MainAt,
                         accepted: seq<nat>, ran: seq<nat>)

  datatype Action =
    | NewJob(id: nat)          // server_job_new
    | Enqueue(id: nat)         // enqueue: queued, or refused
    | FreeRefused(id: nat)     // 429 and server_job_free
    | LockJob(id: nat)         // wait_for_job_or_disconnect: lock
    | Sleep(id: nat)           // not done: pthread_cond_timedwait releases the mutex
    | Wake(id: nat, gone: bool) // the wait returns with the mutex; the client may have disconnected
    | Leave(id: nat)           // done: unlock
    | FreeDone(id: nat)        // reply unless cancelled, then server_job_free
    | Take                     // dequeue returns a job
    | Finish                   // job_run returns
    | Signal                   // lock the job and set done
    | Unlock                   // unlock the job
    | Exit                     // dequeue returns NULL
    | Stop                     // queue_stop
    | Join                     // pthread_join returns, the ring buffer is freed

  function Init(): State { State(map[], [], Idle, Serving, [], []) }

  function Stopping(s: State): bool { s.main != Serving }

  predicate PhaseIs(s: State, id: nat, p: Phase) { id in s.jobs && s.jobs[id].phase == p }

  predicate Enabled(cap: nat, s: State, a: Action) {
    match a
    case NewJob(id) => id !in s.jobs
    case Enqueue(id) => PhaseIs(s, id, Fresh)
    case FreeRefused(id) => PhaseIs(s, id, Refused)
    case LockJob(id) => PhaseIs(s, id, Queued) && s.jobs[id].mutex == Nobody
    case Sleep(id) => PhaseIs(s, id, Checking) && !s.jobs[id].done
    case Wake(id, gone) => PhaseIs(s, id, Sleeping) && s.jobs[id].mutex == Nobody
    case Leave(id) => PhaseIs(s, id, Checking) && s.jobs[id].done
    case FreeDone(id) => PhaseIs(s, id, Leaving)
    case Take => s.worker == Idle && s.queue != []
    case Finish => s.worker.Running?
    case Signal => s.worker.Ran? && s.worker.job in s.jobs && s.jobs[s.worker.job].mutex == Nobody
    case Unlock => s.worker.Signalling? && s.worker.job in s.jobs
    case Exit => s.worker == Idle && s.queue == [] && Stopping(s)
    case Stop => s.main == Serving
    case Join => s.main == Stopped && s.worker == Exited
  }

  function With(s: State, id: nat, j: Job): State { s.(jobs := s.jobs[id := j]) }

  function Do(cap: nat, s: State, a: Action): State
    requires Enabled(cap, s, a)
  {
    match a
    case NewJob(id) => With(s, id, Job(Fresh, false, false, Nobody))
    case Enqueue(id) =>
      if Stopping(s) || |s.queue| >= cap then With(s, id, s.jobs[id].(phase := Refused))
      else With(s, id, s.jobs[id].(phase := Queued)).(queue := s.queue + [id], accepted := s.accepted + [id])
    case FreeRefused(id) => With(s, id, s.jobs[id].(phase := Freed))
    case LockJob(id) => With(s, id, s.jobs[id].(phase := Checking, mutex := Client))
    case Sleep(id) => With(s, id, s.jobs[id].(phase := Sleeping, mutex := Nobody))
    case Wake(id, gone) =>
      var j := s.jobs[id];
      With(s, id, j.(phase := Checking, mutex := Client, cancelled := j.cancelled || (gone && !j.done)))
    case Leave(id) => With(s, id, s.jobs[id].(phase := Leaving, mutex := Nobody))
    case FreeDone(id) => With(s, id, s.jobs[id].(phase := Freed))
    case Take => s.(worker := Running(s.queue[0]), queue := s.queue[1..])
    case Finish => s.(worker := Ran(s.worker.job), ran := s.ran + [s.worker.job])
    case Signal =>
      var j := s.jobs[s.worker.job].(done := true, mutex := Worker);
      With(s, s.worker.job, j).(worker := Signalling(s.worker.job))
    case Unlock => With(s, s.worker.job, s.jobs[s.worker.job].(mutex := Nobody)).(worker := Idle)
    case Exit => s.(worker := Exited)
    case Stop => s.(main := Stopped)
    case Join => s.(main := Joined)
  }

  // ---------------------------------------------------------------- the invariant

  function InFlight(w: WorkerAt): seq<nat> { if w.Running? then [w.job] else [] }

  ghost predicate NoRepeat(xs: seq<nat>) { forall i, j :: 0 <= i < j < |xs| ==> xs[i] != xs[j] }

  /** What one job may look like, given the rest. */
  ghost predicate JobOk(s: State, id: nat)
    requires id in s.jobs
  {
    var j := s.jobs[id];
    && (j.mutex == Client <==> j.phase == Checking)
    && (j.mutex == Worker <==> s.worker == Signalling(id))
    && (j.mutex == Worker ==> j.phase in {Queued, Sleeping})
    && (id !in s.accepted ==> j.phase in {Fresh, Refused, Freed} && !j.done && !j.cancelled)
    && (id in s.accepted ==> j.phase !in {Fresh, Refused})
    && (id in s.accepted && j.phase in {Leaving, Freed} ==> j.done)
    && (j.done <==> id in s.ran && s.worker != Ran(id))
  }

  ghost predicate WorkerOk(s: State) {
    match s.worker
    case Idle => true
    case Running(j) => true
    case Ran(j) => s.ran != [] && s.ran[|s.ran| - 1] == j
    case Signalling(j) => s.ran != [] && s.ran[|s.ran| - 1] == j
    case Exited => s.queue == [] && Stopping(s)
  }

  ghost predicate Inv(cap: nat, s: State) {
    && s.accepted == s.ran + InFlight(s.worker) + s.queue
    && NoRepeat(s.accepted) && |s.queue| <= cap
    && (forall id :: id in s.accepted ==> id in s.jobs)
    && (forall id :: id in s.jobs ==> JobOk(s, id))
    && WorkerOk(s)
    && (s.main == Joined ==> s.worker == Exited)
  }

  lemma InitInv(cap: nat)
    ensures Inv(cap, Init())
  {
  }

  /** The client's own steps on its job, after enqueueing. */
  lemma ClientKeepsInv(cap: nat, s: State, a: Action)
    requires Inv(cap, s) && Enabled(cap, s, a)
    requires a.FreeRefused? || a.LockJob? || a.Sleep? || a.Wake? || a.Leave? || a.FreeDone?
    ensures Inv(cap, Do(cap, s, a))
  {
    var t := Do(cap, s, a);
    forall id | id in t.jobs ensures JobOk(t, id) {
      assert JobOk(s, id);
    }
  }

  lemma NewJobKeepsInv(cap: nat, s: State, id: nat)
    requires Inv(cap, s) && Enabled(cap, s, NewJob(id))
    ensures Inv(cap, Do(cap, s, NewJob(id)))
  {
    var t := Do(cap, s, NewJob(id));
    AcceptedCovers(s);
    assert id !in s.accepted && id !in s.ran && s.worker != Signalling(id);
    forall k | k in t.jobs ensures JobOk(t, k) {
      assert k != id ==> JobOk(s, k);
    }
  }

  /** Everything that ran, runs or waits was accepted. */
  lemma AcceptedCovers(s: State)
    requires s.accepted == s.ran + InFlight(s.worker) + s.queue && WorkerOk(s)
    ensures forall id :: id in s.ran ==> id in s.accepted
    ensures s.worker.Running? || s.worker.Ran? || s.worker.Signalling? ==> s.worker.job in s.accepted
    ensures forall id :: id in s.queue ==> id in s.accepted
  {
    forall i | 0 <= i < |s.ran| ensures s.ran[i] == s.accepted[i] {
    }
    if s.worker.Running? {
      assert s.accepted[|s.ran|] == s.worker.job;
    }
    forall i | 0 <= i < |s.queue| ensures s.queue[i] == s.accepted[|s.ran| + |InFlight(s.worker)| + i] {
    }
  }

  lemma EnqueueKeepsInv(cap: nat, s: State, id: nat)
    requires Inv(cap, s) && Enabled(cap, s, Enqueue(id))
    ensures Inv(cap, Do(cap, s, Enqueue(id)))
  {
    var t := Do(cap, s, Enqueue(id));
    assert JobOk(s, id);
    assert id !in s.accepted;
    if !(Stopping(s) || |s.queue| >= cap) {
      assert t.accepted == s.ran + InFlight(s.worker) + (s.queue + [id]);
      assert NoRepeat(t.accepted);
    }
    forall k | k in t.jobs ensures JobOk(t, k) {
      assert JobOk(s, k);
    }
  }

  lemma TakeKeepsInv(cap: nat, s: State)
    requires Inv(cap, s) && Enabled(cap, s, Take)
    ensures Inv(cap, Do(cap, s, Take))
  {
    var t := Do(cap, s, Take);
    assert s.queue == [s.queue[0]] + s.queue[1..];
    forall k | k in t.jobs ensures JobOk(t, k) {
      assert JobOk(s, k);
    }
  }

  lemma FinishKeepsInv(cap: nat, s: State)
    requires Inv(cap, s) && Enabled(cap, s, Finish)
    ensures Inv(cap, Do(cap, s, Finish))
  {
    var t := Do(cap, s, Finish);
    assert t.accepted == s.ran + [s.worker.job] + s.queue;
    assert forall i :: 0 <= i < |s.ran| ==> s.ran[i] == s.accepted[i];
    assert s.accepted[|s.ran|] == s.worker.job;
    assert s.worker.job !in s.ran;
    forall k | k in t.jobs ensures JobOk(t, k) {
      assert JobOk(s, k);
      assert k in t.ran <==> k in s.ran || k == s.worker.job;
    }
  }

  lemma SignalKeepsInv(cap: nat, s: State, a: Action)
    requires Inv(cap, s) && Enabled(cap, s, a) && (a == Signal || a == Unlock)
    ensures Inv(cap, Do(cap, s, a))
  {
    var t := Do(cap, s, a);
    AcceptedCovers(s);
    forall k | k in t.jobs ensures JobOk(t, k) {
      assert JobOk(s, k);
    }
  }

  lemma MainKeepsInv(cap: nat, s: State, a: Action)
    requires Inv(cap, s) && Enabled(cap, s, a) && (a == Exit || a == Stop || a == Join)
    ensures Inv(cap, Do(cap, s, a))
  {
    var t := Do(cap, s, a);
    forall k | k in t.jobs ensures JobOk(t, k) {
      assert JobOk(s, k);
    }
  }

  /** Every step of every thread keeps the invariant. */
  lemma StepKeepsInv(cap: nat, s: State, a: Action)
    requires Inv(cap, s) && Enabled(cap, s, a)
    ensures Inv(cap, Do(cap, s, a))
  {
    hide Inv, Do;
    match a
    case NewJob(id) => NewJobKeepsInv(cap, s, id);
    case Enqueue(id) => EnqueueKeepsInv(cap, s, id);
    case Take => TakeKeepsInv(cap, s);
    case Finish => FinishKeepsInv(cap, s);
    case Signal => SignalKeepsInv(cap, s, a);
    case Unlock => SignalKeepsInv(cap, s, a);
    case Exit => MainKeepsInv(cap, s, a);
    case Stop => MainKeepsInv(cap, s, a);
    case Join => MainKeepsInv(cap, s, a);
    case _ => ClientKeepsInv(cap, s, a);
  }

  // ---------------------------------------------------------------- runs

  /** The state after a schedule, if every action of it was possible in its turn. */
  function Execute(cap: nat, s: State, schedule: seq<Action>): (r: Reached)
    decreases |schedule|
  {
    if schedule == [] then At(s)
    else if !Enabled(cap, s, schedule[0]) then Impossible
    else Execute(cap, Do(cap, s, schedule[0]), schedule[1..])
  }

  datatype Reached = At(state: State) | Impossible

  lemma {:induction false} ExecuteKeepsInv(cap: nat, s: State, schedule: seq<Action>)
    requires Inv(cap, s) && Execute(cap, s, schedule).At?
    ensures Inv(cap, Execute(cap, s, schedule).state)
    decreases |schedule|
  {
    hide Inv, Do, Enabled;
    if schedule != [] {
      StepKeepsInv(cap, s, schedule[0]);
      ExecuteKeepsInv(cap, Do(cap, s, schedule[0]), schedule[1..]);
    }
  }

  lemma ReachableInv(cap: nat, schedule: seq<Action>)
    requires Execute(cap, Init(), schedule).At?
    ensures Inv(cap, Execute(cap, Init(), schedule).state)
  {
    InitInv(cap);
    ExecuteKeepsInv(cap, Init(), schedule);
  }

  /**
   * For any schedule of clients, worker and shutdown: the jobs that have run are exactly the first accepted ones, in
   * the order of acceptance and each once; jobs that were refused never run.
   */
  lemma AcceptedRunOnceInOrder(cap: nat, schedule: seq<Action>, id: nat)
    requires Execute(cap, Init(), schedule).At?
    ensures var s := Execute(cap, Init(), schedule).state;
      && s.ran <= s.accepted && NoRepeat(s.ran)
      && (id in s.jobs && s.jobs[id].phase in {Fresh, Refused} ==>
          id !in s.ran && id !in s.queue && s.worker != Running(id))
  {
    ReachableInv(cap, schedule);
    var s := Execute(cap, Init(), schedule).state;
    AcceptedCovers(s);
    assert forall i :: 0 <= i < |s.ran| ==> s.ran[i] == s.accepted[i];
    if id in s.jobs {
      assert JobOk(s, id);
    }
  }

  /** Once the main thread has joined the worker, every accepted job has run: stopping drains the queue. */
  lemma StopDrains(cap: nat, schedule: seq<Action>)
    requires Execute(cap, Init(), schedule).At? && Execute(cap, Init(), schedule).state.main == Joined
    ensures var s := Execute(cap, Init(), schedule).state; s.ran == s.accepted && s.queue == []
  {
    ReachableInv(cap, schedule);
  }

  /** The jobs whose memory an action reads or writes, beyond creating it. */
  function Touched(s: State, a: Action): set<nat> {
    match a
    case NewJob(id) => {}
    case Enqueue(id) => {id}
    case FreeRefused(id) => {id}
    case LockJob(id) => {id}
    case Sleep(id) => {id}
    case Wake(id, gone) => {id}
    case Leave(id) => {id}
    case FreeDone(id) => {id}
    case Take => {}
    case Finish => if s.worker.Running? then {s.worker.job} else {}
    case Signal => if s.worker.Ran? then {s.worker.job} else {}
    case Unlock => if s.worker.Signalling? then {s.worker.job} else {}
    case Exit => {}
    case Stop => {}
    case Join => {}
  }

  /**
   * No use after free: whatever the schedule, a job is freed once, by its own client, and no thread touches it
   * afterwards; in particular not the worker, even if the client disconnected.
   */
  lemma NoUseAfterFree(cap: nat, schedule: seq<Action>, a: Action, id: nat)
    requires Execute(cap, Init(), schedule).At?
    requires Enabled(cap, Execute(cap, Init(), schedule).state, a)
      && id in Touched(Execute(cap, Init(), schedule).state, a)
    ensures var s := Execute(cap, Init(), schedule).state; id in s.jobs && s.jobs[id].phase != Freed
  {
    ReachableInv(cap, schedule);
    var s := Execute(cap, Init(), schedule).state;
    AcceptedCovers(s);
    assert JobOk(s, id);
    if a == Finish {
      assert forall i :: 0 <= i < |s.ran| ==> s.ran[i] == s.accepted[i];
      assert s.accepted[|s.ran|] == id;
    }
  }

  /** A freed job stays freed: no action on it is possible any more, so it cannot be freed again. */
  lemma FreedIsFinal(cap: nat, s: State, a: Action, id: nat)
    requires Enabled(cap, s, a) && PhaseIs(s, id, Freed)
    ensures a !in {FreeRefused(id), FreeDone(id)}
    ensures PhaseIs(Do(cap, s, a), id, Freed)
  {
  }

  /** The ring buffer is freed only when nobody will use it again: enqueue refuses before it looks at the buffer. */
  lemma RingUnusedAfterJoin(cap: nat, schedule: seq<Action>, a: Action)
    requires Execute(cap, Init(), schedule).At? && Execute(cap, Init(), schedule).state.main == Joined
    requires Enabled(cap, Execute(cap, Init(), schedule).state, a)
    ensures var s := Execute(cap, Init(), schedule).state;
      a != Take && Do(cap, s, a).queue == s.queue && Do(cap, s, a).accepted == s.accepted
  {
    ReachableInv(cap, schedule);
  }

  // ---------------------------------------------------------------- progress

  /** Unless it waits for work, the worker can step, or the client that holds the mutex it needs can. */
  lemma WorkerIsNeverStuck(cap: nat, schedule: seq<Action>)
    requires Execute(cap, Init(), schedule).At?
    ensures var s := Execute(cap, Init(), schedule).state;
      || s.worker == Exited || (s.worker == Idle && s.queue == [] && !Stopping(s))
      || Enabled(cap, s, Take) || Enabled(cap, s, Finish) || Enabled(cap, s, Signal) || Enabled(cap, s, Unlock)
      || Enabled(cap, s, Exit)
      || (s.worker.Ran? && (Enabled(cap, s, Sleep(s.worker.job)) || Enabled(cap, s, Leave(s.worker.job))))
  {
    hide Execute, Do, NoRepeat;
    ReachableInv(cap, schedule);
    var s := Execute(cap, Init(), schedule).state;
    AcceptedCovers(s);
    if s.worker.Ran? {
      assert JobOk(s, s.worker.job);
    }
  }

  /** Steps the worker still has to make before it exits, once no job can be added. */
  function WorkerRemaining(s: State): nat {
    4 * |s.queue| + match s.worker
      case Idle => 1
      case Running(_) => 4
      case Ran(_) => 3
      case Signalling(_) => 2
      case Exited => 0
  }

  predicate IsWorkerStep(a: Action) { a in {Take, Finish, Signal, Unlock, Exit} }

  /** After the stop each worker step brings its exit closer and no other step moves it away. */
  lemma ShutdownTerminates(cap: nat, s: State, a: Action)
    requires Stopping(s) && Enabled(cap, s, a)
    ensures Stopping(Do(cap, s, a))
    ensures WorkerRemaining(Do(cap, s, a)) <= WorkerRemaining(s)
    ensures IsWorkerStep(a) ==> WorkerRemaining(Do(cap, s, a)) < WorkerRemaining(s)
    ensures WorkerRemaining(s) == 0 <==> s.queue == [] && s.worker == Exited
  {
  }

  // ---------------------------------------------------------------- what single steps decide

  /** An enqueue is accepted if and only if the server has not stopped and the queue has room. */
  lemma EnqueueDecides(cap: nat, s: State, id: nat)
    requires Enabled(cap, s, Enqueue(id))
    ensures var t := Do(cap, s, Enqueue(id));
      if s.main == Serving && |s.queue| < cap
      then t.queue == s.queue + [id] && t.accepted == s.accepted + [id] && PhaseIs(t, id, Queued)
      else t.queue == s.queue && t.accepted == s.accepted && PhaseIs(t, id, Refused)
  {
  }

  /** The worker takes the oldest job that waits, runs it, and marks it done. */
  lemma WorkerDecides(cap: nat, s: State)
    ensures Enabled(cap, s, Take) <==> s.worker == Idle && s.queue != []
    ensures Enabled(cap, s, Take) ==>
      Do(cap, s, Take).worker == Running(s.queue[0]) && s.queue == [s.queue[0]] + Do(cap, s, Take).queue
    ensures Enabled(cap, s, Finish) ==> Do(cap, s, Finish).ran == s.ran + [s.worker.job]
    ensures Enabled(cap, s, Signal) ==>
      s.worker.job in Do(cap, s, Signal).jobs && Do(cap, s, Signal).jobs[s.worker.job].done
    ensures Enabled(cap, s, Exit) <==> s.worker == Idle && s.queue == [] && s.main != Serving
  {
  }

  /** A job is marked as cancelled exactly when its client is found to be gone before the job is done. */
  lemma WakeDecides(cap: nat, s: State, id: nat, gone: bool)
    requires Enabled(cap, s, Wake(id, gone))
    ensures Do(cap, s, Wake(id, gone)).jobs[id].cancelled <==> s.jobs[id].cancelled || (gone && !s.jobs[id].done)
  {
  }

  // ---------------------------------------------------------------- clients

  /** The client of a job that is not freed can make its next step, or the worker is about to unlock the job. */
  lemma ClientIsNeverStuck(cap: nat, schedule: seq<Action>, id: nat)
    requires Execute(cap, Init(), schedule).At?
    requires id in Execute(cap, Init(), schedule).state.jobs
    requires Execute(cap, Init(), schedule).state.jobs[id].phase != Freed
    ensures var s := Execute(cap, Init(), schedule).state;
      || Enabled(cap, s, Enqueue(id)) || Enabled(cap, s, FreeRefused(id)) || Enabled(cap, s, LockJob(id))
      || Enabled(cap, s, Sleep(id)) || Enabled(cap, s, Leave(id)) || Enabled(cap, s, FreeDone(id))
      || Enabled(cap, s, Wake(id, false)) || (s.worker == Signalling(id) && Enabled(cap, s, Unlock))
  {
    hide Execute, Do, NoRepeat;
    ReachableInv(cap, schedule);
    assert JobOk(Execute(cap, Init(), schedule).state, id);
  }

  /** Steps the client of a finished job still has to make. */
  function ClientRemaining(p: Phase): nat {
    match p
    case Queued => 3
    case Sleeping => 3
    case Checking => 2
    case Leaving => 1
    case Freed => 0
    case _ => 4
  }

  predicate IsClientStep(a: Action, id: nat) {
    a in {LockJob(id), Sleep(id), Wake(id, true), Wake(id, false), Leave(id), FreeDone(id)}
  }

  /** Once a job is done its client only moves towards freeing it, and no step of another thread changes that. */
  lemma DoneJobIsFreed(cap: nat, s: State, a: Action, id: nat)
    requires Inv(cap, s) && Enabled(cap, s, a) && id in s.jobs && s.jobs[id].done
    ensures var t := Do(cap, s, a);
      && id in t.jobs && t.jobs[id].done
      && ClientRemaining(t.jobs[id].phase) <= ClientRemaining(s.jobs[id].phase)
      && (IsClientStep(a, id) ==> ClientRemaining(t.jobs[id].phase) < ClientRemaining(s.jobs[id].phase))
  {
    hide Do, Enabled, IsClientStep, ClientRemaining;
    assert JobOk(s, id);
    DoneJobStep(cap, s, a, id);
  }

  lemma DoneJobStep(cap: nat, s: State, a: Action, id: nat)
    requires id in s.jobs && JobOk(s, id) && Enabled(cap, s, a) && s.jobs[id].done
    ensures var t := Do(cap, s, a);
      && id in t.jobs && t.jobs[id].done
      && ClientRemaining(t.jobs[id].phase) <= ClientRemaining(s.jobs[id].phase)
      && (IsClientStep(a, id) ==> ClientRemaining(t.jobs[id].phase) < ClientRemaining(s.jobs[id].phase))
  {
  }
}
