/** The shell's job table as a transition system: starting jobs, `fg`, Ctrl+D, and the handler of exited tasks. */
module JobRuns {
  import opened Bytes
  import opened Runs

  type TaskId = nat

  /** A job: its tasks, whether it is stopped, and the end-of-file flag of each of its queues. */
  datatype Job = Job(tasks: seq<TaskId>, stopped: bool, pipes: seq<bool>, errs: seq<bool>)

  datatype State = State(jobs: map<nat, Job>, taskToJob: map<TaskId, nat>, foreground: Option<nat>)

  /** Which tasks a pass of the handler finds exited and which blocked; all others can run. */
  datatype Seen = Seen(exited: set<TaskId>, blocked: set<TaskId>) {
    predicate Blocked(t: TaskId) { t in blocked && t !in exited }
  }

  datatype Action =
    | Create(tasks: seq<TaskId>, inputAtEof: bool, background: bool)
    | Foreground(number: nat, unblocks: set<TaskId>)
    | EndInput
    | Poll(seen: Seen)

  // ---------------------------------------------------------------- job numbers

  /** The smallest number from `n` on that is not taken. */
  function FirstFree(taken: set<nat>, n: nat): (r: nat)
    ensures n <= r && r !in taken && forall m | n <= m < r :: m in taken
    decreases |taken|
  {
    if n !in taken then n
    else
      var r := FirstFree(taken - {n}, n + 1);
      assert forall m | n <= m < r :: m in taken by {
        forall m | n <= m < r ensures m in taken { assert m == n || m in taken - {n}; }
      }
      r
  }

  // ---------------------------------------------------------------- steps

  /** `n` tasks have n + 1 queues between them and the shell. */
  function NewJob(tasks: seq<TaskId>, inputAtEof: bool): Job {
    Job(tasks, false, [inputAtEof] + seq(|tasks|, _ => false), seq(|tasks|, _ => false))
  }

  function Mapped(m: map<TaskId, nat>, tasks: seq<TaskId>, number: nat): map<TaskId, nat> {
    map t | t in m.Keys + (set t | t in tasks) :: if t in tasks then number else m[t]
  }

  predicate Dead(job: Job, seen: Seen) {
    forall t | t in job.tasks :: t in seen.exited
  }

  /** A task is found blocked in a job not yet marked as stopped. */
  predicate JustStopped(job: Job, seen: Seen) {
    !job.stopped && exists t | t in job.tasks :: seen.Blocked(t)
  }

  /** A pipe queue once the first `n` tasks have been looked at: ended if a task on either side of it has exited. */
  predicate PipeAfter(job: Job, seen: Seen, n: nat, i: nat)
    requires i < |job.pipes| && n <= |job.tasks|
  {
    job.pipes[i] || (i < n && job.tasks[i] in seen.exited) || (0 < i <= n && job.tasks[i - 1] in seen.exited)
  }

  predicate ErrAfter(job: Job, seen: Seen, n: nat, i: nat)
    requires i < |job.errs| && n <= |job.tasks|
  {
    job.errs[i] || (i < n && job.tasks[i] in seen.exited)
  }

  /** A job once all its tasks have been looked at. */
  function Polled(job: Job, seen: Seen): Job {
    Job(job.tasks,
        job.stopped || JustStopped(job, seen),
        seq(|job.pipes|, i requires 0 <= i < |job.pipes| => PipeAfter(job, seen, |job.tasks|, i)),
        seq(|job.errs|, i requires 0 <= i < |job.errs| => ErrAfter(job, seen, |job.tasks|, i)))
  }

  function Unblocked(job: Job, unblocks: set<TaskId>): Job {
    if job.tasks == [] then job else job.(stopped := job.tasks[|job.tasks| - 1] !in unblocks)
  }

  predicate Distinct(tasks: seq<TaskId>) {
    forall i, j | 0 <= i < j < |tasks| :: tasks[i] != tasks[j]
  }

  /** Only a job whose tasks are new to the table can be created. */
  predicate Enabled(s: State, a: Action) {
    a.Create? ==> Distinct(a.tasks) && forall t | t in a.tasks :: t !in s.taskToJob
  }

  function Apply(s: State, a: Action): State {
    match a
    case Create(tasks, inputAtEof, background) =>
      var n := FirstFree(s.jobs.Keys, 1);
      State(s.jobs[n := NewJob(tasks, inputAtEof)], Mapped(s.taskToJob, tasks, n), if background then None else Some(n))
    case Foreground(n, unblocks) =>
      if n in s.jobs then s.(jobs := s.jobs[n := Unblocked(s.jobs[n], unblocks)], foreground := Some(n)) else s
    case EndInput =>
      if s.foreground.Some? && s.foreground.value in s.jobs && s.jobs[s.foreground.value].pipes != [] then
        var n := s.foreground.value;
        s.(jobs := s.jobs[n := s.jobs[n].(pipes := s.jobs[n].pipes[0 := true])])
      else s
    case Poll(seen) =>
      State(map n | n in s.jobs && !Dead(s.jobs[n], seen) :: Polled(s.jobs[n], seen),
            map t | t in s.taskToJob && !(s.taskToJob[t] in s.jobs && Dead(s.jobs[s.taskToJob[t]], seen)) ::
              s.taskToJob[t],
            if s.foreground.Some? && s.foreground.value in s.jobs
               && (Dead(s.jobs[s.foreground.value], seen) || JustStopped(s.jobs[s.foreground.value], seen))
            then None else s.foreground)
  }

  function Jobs(): Machine<State, Action> { Machine(Enabled, Apply) }

  const EMPTY: State := State(map[], map[], None)

  type History = Run<State, Action>

  // ---------------------------------------------------------------- what holds in every run

  /** N tasks, distinct, with N + 1 pipe queues and N error queues. */
  ghost predicate WellFormed(j: Job) {
    Distinct(j.tasks) && |j.pipes| == |j.tasks| + 1 && |j.errs| == |j.tasks|
  }

  /** The map from tasks to jobs is exactly the inverse of the jobs' task lists. */
  ghost predicate Inverse(s: State) {
    && (forall n | n in s.jobs :: forall t | t in s.jobs[n].tasks :: t in s.taskToJob && s.taskToJob[t] == n)
    && (forall t | t in s.taskToJob :: s.taskToJob[t] in s.jobs && t in s.jobs[s.taskToJob[t]].tasks)
  }

  ghost predicate Inv(s: State) {
    && (forall n | n in s.jobs :: n >= 1 && WellFormed(s.jobs[n]))
    && Inverse(s)
    && (s.foreground.Some? ==> s.foreground.value in s.jobs)
  }

  lemma CreateKeepsInv(s: State, a: Action)
    requires Inv(s) && a.Create? && Enabled(s, a)
    ensures Inv(Apply(s, a))
  {
    var n := FirstFree(s.jobs.Keys, 1);
    assert n !in s.jobs;
  }

  lemma PollKeepsInv(s: State, a: Action)
    requires Inv(s) && a.Poll?
    ensures Inv(Apply(s, a))
  {
    var s' := Apply(s, a);
    forall n | n in s'.jobs ensures n >= 1 && WellFormed(s'.jobs[n]) {
      assert WellFormed(s.jobs[n]);
    }
  }

  lemma StepKeepsInv(s: State, a: Action)
    requires Inv(s) && Enabled(s, a)
    ensures Inv(Apply(s, a))
  {
    match a
    case Create(_, _, _) => CreateKeepsInv(s, a);
    case Poll(_) => PollKeepsInv(s, a);
    case Foreground(n, _) => if n in s.jobs { assert WellFormed(s.jobs[n]); }
    case EndInput =>
  }

  lemma {:induction false} RunKeepsInv(run: History)
    requires Legal(Jobs(), run) && Origin(run) == EMPTY
    ensures Inv(run.state)
  {
    if run.Then? {
      LastStep(Jobs(), run);
      RunKeepsInv(run.prev);
      StepKeepsInv(run.prev.state, run.act);
    }
  }

  /** Every queue of the job has its end-of-file flag set. */
  ghost predicate AllAtEof(j: Job) { false !in j.pipes && false !in j.errs }

  /** A dead job's queues are all at end of file, unless it never had a task and its one queue was open. */
  lemma DeadJobsQueues(j: Job, seen: Seen)
    requires WellFormed(j) && Dead(j, seen)
    ensures AllAtEof(Polled(j, seen)) <==> j.tasks != [] || j.pipes[0]
  {
    var j' := Polled(j, seen);
    if j.tasks != [] {
      forall i | 0 <= i < |j'.pipes| ensures j'.pipes[i] {
        assert (if i < |j.tasks| then j.tasks[i] else j.tasks[i - 1]) in seen.exited;
      }
      forall i | 0 <= i < |j'.errs| ensures j'.errs[i] {
        assert j.tasks[i] in seen.exited;
      }
    } else {
      assert j'.pipes == [j.pipes[0]] && j'.errs == [];
    }
  }

  /**
   In every run a job leaves the table only when the handler finds all its tasks exited, and its queues
   are then all at end of file exactly when it had a task or its input had been ended.
   */
  lemma RemovedAtEof(run: History, n: nat)
    requires Legal(Jobs(), run) && Origin(run) == EMPTY && run.Then?
    requires n in run.prev.state.jobs && n !in run.state.jobs
    ensures run.act.Poll? && Dead(run.prev.state.jobs[n], run.act.seen)
    ensures var j := run.prev.state.jobs[n];
            |j.pipes| > 0 && (AllAtEof(Polled(j, run.act.seen)) <==> j.tasks != [] || j.pipes[0])
  {
    LastStep(Jobs(), run);
    RunKeepsInv(run.prev);
    DeadJobsQueues(run.prev.state.jobs[n], run.act.seen);
  }

  /** A command line can come to no task at all; its job leaves with its queue still open. */
  lemma TasklessJobLeavesOpen()
    ensures var seen := Seen({}, {});
            var s := Apply(EMPTY, Create([], false, false));
            && s.jobs.Keys == {1} && Apply(s, Poll(seen)).jobs == map[]
            && !AllAtEof(Polled(s.jobs[1], seen))
  {
    var seen := Seen({}, {});
    var s := Apply(EMPTY, Create([], false, false));
    assert FirstFree({}, 1) == 1;
    assert s.jobs.Keys == {1};
    assert Dead(s.jobs[1], seen);
    assert Polled(s.jobs[1], seen).pipes[0] == false;
  }

  /** In every run a new job gets the smallest positive number no job has. */
  lemma NewestNumber(run: History, n: nat)
    requires Legal(Jobs(), run) && Origin(run) == EMPTY && run.Then? && run.act.Create?
    ensures n in run.state.jobs && n !in run.prev.state.jobs <==>
            n >= 1 && n !in run.prev.state.jobs && forall m | 1 <= m < n :: m in run.prev.state.jobs
  {
    LastStep(Jobs(), run);
    var k := FirstFree(run.prev.state.jobs.Keys, 1);
    if n > k { assert k !in run.prev.state.jobs; }
  }

  /** The second job has the tasks of the first, and every queue at end of file there is so still. */
  ghost predicate Continues(j: Job, j': Job) {
    && j'.tasks == j.tasks && |j'.pipes| == |j.pipes| && |j'.errs| == |j.errs|
    && (forall i | 0 <= i < |j.pipes| && j.pipes[i] :: j'.pipes[i])
    && (forall i | 0 <= i < |j.errs| && j.errs[i] :: j'.errs[i])
  }

  lemma StepContinues(s: State, a: Action, n: nat)
    requires Enabled(s, a) && n in s.jobs && n in Apply(s, a).jobs
    ensures Continues(s.jobs[n], Apply(s, a).jobs[n])
  {
  }

  /** From `base` on the number has always been taken. */
  ghost predicate Stays(base: History, run: History, n: nat) {
    n in run.state.jobs && (run == base || (run.Then? && Stays(base, run.prev, n)))
  }

  /** In every run a job keeps its tasks for as long as it is in the table, and no queue comes back from end of file. */
  lemma {:induction false} EofIsForGood(base: History, run: History, n: nat)
    requires Legal(Jobs(), run) && Stays(base, run, n)
    ensures n in base.state.jobs && Continues(base.state.jobs[n], run.state.jobs[n])
  {
    if run != base {
      LastStep(Jobs(), run);
      EofIsForGood(base, run.prev, n);
      StepContinues(run.prev.state, run.act, n);
    }
  }

  // ---------------------------------------------------------------- what each step does

  /** A new job: its number is the smallest free one; no queue but perhaps the first is at end of file. */
  lemma CreateExactly(s: State, tasks: seq<TaskId>, inputAtEof: bool, background: bool, n: nat)
    requires n >= 1 && n !in s.jobs && forall m | 1 <= m < n :: m in s.jobs
    ensures var t := Apply(s, Create(tasks, inputAtEof, background));
            && t.jobs.Keys == s.jobs.Keys + {n} && (forall m | m in s.jobs :: t.jobs[m] == s.jobs[m])
            && t.jobs[n].tasks == tasks && !t.jobs[n].stopped
            && |t.jobs[n].pipes| == |tasks| + 1 && |t.jobs[n].errs| == |tasks|
            && (forall i | 0 <= i <= |tasks| :: t.jobs[n].pipes[i] <==> i == 0 && inputAtEof)
            && (forall i | 0 <= i < |tasks| :: !t.jobs[n].errs[i])
            && t.foreground == if background then None else Some(n)
    ensures var t := Apply(s, Create(tasks, inputAtEof, background));
            && (forall id :: id in t.taskToJob <==> id in s.taskToJob || id in tasks)
            && (forall id | id in t.taskToJob :: t.taskToJob[id] == if id in tasks then n else s.taskToJob[id])
  {
    var k := FirstFree(s.jobs.Keys, 1);
    assert (k < n ==> k in s.jobs) && (n < k ==> n in s.jobs.Keys);
  }

  /** `fg`: the job comes to the foreground, and is stopped exactly if its last task could not be unblocked. */
  lemma ForegroundExactly(s: State, n: nat, unblocks: set<TaskId>)
    ensures var t := Apply(s, Foreground(n, unblocks));
            && (n !in s.jobs ==> t == s)
            && (n in s.jobs ==>
                  && t.foreground == Some(n) && t.taskToJob == s.taskToJob && t.jobs.Keys == s.jobs.Keys
                  && (forall m | m in s.jobs && m != n :: t.jobs[m] == s.jobs[m])
                  && t.jobs[n] == s.jobs[n].(stopped := t.jobs[n].stopped)
                  && var tasks := s.jobs[n].tasks;
                     t.jobs[n].stopped == if tasks == [] then s.jobs[n].stopped else tasks[|tasks| - 1] !in unblocks)
  {
  }

  /** Ctrl+D: the first queue of the foreground job, and nothing else, comes to end of file. */
  lemma EndInputExactly(s: State, n: nat)
    requires Inv(s)
    ensures s.foreground.None? ==> Apply(s, EndInput) == s
    ensures s.foreground == Some(n) ==>
              && n in s.jobs && s.jobs[n].pipes != []
              && Apply(s, EndInput) == s.(jobs := s.jobs[n := s.jobs[n].(pipes := [true] + s.jobs[n].pipes[1..])])
  {
    if s.foreground == Some(n) {
      assert WellFormed(s.jobs[n]);
      assert s.jobs[n].pipes[0 := true] == [true] + s.jobs[n].pipes[1..];
    }
  }

  /** The handler and one job: which jobs stay, and what becomes of their queues and their state. */
  lemma PollJobExactly(s: State, seen: Seen, n: nat)
    ensures var t := Apply(s, Poll(seen));
            n in t.jobs <==> n in s.jobs && exists id | id in s.jobs[n].tasks :: id !in seen.exited
    ensures var t := Apply(s, Poll(seen));
            n in t.jobs ==>
              var tasks, was, now := s.jobs[n].tasks, s.jobs[n], t.jobs[n];
              && now.tasks == tasks && |now.pipes| == |was.pipes| && |now.errs| == |was.errs|
              && (now.stopped <==> was.stopped || exists id | id in tasks :: id in seen.blocked && id !in seen.exited)
              && (forall i | 0 <= i < |was.pipes| :: now.pipes[i] <==>
                    || was.pipes[i] || (i < |tasks| && tasks[i] in seen.exited)
                    || (0 < i <= |tasks| && tasks[i - 1] in seen.exited))
              && (forall i | 0 <= i < |was.errs| ::
                    now.errs[i] <==> was.errs[i] || (i < |tasks| && tasks[i] in seen.exited))
  {
  }

  /** The rest of the table: a job that ends or just stops leaves the foreground, and tasks go with their job. */
  lemma PollRestExactly(s: State, seen: Seen, n: nat, id: TaskId)
    requires Inv(s)
    ensures var t := Apply(s, Poll(seen));
            t.foreground == Some(n) <==>
            && s.foreground == Some(n) && n in t.jobs
            && (s.jobs[n].stopped || forall id | id in s.jobs[n].tasks :: id in seen.blocked ==> id in seen.exited)
    ensures var t := Apply(s, Poll(seen));
            && (id in t.taskToJob <==> id in s.taskToJob && s.taskToJob[id] in t.jobs)
            && (id in t.taskToJob ==> t.taskToJob[id] == s.taskToJob[id])
  {
  }

  // ---------------------------------------------------------------- when a queue is at end of file

  /** The action brings pipe queue `i` of job `n` to end of file, if it was not there already. */
  predicate EndedBy(s: State, a: Action, n: nat, i: nat) {
    match a
    case Create(_, inputAtEof, _) => i == 0 && inputAtEof && n !in s.jobs
    case Foreground(_, _) => false
    case EndInput => i == 0 && s.foreground == Some(n)
    case Poll(seen) =>
      && n in s.jobs
      && var tasks := s.jobs[n].tasks;
         (i < |tasks| && tasks[i] in seen.exited) || (0 < i <= |tasks| && tasks[i - 1] in seen.exited)
  }

  /** The last step of the run does. */
  ghost predicate EndsPipe(run: History, n: nat, i: nat) { run.Then? && EndedBy(run.prev.state, run.act, n, i) }

  /** A queue is at end of file after a step exactly if it was before or the step brings it there. */
  ghost predicate PipeStepOk(s: State, a: Action, n: nat, i: nat) {
    && n in Apply(s, a).jobs && (n in s.jobs ==> |s.jobs[n].pipes| == |Apply(s, a).jobs[n].pipes|)
    && (i < |Apply(s, a).jobs[n].pipes| ==>
          (Apply(s, a).jobs[n].pipes[i] <==> (n in s.jobs && s.jobs[n].pipes[i]) || EndedBy(s, a, n, i)))
  }

  lemma CreatePipes(s: State, a: Action, n: nat, i: nat)
    requires Inv(s) && a.Create? && n in Apply(s, a).jobs
    ensures PipeStepOk(s, a, n, i)
  {
    CreateExactly(s, a.tasks, a.inputAtEof, a.background, FirstFree(s.jobs.Keys, 1));
  }

  lemma OtherPipes(s: State, a: Action, n: nat, i: nat)
    requires Inv(s) && (a.Foreground? || a.EndInput?) && n in Apply(s, a).jobs
    ensures PipeStepOk(s, a, n, i)
  {
    match a
    case Foreground(m, unblocks) => ForegroundExactly(s, m, unblocks);
    case EndInput => EndInputExactly(s, n);
  }

  lemma PollPipes(s: State, a: Action, n: nat, i: nat)
    requires Inv(s) && a.Poll? && n in Apply(s, a).jobs
    ensures PipeStepOk(s, a, n, i)
  {
    PollJobExactly(s, a.seen, n);
  }

  lemma PipeStep(s: State, a: Action, n: nat, i: nat)
    requires Inv(s) && n in Apply(s, a).jobs
    ensures PipeStepOk(s, a, n, i)
  {
    match a
    case Create(_, _, _) => CreatePipes(s, a, n, i);
    case Poll(_) => PollPipes(s, a, n, i);
    case _ => OtherPipes(s, a, n, i);
  }

  /**
   In every run a pipe queue is at end of file exactly if, since its job was created, the job was created so,
   its input was ended while in the foreground (both only the first queue), or the handler found a task next to
   the queue exited.
   */
  lemma {:induction false} EofExactly(run: History, n: nat, i: nat)
    requires Legal(Jobs(), run) && Origin(run) == EMPTY
    requires n in run.state.jobs && i < |run.state.jobs[n].pipes|
    ensures run.state.jobs[n].pipes[i] <==> exists p :: Stays(p, run, n) && EndsPipe(p, n, i)
  {
    if run.Then? {
      LastStep(Jobs(), run);
      RunKeepsInv(run.prev);
      PipeStep(run.prev.state, run.act, n, i);
      assert Stays(run, run, n) && (EndsPipe(run, n, i) <==> EndedBy(run.prev.state, run.act, n, i));
      if n in run.prev.state.jobs {
        EofExactly(run.prev, n, i);
        forall p ensures Stays(p, run, n) <==> p == run || Stays(p, run.prev, n) {
        }
      } else {
        forall p ensures Stays(p, run, n) <==> p == run {
        }
      }
    }
  }

  // ---------------------------------------------------------------- how far a task-handler pass has come

  /** The job after the first `n` of its tasks have been looked at. */
  ghost predicate PolledUpTo(was: Job, seen: Seen, n: nat, now: Job) {
    && n <= |was.tasks| && now.tasks == was.tasks && |now.pipes| == |was.pipes| && |now.errs| == |was.errs|
    && now.stopped == (was.stopped || exists k | 0 <= k < n :: seen.Blocked(was.tasks[k]))
    && (forall i | 0 <= i < |now.pipes| :: now.pipes[i] == PipeAfter(was, seen, n, i))
    && (forall i | 0 <= i < |now.errs| :: now.errs[i] == ErrAfter(was, seen, n, i))
  }

  /** Looking at one more task: an exited one ends its queues, a blocked one stops the job. */
  lemma PollOne(was: Job, seen: Seen, n: nat, now: Job, next: Job)
    requires WellFormed(was) && n < |was.tasks| && PolledUpTo(was, seen, n, now)
    requires next == if was.tasks[n] in seen.exited
                     then now.(pipes := now.pipes[n := true][n + 1 := true], errs := now.errs[n := true])
                     else now.(stopped := now.stopped || seen.Blocked(was.tasks[n]))
    ensures PolledUpTo(was, seen, n + 1, next)
  {
    forall i | 0 <= i < |was.pipes| ensures next.pipes[i] == PipeAfter(was, seen, n + 1, i) {
      assert now.pipes[i] == PipeAfter(was, seen, n, i);
      if i == n + 1 { assert was.tasks[i - 1] == was.tasks[n]; }
    }
  }

  lemma PolledToTheEnd(was: Job, seen: Seen, now: Job)
    requires WellFormed(was) && PolledUpTo(was, seen, |was.tasks|, now)
    ensures now == Polled(was, seen)
  {
    var end := Polled(was, seen);
    assert now.pipes == end.pipes;
    assert now.errs == end.errs;
  }

  /** The foreground after one job has been looked at: none if it was this one and it stopped or ended. */
  function ForegroundAfter(foreground: Option<nat>, n: nat, job: Job, seen: Seen): Option<nat> {
    if foreground == Some(n) && (Dead(job, seen) || JustStopped(job, seen)) then None else foreground
  }

  /** The table after the jobs in `done` have been looked at. */
  ghost predicate Looked(was: State, seen: Seen, done: set<nat>, now: State, finished: seq<nat>) {
    && done <= was.jobs.Keys == now.jobs.Keys && now.taskToJob == was.taskToJob
    && (forall n | n in was.jobs :: now.jobs[n] == if n in done then Polled(was.jobs[n], seen) else was.jobs[n])
    && (forall n :: n in finished <==> n in done && Dead(was.jobs[n], seen))
    && now.foreground ==
       if was.foreground.Some? && was.foreground.value in done
       then ForegroundAfter(was.foreground, was.foreground.value, was.jobs[was.foreground.value], seen)
       else was.foreground
  }

  /** The table after one more job has been looked at. */
  function AfterLook(now: State, n: nat, seen: Seen): State
    requires n in now.jobs
  {
    State(now.jobs[n := Polled(now.jobs[n], seen)], now.taskToJob,
          ForegroundAfter(now.foreground, n, now.jobs[n], seen))
  }

  /** The pass over the jobs has come as far as `done`. */
  ghost predicate LookedSoFar(was: State, seen: Seen, done: set<nat>, now: State, finished: seq<nat>) {
    forall d | d == done :: Looked(was, seen, d, now, finished)
  }

  lemma LookNone(was: State, seen: Seen)
    ensures LookedSoFar(was, seen, {}, was, [])
  {
  }

  lemma LookOne(was: State, seen: Seen, done: set<nat>, now: State, finished: seq<nat>, n: nat)
    requires LookedSoFar(was, seen, done, now, finished) && n in was.jobs && n !in done
    ensures n in now.jobs && now.jobs[n] == was.jobs[n]
    ensures LookedSoFar(was, seen, done + {n}, AfterLook(now, n, seen),
                        if Dead(was.jobs[n], seen) then finished + [n] else finished)
  {
    assert Looked(was, seen, done, now, finished);
  }

  lemma LookAll(was: State, seen: Seen, done: set<nat>, now: State, finished: seq<nat>)
    requires LookedSoFar(was, seen, done, now, finished) && done == was.jobs.Keys
    ensures Looked(was, seen, was.jobs.Keys, now, finished)
  {
    assert Looked(was, seen, done, now, finished);
  }

  /** The two maps without the jobs in `gone` and their tasks. */
  ghost predicate Removed(was: State, gone: set<nat>, now: State) {
    && now.foreground == was.foreground
    && now.jobs == was.jobs - gone
    && now.taskToJob == (map t | t in was.taskToJob && was.taskToJob[t] !in gone :: was.taskToJob[t])
  }

  /** Taking out a job with its tasks takes out all that maps to it. */
  lemma RemoveOne(was: State, gone: set<nat>, now: State, n: nat)
    requires Inverse(was) && Removed(was, gone, now) && n in now.jobs
    ensures Removed(was, gone + {n},
                    State(now.jobs - {n}, now.taskToJob - (set t | t in now.jobs[n].tasks), now.foreground))
  {
    assert n in was.jobs && n !in gone && now.jobs[n] == was.jobs[n];
    var tasks := now.jobs[n].tasks;
    forall t | t in was.taskToJob ensures t in tasks <==> was.taskToJob[t] == n {
    }
  }

  /** Looking and then removing what is finished is what the handler is for. */
  lemma LookedAndRemoved(was: State, seen: Seen, mid: State, finished: seq<nat>, now: State, gone: set<nat>)
    requires Inv(was) && Looked(was, seen, was.jobs.Keys, mid, finished) && Removed(mid, gone, now)
    requires forall n :: n in gone <==> n in finished
    ensures now == Apply(was, Poll(seen))
  {
    JobsLeft(was, seen, mid, gone, now);
    TasksLeft(was, seen, mid, gone, now);
  }

  lemma JobsLeft(was: State, seen: Seen, mid: State, gone: set<nat>, now: State)
    requires mid.jobs.Keys == was.jobs.Keys && forall n | n in was.jobs :: mid.jobs[n] == Polled(was.jobs[n], seen)
    requires forall n :: n in gone <==> n in was.jobs && Dead(was.jobs[n], seen)
    requires Removed(mid, gone, now)
    ensures now.jobs == Apply(was, Poll(seen)).jobs
  {
    forall n ensures n in now.jobs <==> n in was.jobs && !Dead(was.jobs[n], seen) {
    }
  }

  lemma TasksLeft(was: State, seen: Seen, mid: State, gone: set<nat>, now: State)
    requires Inverse(was) && mid.taskToJob == was.taskToJob
    requires forall n :: n in gone <==> n in was.jobs && Dead(was.jobs[n], seen)
    requires Removed(mid, gone, now)
    ensures now.taskToJob == Apply(was, Poll(seen)).taskToJob
  {
    forall t | t in was.taskToJob ensures t in now.taskToJob <==> !Dead(was.jobs[was.taskToJob[t]], seen) {
      assert was.taskToJob[t] in was.jobs;
    }
  }

  lemma LookedKeepsInverse(was: State, seen: Seen, now: State, finished: seq<nat>)
    requires Inv(was) && Looked(was, seen, was.jobs.Keys, now, finished)
    ensures Inverse(now)
  {
    forall n | n in now.jobs ensures now.jobs[n].tasks == was.jobs[n].tasks {
    }
  }
}
