/** The shell's methods on its job table. */
module Jobs {
  import opened Bytes
  import opened JobRuns

  // ---------------------------------------------------------------- walking a map in key order

  /** A non-empty set of integers has a least element. */
  lemma {:induction false} LeastExists(s: set<nat>) returns (k: nat)
    requires s != {}
    ensures k in s && forall j | j in s :: k <= j
    decreases |s|
  {
    var w: nat :| w in s;
    k := w;
    var rest := s - {w};
    if rest != {} {
      var k' := LeastExists(rest);
      if k' < w { k := k'; }
      assert forall j | j in s :: j == w || j in rest;
    } else {
      assert forall j | j in s :: j == w || j in rest;
    }
  }

  method Least(s: set<nat>) returns (k: nat)
    requires s != {}
    ensures k in s && forall j | j in s :: k <= j
  {
    ghost var w := LeastExists(s);
    k :| k in s && forall j | j in s :: k <= j;
  }

  /** The numbering loop: counts up along the keys until one is not next. */
  method NewJobNumber(taken: set<nat>) returns (n: nat)
    requires forall k | k in taken :: k >= 1
    ensures n == FirstFree(taken, 1)
  {
    n := 1;
    var left := taken;
    while left != {}
      invariant n >= 1 && forall m | 1 <= m < n :: m in taken
      invariant forall k :: k in left <==> k in taken && k >= n
      decreases |left|
    {
      var key := Least(left);
      if n != key { break; }
      n := n + 1;
      left := left - {key};
    }
    assert n !in taken;
    ghost var r := FirstFree(taken, 1);
    assert r < n ==> r in taken;
  }

  // ---------------------------------------------------------------- one job

  /** One queue for the input, then for each task an output queue and an error queue. */
  method NewQueues(tasks: seq<TaskId>, inputAtEof: bool) returns (j: Job)
    ensures j == NewJob(tasks, inputAtEof)
  {
    var pipes, errs := [inputAtEof], [];
    for i := 0 to |tasks|
      invariant pipes == [inputAtEof] + seq(i, _ => false) && errs == seq(i, _ => false)
    {
      errs := errs + [false];
      pipes := pipes + [false];
    }
    j := Job(tasks, false, pipes, errs);
  }

  /** Ends the queues of the exited task: walks the three lists together until the id is found. */
  method EndQueues(job: Job, id: TaskId, ghost at: nat) returns (pipes: seq<bool>, errs: seq<bool>)
    requires WellFormed(job) && at < |job.tasks| && job.tasks[at] == id
    ensures pipes == job.pipes[at := true][at + 1 := true] && errs == job.errs[at := true]
  {
    pipes, errs := job.pipes, job.errs;
    var i := 0;
    while i < |job.tasks|
      invariant i <= at && pipes == job.pipes && errs == job.errs
    {
      if job.tasks[i] == id {
        pipes := pipes[i := true];
        errs := errs[i := true];
        if i + 1 < |pipes| {
          pipes := pipes[i + 1 := true];
        }
        return;
      }
      i := i + 1;
    }
  }

  /** One task of the job. */
  method PollTask(was: Job, seen: Seen, n: nat, now: Job) returns (j: Job)
    requires WellFormed(was) && n < |was.tasks| && PolledUpTo(was, seen, n, now)
    ensures PolledUpTo(was, seen, n + 1, j)
    ensures j.stopped == (now.stopped || seen.Blocked(was.tasks[n]))
  {
    var id := was.tasks[n];
    j := now;
    if id in seen.exited {
      var pipes, errs := EndQueues(now, id, n);
      j := j.(pipes := pipes, errs := errs);
    } else if seen.Blocked(id) && !j.stopped {
      j := j.(stopped := true);
    }
    PollOne(was, seen, n, now, j);
  }

  /** All tasks of one job: its new state, whether a task is still alive, whether it has just stopped. */
  method PollJob(was: Job, seen: Seen) returns (j: Job, alive: bool, stopped: bool)
    requires WellFormed(was)
    ensures j == Polled(was, seen) && (alive <==> !Dead(was, seen)) && (stopped <==> JustStopped(was, seen))
  {
    j, alive, stopped := was, false, false;
    for n := 0 to |was.tasks|
      invariant PolledUpTo(was, seen, n, j)
      invariant alive <==> exists k | 0 <= k < n :: was.tasks[k] !in seen.exited
      invariant stopped <==> j.stopped && !was.stopped
    {
      var next := PollTask(was, seen, n, j);
      if was.tasks[n] !in seen.exited { alive := true; }
      if next.stopped && !j.stopped { stopped := true; }
      j := next;
    }
    PolledToTheEnd(was, seen, j);
  }

  // ---------------------------------------------------------------- the shell

  class Shell {
    var jobs: map<nat, Job>
    var taskToJob: map<TaskId, nat>
    var fgJobNum: Option<nat>

    ghost function Snap(): State
      reads this
    {
      State(jobs, taskToJob, fgJobNum)
    }

    constructor ()
      ensures Snap() == EMPTY && Inv(Snap())
    {
      jobs, taskToJob, fgJobNum := map[], map[], None;
    }

    /** Maps all tasks of a job to its number. */
    method MapTasks(tasks: seq<TaskId>, number: nat)
      modifies this`taskToJob
      ensures taskToJob == Mapped(old(taskToJob), tasks, number)
    {
      for i := 0 to |tasks|
        invariant forall t :: t in taskToJob <==> t in old(taskToJob) || t in tasks[..i]
        invariant forall t | t in taskToJob :: taskToJob[t] == if t in tasks[..i] then number else old(taskToJob)[t]
      {
        taskToJob := taskToJob[tasks[i] := number];
        assert tasks[..i + 1] == tasks[..i] + [tasks[i]];
      }
      assert tasks[..|tasks|] == tasks;
    }

    /** Starts a job for tasks that were spawned, and puts it in the foreground unless told otherwise. */
    method BuildNewJob(tasks: seq<TaskId>, inputAtEof: bool, background: bool) returns (number: nat)
      requires Inv(Snap()) && Enabled(Snap(), Create(tasks, inputAtEof, background))
      modifies this
      ensures Snap() == Apply(old(Snap()), Create(tasks, inputAtEof, background)) && Inv(Snap())
      ensures number >= 1 && number !in old(jobs) && (forall m | 1 <= m < number :: m in old(jobs)) && number in jobs
    {
      StepKeepsInv(Snap(), Create(tasks, inputAtEof, background));
      var job := NewQueues(tasks, inputAtEof);
      number := NewJobNumber(jobs.Keys);
      MapTasks(tasks, number);
      jobs := jobs[number := job];
      fgJobNum := Some(number);
      if background {
        fgJobNum := None;
      }
    }

    /** The `fg` command with a job number that parsed. */
    method ExecuteInternalFg(number: nat, unblocks: set<TaskId>)
      requires Inv(Snap())
      modifies this
      ensures Snap() == Apply(old(Snap()), Foreground(number, unblocks)) && Inv(Snap())
    {
      StepKeepsInv(Snap(), Foreground(number, unblocks));
      if number in jobs {
        fgJobNum := Some(number);
        var tasks, stopped := jobs[number].tasks, jobs[number].stopped;
        for i := 0 to |tasks|
          invariant stopped == if i == 0 then jobs[number].stopped else tasks[i - 1] !in unblocks
        {
          stopped := tasks[i] !in unblocks;
        }
        jobs := jobs[number := jobs[number].(stopped := stopped)];
      }
    }

    /** Ctrl+D. */
    method EndForegroundInput()
      requires Inv(Snap())
      modifies this
      ensures Snap() == Apply(old(Snap()), EndInput) && Inv(Snap())
    {
      StepKeepsInv(Snap(), EndInput);
      if fgJobNum.Some? && fgJobNum.value in jobs {
        var job := jobs[fgJobNum.value];
        assert WellFormed(job);
        jobs := jobs[fgJobNum.value := job.(pipes := job.pipes[0 := true])];
      }
    }

    /** One job in a pass of the handler. */
    method LookAtJob(n: nat, seen: Seen) returns (alive: bool)
      requires n in jobs && WellFormed(jobs[n])
      modifies this`jobs, this`fgJobNum
      ensures alive <==> !Dead(old(jobs)[n], seen)
      ensures Snap() == AfterLook(old(Snap()), n, seen)
    {
      var job, stopped;
      job, alive, stopped := PollJob(jobs[n], seen);
      jobs := jobs[n := job];
      if stopped && fgJobNum == Some(n) {
        fgJobNum := None;
      }
      if !alive && fgJobNum == Some(n) {
        fgJobNum := None;
      }
    }

    /** The first half of a pass: looks at every job in key order and lists those that are done. */
    method LookAtJobs(seen: Seen) returns (finished: seq<nat>)
      requires forall n | n in jobs :: WellFormed(jobs[n])
      modifies this`jobs, this`fgJobNum
      ensures Looked(old(Snap()), seen, old(jobs).Keys, Snap(), finished)
    {
      ghost var was := Snap();
      finished := [];
      var left := jobs.Keys;
      ghost var done := {};
      LookNone(was, seen);
      while left != {}
        invariant left !! done && left + done == was.jobs.Keys && LookedSoFar(was, seen, done, Snap(), finished)
        decreases |left|
      {
        var n := Least(left);
        LookOne(was, seen, done, Snap(), finished, n);
        var alive := LookAtJob(n, seen);
        if !alive {
          finished := finished + [n];
        }
        left, done := left - {n}, done + {n};
      }
      LookAll(was, seen, done, Snap(), finished);
    }

    /** Takes the tasks of one job out of the map. */
    method UnmapTasks(tasks: seq<TaskId>)
      modifies this`taskToJob
      ensures taskToJob == old(taskToJob) - (set t | t in tasks)
    {
      for i := 0 to |tasks|
        invariant taskToJob == old(taskToJob) - (set t | t in tasks[..i])
      {
        taskToJob := taskToJob - {tasks[i]};
        assert tasks[..i + 1] == tasks[..i] + [tasks[i]];
      }
      assert tasks[..|tasks|] == tasks;
    }

    /** Takes one job and its tasks out of the two maps. */
    method RemoveJob(n: nat, ghost was: State, ghost gone: set<nat>)
      requires Inverse(was) && Removed(was, gone, Snap()) && n in jobs
      modifies this`jobs, this`taskToJob
      ensures Removed(was, gone + {n}, Snap())
    {
      RemoveOne(was, gone, Snap(), n);
      var tasks := jobs[n].tasks;
      jobs := jobs - {n};
      UnmapTasks(tasks);
    }

    /** The second half: takes the finished jobs and their tasks out of the two maps. */
    method RemoveJobs(finished: seq<nat>) returns (ghost gone: set<nat>)
      requires Inverse(Snap()) && forall n | n in finished :: n in jobs
      modifies this`jobs, this`taskToJob
      ensures forall n :: n in gone <==> n in finished
      ensures Removed(old(Snap()), gone, Snap())
    {
      ghost var was := Snap();
      gone := {};
      for i := 0 to |finished|
        invariant forall n :: n in gone <==> n in finished[..i]
        invariant Removed(was, gone, Snap())
      {
        var n := finished[i];
        if n in jobs {
          RemoveJob(n, was, gone);
        }
        gone := gone + {n};
        assert finished[..i + 1] == finished[..i] + [n];
      }
      assert finished[..|finished|] == finished;
    }

    /** Looks at every job, then removes those with no task left alive. */
    method TaskHandler(seen: Seen)
      requires Inv(Snap())
      modifies this
      ensures Snap() == Apply(old(Snap()), Poll(seen)) && Inv(Snap())
    {
      ghost var was := Snap();
      var finished := LookAtJobs(seen);
      ghost var mid := Snap();
      LookedKeepsInverse(was, seen, mid, finished);
      ghost var gone := RemoveJobs(finished);
      LookedAndRemoved(was, seen, mid, finished, Snap(), gone);
      StepKeepsInv(was, Poll(seen));
    }
  }
}
