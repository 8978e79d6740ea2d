/**
 Every interleaving of enqueuing threads, workers and shutdowns over the job queue.
 A step is one locked section of the queue, or one action of the executor.
 */
module JobProtocol {
  import opened AsyncJobs
  import opened Wrappers

  // Where the thread that enqueues a job stands.
  datatype Enqueuing = Admitted | Submitted | Rejected | Tracked | Over

  // The job's future in the executor.
  datatype FutureState =
    | Unsubmitted
    | Pending
    | Picked
    | InFunction
    | Returned(failed: bool)
    | Completed
    | CancelledFuture

  datatype Callback = Absent | Attached | Called

  // `entered` records that the job's function was called, `cancelled` that the job was cancelled.
  datatype Task = Task(enqueuing: Enqueuing, future: FutureState, callback: Callback, entered: bool, cancelled: bool)

  datatype Stopping = Closed | Waiting | Drained | Ended

  datatype State = State(
    jobs: seq<Job>, futures: set<JobId>, accepting: bool,  // fields of the queue
    executorClosed: bool,                                  // the executor was told to shut down
    tasks: map<JobId, Task>,                               // every identifier ever admitted
    shutdowns: map<nat, Stopping>)                         // calls of `shutdown`

  const INITIAL := State([], {}, true, false, map[], map[])

  datatype Event =
    | Admit(id: JobId, now: Time)
    | Submit(id: JobId)
    | Withdraw(id: JobId)
    | Track(id: JobId)
    | AttachCallback(id: JobId)
    | Pick(id: JobId)
    | EnterFunction(id: JobId, now: Time)
    | LeaveFunction(id: JobId, failed: bool)
    | Finish(id: JobId, now: Time, error: string)
    | CancelPending(id: JobId)
    | CallBack(id: JobId, now: Time)
    | Close(call: nat)
    | CloseExecutor(call: nat)
    | Drain(call: nat)
    | End(call: nat, now: Time)

  // The executor has started or may still start the job.
  predicate Active(future: FutureState) {
    future.Pending? || future.Picked? || future.InFunction? || future.Returned?
  }

  predicate Enabled(s: State, e: Event) {
    match e
    case Admit(id, _) => s.accepting && id !in s.tasks
    case Submit(id) => id in s.tasks && s.tasks[id].enqueuing.Admitted?
    case Withdraw(id) => id in s.tasks && s.tasks[id].enqueuing.Rejected?
    case Track(id) => id in s.tasks && s.tasks[id].enqueuing.Submitted?
    case AttachCallback(id) => id in s.tasks && s.tasks[id].enqueuing.Tracked?
    case Pick(id) => id in s.tasks && s.tasks[id].future.Pending?
    case EnterFunction(id, _) => id in s.tasks && s.tasks[id].future.Picked?
    case LeaveFunction(id, _) => id in s.tasks && s.tasks[id].future.InFunction?
    case Finish(id, _, _) => id in s.tasks && s.tasks[id].future.Returned?
    case CancelPending(id) => s.executorClosed && id in s.tasks && s.tasks[id].future.Pending?
    case CallBack(id, _) =>
      && id in s.tasks && s.tasks[id].callback.Attached?
      && (s.tasks[id].future.Completed? || s.tasks[id].future.CancelledFuture?)
    case Close(call) => call !in s.shutdowns
    case CloseExecutor(call) => call in s.shutdowns && s.shutdowns[call].Closed?
    case Drain(call) =>
      call in s.shutdowns && s.shutdowns[call].Waiting? && forall id :: id in s.tasks ==> !Active(s.tasks[id].future)
    case End(call, _) => call in s.shutdowns && s.shutdowns[call].Drained?
  }

  // Marks tasks whose job is cancelled in `jobs`.
  function NoteCancelled(tasks: map<JobId, Task>, jobs: seq<Job>): (r: map<JobId, Task>)
    ensures r.Keys == tasks.Keys
    ensures forall id :: id in tasks ==> r[id] == tasks[id] || r[id] == tasks[id].(cancelled := true)
  {
    map id | id in tasks ::
      if exists i :: 0 <= i < |jobs| && jobs[i].id == id && jobs[i].status.Cancelled?
      then tasks[id].(cancelled := true) else tasks[id]
  }

  function Apply(s: State, e: Event, maxHistory: int): State
    requires Enabled(s, e)
  {
    match e
    case Admit(id, now) =>
      s.(jobs := Trim(s.jobs + [NewJob(id, now)], maxHistory),
         tasks := s.tasks[id := Task(Admitted, Unsubmitted, Absent, false, false)])
    case Submit(id) =>
      if s.executorClosed then s.(tasks := s.tasks[id := s.tasks[id].(enqueuing := Rejected)])
      else s.(tasks := s.tasks[id := s.tasks[id].(enqueuing := Submitted, future := Pending)])
    case Withdraw(id) =>
      s.(jobs := Drop(s.jobs, {id}), tasks := s.tasks[id := s.tasks[id].(enqueuing := Over)])
    case Track(id) =>
      s.(futures := s.futures + {id}, tasks := s.tasks[id := s.tasks[id].(enqueuing := Tracked)])
    case AttachCallback(id) =>
      s.(tasks := s.tasks[id := s.tasks[id].(enqueuing := Over, callback := Attached)])
    case Pick(id) =>
      s.(tasks := s.tasks[id := s.tasks[id].(future := Picked)])
    case EnterFunction(id, now) =>
      s.(jobs := Update(s.jobs, id, Start(now)),
         tasks := s.tasks[id := s.tasks[id].(future := InFunction, entered := true)])
    case LeaveFunction(id, failed) =>
      s.(tasks := s.tasks[id := s.tasks[id].(future := Returned(failed))])
    case Finish(id, now, error) =>
      s.(jobs := Update(s.jobs, id, if s.tasks[id].future.failed then Fail(now, error) else Succeed(now)),
         tasks := s.tasks[id := s.tasks[id].(future := Completed)])
    case CancelPending(id) =>
      s.(tasks := s.tasks[id := s.tasks[id].(future := CancelledFuture)])
    case CallBack(id, now) =>
      var jobs := FinishFuture(s.jobs, id, s.tasks[id].future.CancelledFuture?, now);
      s.(jobs := jobs, futures := s.futures - {id},
         tasks := NoteCancelled(s.tasks[id := s.tasks[id].(callback := Called)], jobs))
    case Close(call) =>
      s.(accepting := false, shutdowns := s.shutdowns[call := Closed])
    case CloseExecutor(call) =>
      s.(executorClosed := true, shutdowns := s.shutdowns[call := Waiting])
    case Drain(call) =>
      s.(shutdowns := s.shutdowns[call := Drained])
    case End(call, now) =>
      var cancelled := CancelQueued(s.jobs, now);
      s.(jobs := Trim(cancelled, maxHistory), futures := {}, tasks := NoteCancelled(s.tasks, cancelled),
         shutdowns := s.shutdowns[call := Ended])
  }

  // How a held job and its task agree.
  ghost predicate Agrees(job: Job, task: Task) {
    && (job.status.Cancelled? <==> task.cancelled)
    && (Terminal(job.status) ==> job.finished.Some?)
    && match task.future
       case Unsubmitted => !task.enqueuing.Over? && (job.status.Queued? || job.status.Cancelled?)
       case Pending => job.status.Queued?
       case Picked => job.status.Queued?
       case InFunction => job.status.Running?
       case Returned(_) => job.status.Running?
       case Completed => job.status.Succeeded? || job.status.Failed?
       case CancelledFuture => job.status.Queued? || job.status.Cancelled?
  }

  // What holds of a task by itself.
  ghost predicate TaskValid(executorClosed: bool, task: Task) {
    && (task.enqueuing.Admitted? ==> task.future.Unsubmitted? && task.callback.Absent?)
    && (task.enqueuing.Rejected? ==> task.future.Unsubmitted? && task.callback.Absent? && executorClosed)
    && (task.enqueuing.Submitted? || task.enqueuing.Tracked? ==> !task.future.Unsubmitted? && task.callback.Absent?)
    && (task.enqueuing.Over? ==> task.future.Unsubmitted? == task.callback.Absent?)
    && (task.entered <==> task.future.InFunction? || task.future.Returned? || task.future.Completed?)
    && (task.cancelled ==> executorClosed && (task.future.Unsubmitted? || task.future.CancelledFuture?))
    && (task.future.CancelledFuture? ==> executorClosed)
  }

  // A job that is queued or running is held.
  ghost predicate MustBeHeld(task: Task) {
    Active(task.future) || (!task.cancelled && (task.future.CancelledFuture? || task.enqueuing.Admitted?))
  }

  type Tasks = map<JobId, Task>

  ghost predicate JobsAgree(jobs: seq<Job>, tasks: Tasks) {
    forall i :: 0 <= i < |jobs| ==> jobs[i].id in tasks && Agrees(jobs[i], tasks[jobs[i].id])
  }

  ghost predicate TasksHeld(jobs: seq<Job>, tasks: Tasks) {
    forall id :: id in tasks && MustBeHeld(tasks[id]) ==> Holds(jobs, id)
  }

  ghost predicate TasksValid(executorClosed: bool, tasks: Tasks) {
    forall id :: id in tasks ==> TaskValid(executorClosed, tasks[id])
  }

  ghost predicate NoneActive(tasks: Tasks) {
    forall id :: id in tasks ==> !Active(tasks[id].future)
  }

  ghost predicate ShutdownsValid(s: State, maxHistory: int) {
    && (s.shutdowns != map[] ==> !s.accepting)
    && (s.executorClosed ==> !s.accepting)
    && forall call :: call in s.shutdowns ==>
         && (!s.shutdowns[call].Closed? ==> s.executorClosed)
         && (s.shutdowns[call].Drained? || s.shutdowns[call].Ended? ==> NoneActive(s.tasks))
         && (s.shutdowns[call].Ended? ==> AllTerminal(s.jobs) && (maxHistory >= 0 ==> |s.jobs| <= maxHistory))
  }

  ghost predicate AllTerminal(jobs: seq<Job>) {
    forall i :: 0 <= i < |jobs| ==> Terminal(jobs[i].status)
  }

  ghost predicate FuturesValid(s: State) {
    forall id :: id in s.futures ==> id in s.tasks && (s.tasks[id].enqueuing.Tracked? || s.tasks[id].callback.Attached?)
  }

  ghost predicate Invariant(s: State, maxHistory: int) {
    && UniqueIds(s.jobs) && JobsAgree(s.jobs, s.tasks) && TasksHeld(s.jobs, s.tasks)
    && TasksValid(s.executorClosed, s.tasks) && ShutdownsValid(s, maxHistory) && FuturesValid(s)
  }

  // The status changes a job may make.
  predicate LegalMove(before: Status, after: Status) {
    || before == after
    || (before.Queued? && (after.Running? || after.Cancelled?))
    || (before.Running? && (after.Succeeded? || after.Failed?))
  }

  ghost predicate LegalMoves(before: seq<Job>, after: seq<Job>) {
    forall i, j :: 0 <= i < |before| && 0 <= j < |after| && before[i].id == after[j].id ==>
      LegalMove(before[i].status, after[j].status) && before[i].created == after[j].created
  }

  lemma HoldsMember(jobs: seq<Job>, id: JobId)
    ensures Holds(jobs, id) <==> exists job :: job in jobs && job.id == id
  {
    if job :| job in jobs && job.id == id {
      var i :| 0 <= i < |jobs| && jobs[i] == job;
    }
  }

  // A trim forgets only terminal jobs, so agreement and what must be held survive it.
  lemma TrimKeeps(jobs: seq<Job>, tasks: Tasks, executorClosed: bool, maxHistory: int)
    requires TasksValid(executorClosed, tasks) && UniqueIds(jobs) && JobsAgree(jobs, tasks) && TasksHeld(jobs, tasks)
    ensures var kept := Trim(jobs, maxHistory);
            && UniqueIds(kept) && JobsAgree(kept, tasks) && TasksHeld(kept, tasks)
            && forall job :: job in kept ==> job in jobs
  {
    TrimIsExact(jobs, maxHistory);
    var kept := Trim(jobs, maxHistory);
    forall i | 0 <= i < |kept| ensures kept[i].id in tasks && Agrees(kept[i], tasks[kept[i].id]) {
      assert kept[i] in jobs;
    }
    forall id | id in tasks && MustBeHeld(tasks[id]) ensures Holds(kept, id) {
      assert Holds(jobs, id);
      var i :| 0 <= i < |jobs| && jobs[i].id == id;
      assert Agrees(jobs[i], tasks[id]) && TaskValid(executorClosed, tasks[id]);
      assert jobs[i] in kept;
      HoldsMember(kept, id);
    }
  }

  lemma SubsetMoves(before: seq<Job>, after: seq<Job>)
    requires UniqueIds(before) && forall job :: job in after ==> job in before
    ensures LegalMoves(before, after)
  {
    forall i, j | 0 <= i < |before| && 0 <= j < |after| && before[i].id == after[j].id ensures before[i] == after[j] {
      assert after[j] in before;
    }
  }

  // Changing only one identifier's task.
  lemma TaskStepKeeps(s: State, id: JobId, task: Task, maxHistory: int)
    requires Invariant(s, maxHistory) && id in s.tasks && TaskValid(s.executorClosed, task)
    requires forall i :: 0 <= i < |s.jobs| && s.jobs[i].id == id ==> Agrees(s.jobs[i], task)
    requires MustBeHeld(task) ==> MustBeHeld(s.tasks[id])
    requires Active(task.future) ==> Active(s.tasks[id].future)
    requires id in s.futures ==> task.enqueuing.Tracked? || task.callback.Attached?
    ensures Invariant(s.(tasks := s.tasks[id := task]), maxHistory)
  {
    var s' := s.(tasks := s.tasks[id := task]);
    forall call | call in s'.shutdowns && (s'.shutdowns[call].Drained? || s'.shutdowns[call].Ended?)
      ensures NoneActive(s'.tasks)
    {
      assert NoneActive(s.tasks);
    }
  }

  lemma AdmitKeeps(s: State, id: JobId, now: Time, maxHistory: int)
    requires Invariant(s, maxHistory) && Enabled(s, Admit(id, now))
    ensures var s' := Apply(s, Admit(id, now), maxHistory); Invariant(s', maxHistory) && LegalMoves(s.jobs, s'.jobs)
  {
    var s' := Apply(s, Admit(id, now), maxHistory);
    hide LegalMoves, Trim;
    var grown := s.jobs + [NewJob(id, now)];
    forall i | 0 <= i < |s.jobs| ensures s.jobs[i].id != id {
      assert s.jobs[i].id in s.tasks;
    }
    assert JobsAgree(grown, s'.tasks);
    forall other | other in s'.tasks && MustBeHeld(s'.tasks[other]) ensures Holds(grown, other) {
      if other == id {
        assert grown[|s.jobs|].id == id;
      } else {
        assert Holds(s.jobs, other);
        var i :| 0 <= i < |s.jobs| && s.jobs[i].id == other;
        assert grown[i].id == other;
      }
    }
    TrimKeeps(grown, s'.tasks, s.executorClosed, maxHistory);
    SubsetMoves(grown, s'.jobs);
    PrefixMoves(s.jobs, grown, s'.jobs);
  }

  lemma PrefixMoves(before: seq<Job>, grown: seq<Job>, after: seq<Job>)
    requires before <= grown && LegalMoves(grown, after)
    ensures LegalMoves(before, after)
  {
    assert forall i :: 0 <= i < |before| ==> grown[i] == before[i];
  }

  // What is left after dropping a job that need not be held.
  lemma DropKeeps(jobs: seq<Job>, tasks: Tasks, id: JobId, tasks': Tasks)
    requires UniqueIds(jobs) && JobsAgree(jobs, tasks) && TasksHeld(jobs, tasks) && id in tasks
    requires tasks'.Keys == tasks.Keys
    requires forall other :: other in tasks && other != id ==> tasks'[other] == tasks[other]
    requires !MustBeHeld(tasks'[id])
    ensures var left := Drop(jobs, {id});
            && UniqueIds(left) && JobsAgree(left, tasks') && TasksHeld(left, tasks') && LegalMoves(jobs, left)
            && |left| <= |jobs| && (AllTerminal(jobs) ==> AllTerminal(left))
  {
    hide MustBeHeld, Agrees, LegalMoves;
    var left := Drop(jobs, {id});
    DropMembers(jobs, {id});
    DropUnique(jobs, {id});
    DropShrinks(jobs, {id});
    SubsetMoves(jobs, left);
    forall i | 0 <= i < |left|
      ensures left[i] in jobs && left[i].id != id && left[i].id in tasks && Agrees(left[i], tasks[left[i].id])
    {
      assert left[i] in left;
    }
    forall other | other in tasks' && MustBeHeld(tasks'[other]) ensures Holds(left, other) {
      HoldsMember(jobs, other);
      HoldsMember(left, other);
    }
  }

  lemma WithdrawKeeps(s: State, id: JobId, maxHistory: int)
    requires Invariant(s, maxHistory) && Enabled(s, Withdraw(id))
    ensures var s' := Apply(s, Withdraw(id), maxHistory); Invariant(s', maxHistory) && LegalMoves(s.jobs, s'.jobs)
  {
    hide JobsAgree, TasksHeld, LegalMoves, UniqueIds, AllTerminal, Drop;
    var s' := Apply(s, Withdraw(id), maxHistory);
    assert TaskValid(s.executorClosed, s.tasks[id]);
    DropKeeps(s.jobs, s.tasks, id, s'.tasks);
    forall call | call in s'.shutdowns && (s'.shutdowns[call].Drained? || s'.shutdowns[call].Ended?)
      ensures NoneActive(s'.tasks)
    {
      assert NoneActive(s.tasks);
    }
  }

  lemma {:induction false} DropShrinks(jobs: seq<Job>, ids: set<JobId>)
    ensures |Drop(jobs, ids)| <= |jobs|
  {
    if jobs != [] {
      DropShrinks(jobs[..|jobs| - 1], ids);
    }
  }

  // Replacing jobs position by position, keeping identifiers and creation times.
  ghost predicate SamePlaces(before: seq<Job>, after: seq<Job>) {
    |before| == |after| && forall i :: 0 <= i < |before| ==>
      && before[i].id == after[i].id && before[i].created == after[i].created
      && LegalMove(before[i].status, after[i].status)
  }

  lemma SamePlacesKeeps(before: seq<Job>, after: seq<Job>)
    requires UniqueIds(before) && SamePlaces(before, after)
    ensures UniqueIds(after) && LegalMoves(before, after)
    ensures forall id :: Holds(before, id) <==> Holds(after, id)
  {
    forall i, j | 0 <= i < |before| && 0 <= j < |after| && before[i].id == after[j].id
      ensures LegalMove(before[i].status, after[j].status) && before[i].created == after[j].created
    {
      assert i == j;
    }
    forall id ensures Holds(before, id) <==> Holds(after, id) {
      if i :| 0 <= i < |before| && before[i].id == id {
        assert after[i].id == id;
      }
      if i :| 0 <= i < |after| && after[i].id == id {
        assert before[i].id == id;
      }
    }
  }

  // Changing an active task together with its job.
  lemma ActiveStepKeeps(s: State, id: JobId, jobs: seq<Job>, task: Task, maxHistory: int)
    requires Invariant(s, maxHistory) && id in s.tasks && Active(s.tasks[id].future)
    requires TaskValid(s.executorClosed, task)
    requires SamePlaces(s.jobs, jobs)
    requires forall i :: 0 <= i < |jobs| ==> if jobs[i].id == id then Agrees(jobs[i], task) else jobs[i] == s.jobs[i]
    requires task.enqueuing == s.tasks[id].enqueuing && task.callback == s.tasks[id].callback
    ensures Invariant(s.(jobs := jobs, tasks := s.tasks[id := task]), maxHistory)
    ensures LegalMoves(s.jobs, jobs) && Holds(s.jobs, id)
  {
    hide TaskValid, Agrees, LegalMoves;
    SamePlacesKeeps(s.jobs, jobs);
    forall call | call in s.shutdowns ensures !s.shutdowns[call].Drained? && !s.shutdowns[call].Ended? {
    }
    forall other | other in s.tasks[id := task] && MustBeHeld(s.tasks[id := task][other]) ensures Holds(jobs, other) {
      assert MustBeHeld(s.tasks[other]);
    }
  }

  lemma StatusOf(s: State, id: JobId, maxHistory: int)
    requires Invariant(s, maxHistory) && id in s.tasks
    ensures forall i :: 0 <= i < |s.jobs| && s.jobs[i].id == id ==> Agrees(s.jobs[i], s.tasks[id])
    ensures TaskValid(s.executorClosed, s.tasks[id])
  {
  }

  lemma EnterKeeps(s: State, id: JobId, now: Time, maxHistory: int)
    requires Invariant(s, maxHistory) && Enabled(s, EnterFunction(id, now))
    ensures var s' := Apply(s, EnterFunction(id, now), maxHistory);
            Invariant(s', maxHistory) && LegalMoves(s.jobs, s'.jobs) && Holds(s.jobs, id)
  {
    StatusOf(s, id, maxHistory);
    var task := s.tasks[id].(future := InFunction, entered := true);
    ActiveStepKeeps(s, id, Update(s.jobs, id, Start(now)), task, maxHistory);
  }

  lemma FinishKeeps(s: State, id: JobId, now: Time, error: string, maxHistory: int)
    requires Invariant(s, maxHistory) && Enabled(s, Finish(id, now, error))
    ensures var s' := Apply(s, Finish(id, now, error), maxHistory);
            Invariant(s', maxHistory) && LegalMoves(s.jobs, s'.jobs) && Holds(s.jobs, id)
  {
    StatusOf(s, id, maxHistory);
    var change := if s.tasks[id].future.failed then Fail(now, error) else Succeed(now);
    ActiveStepKeeps(s, id, Update(s.jobs, id, change), s.tasks[id].(future := Completed), maxHistory);
  }

  // Some queued jobs become cancelled, everything else stays.
  ghost predicate SomeCancelled(before: seq<Job>, after: seq<Job>) {
    |before| == |after| && forall i :: 0 <= i < |before| ==>
      after[i] == before[i] || (before[i].status.Queued? && exists at :: after[i] == Changed(before[i], Cancel(at)))
  }

  lemma CancelledPlaces(before: seq<Job>, after: seq<Job>)
    requires UniqueIds(before) && SomeCancelled(before, after)
    ensures SamePlaces(before, after) && UniqueIds(after) && LegalMoves(before, after)
    ensures forall id :: Holds(before, id) <==> Holds(after, id)
    ensures forall i :: 0 <= i < |after| && after[i] != before[i] ==>
              after[i].status.Cancelled? && after[i].finished.Some?
  {
    SamePlacesKeeps(before, after);
  }

  lemma NotedTask(tasks: Tasks, jobs: seq<Job>, i: nat)
    requires UniqueIds(jobs) && i < |jobs| && jobs[i].id in tasks
    ensures NoteCancelled(tasks, jobs)[jobs[i].id]
            == if jobs[i].status.Cancelled? then tasks[jobs[i].id].(cancelled := true) else tasks[jobs[i].id]
  {
  }

  // Marking tasks of cancelled jobs keeps jobs and tasks in agreement, as long as no cancelled job was active.
  lemma NotedAgree(jobs: seq<Job>, tasks: Tasks, after: seq<Job>)
    requires UniqueIds(jobs) && JobsAgree(jobs, tasks) && SomeCancelled(jobs, after)
    requires forall i :: 0 <= i < |jobs| && after[i] != jobs[i] ==> !Active(tasks[jobs[i].id].future)
    ensures JobsAgree(after, NoteCancelled(tasks, after))
  {
    CancelledPlaces(jobs, after);
    forall i | 0 <= i < |after|
      ensures after[i].id in tasks && Agrees(after[i], NoteCancelled(tasks, after)[after[i].id])
    {
      assert Agrees(jobs[i], tasks[jobs[i].id]);
      NotedTask(tasks, after, i);
    }
  }

  lemma NotedValid(jobs: seq<Job>, tasks: Tasks, after: seq<Job>)
    requires UniqueIds(jobs) && JobsAgree(jobs, tasks) && TasksHeld(jobs, tasks) && TasksValid(true, tasks)
    requires SomeCancelled(jobs, after)
    requires forall i :: 0 <= i < |jobs| && after[i] != jobs[i] ==> !Active(tasks[jobs[i].id].future)
    ensures TasksValid(true, NoteCancelled(tasks, after)) && TasksHeld(after, NoteCancelled(tasks, after))
  {
    CancelledPlaces(jobs, after);
    var noted := NoteCancelled(tasks, after);
    forall id | id in noted ensures TaskValid(true, noted[id]) && (MustBeHeld(noted[id]) ==> Holds(after, id)) {
      assert TaskValid(true, tasks[id]);
      if noted[id] != tasks[id] {
        var i :| 0 <= i < |after| && after[i].id == id && after[i].status.Cancelled?;
        assert Agrees(jobs[i], tasks[id]);
      } else {
        assert MustBeHeld(tasks[id]) ==> Holds(jobs, id);
      }
    }
  }

  // Cancelling queued jobs whose futures are inactive, once the executor is closed.
  lemma CancelKeeps(s: State, after: seq<Job>, maxHistory: int)
    requires Invariant(s, maxHistory) && s.executorClosed && SomeCancelled(s.jobs, after)
    requires forall i :: 0 <= i < |after| && after[i] != s.jobs[i] ==> !Active(s.tasks[s.jobs[i].id].future)
    ensures Invariant(s.(jobs := after, tasks := NoteCancelled(s.tasks, after)), maxHistory)
    ensures LegalMoves(s.jobs, after)
  {
    CancelledPlaces(s.jobs, after);
    NotedAgree(s.jobs, s.tasks, after);
    NotedValid(s.jobs, s.tasks, after);
    var noted := NoteCancelled(s.tasks, after);
    forall call | call in s.shutdowns && (s.shutdowns[call].Drained? || s.shutdowns[call].Ended?)
      ensures NoneActive(noted)
    {
      assert NoneActive(s.tasks);
    }
    forall call | call in s.shutdowns && s.shutdowns[call].Ended? ensures AllTerminal(after) {
      assert AllTerminal(s.jobs);
      assert forall i :: 0 <= i < |after| ==> Terminal(s.jobs[i].status);
    }
  }

  lemma CallBackKeeps(s: State, id: JobId, now: Time, maxHistory: int)
    requires Invariant(s, maxHistory) && Enabled(s, CallBack(id, now))
    ensures var s' := Apply(s, CallBack(id, now), maxHistory); Invariant(s', maxHistory) && LegalMoves(s.jobs, s'.jobs)
  {
    StatusOf(s, id, maxHistory);
    var task := s.tasks[id].(callback := Called);
    var s1 := s.(futures := s.futures - {id});
    assert Invariant(s1, maxHistory);
    TaskStepKeeps(s1, id, task, maxHistory);
    var s2 := s1.(tasks := s1.tasks[id := task]);
    var after := FinishFuture(s.jobs, id, task.future.CancelledFuture?, now);
    if task.future.CancelledFuture? {
      CancelKeeps(s2, after, maxHistory);
    } else {
      assert after == s.jobs;
      NothingToNote(s2, maxHistory);
      SubsetMoves(s.jobs, s.jobs);
    }
  }

  // In a valid state the cancelled jobs are already noted.
  lemma NothingToNote(s: State, maxHistory: int)
    requires Invariant(s, maxHistory)
    ensures NoteCancelled(s.tasks, s.jobs) == s.tasks
  {
    forall i | 0 <= i < |s.jobs| && s.jobs[i].status.Cancelled? ensures s.tasks[s.jobs[i].id].cancelled {
      assert Agrees(s.jobs[i], s.tasks[s.jobs[i].id]);
    }
  }

  lemma EndKeeps(s: State, call: nat, now: Time, maxHistory: int)
    requires Invariant(s, maxHistory) && Enabled(s, End(call, now))
    ensures var s' := Apply(s, End(call, now), maxHistory); Invariant(s', maxHistory) && LegalMoves(s.jobs, s'.jobs)
  {
    hide CancelQueued, NoteCancelled, Trim, LegalMoves;
    var after := CancelQueued(s.jobs, now);
    var noted := NoteCancelled(s.tasks, after);
    assert NoneActive(s.tasks);
    forall i | 0 <= i < |s.jobs| ensures s.jobs[i].id in s.tasks && Terminal(after[i].status) {
      assert Agrees(s.jobs[i], s.tasks[s.jobs[i].id]) && !Active(s.tasks[s.jobs[i].id].future);
    }
    CancelKeeps(s, after, maxHistory);
    TrimKeeps(after, noted, true, maxHistory);
    TrimIsExact(after, maxHistory);
    AllTerminalCount(after);
    var kept := Trim(after, maxHistory);
    forall i | 0 <= i < |kept| ensures Terminal(kept[i].status) {
      assert kept[i] in after;
    }
    SubsetMoves(after, kept);
    MovesCompose(s.jobs, after, kept);
    assert NoneActive(noted);
  }

  lemma {:induction false} AllTerminalCount(jobs: seq<Job>)
    requires AllTerminal(jobs)
    ensures |TerminalJobs(jobs)| == |jobs|
  {
    if jobs != [] {
      AllTerminalCount(jobs[..|jobs| - 1]);
    }
  }

  lemma MovesCompose(before: seq<Job>, after: seq<Job>, kept: seq<Job>)
    requires SamePlaces(before, after) && UniqueIds(after) && forall job :: job in kept ==> job in after
    ensures LegalMoves(before, kept)
  {
    forall i, j | 0 <= i < |before| && 0 <= j < |kept| && before[i].id == kept[j].id
      ensures LegalMove(before[i].status, kept[j].status) && before[i].created == kept[j].created
    {
      assert kept[j] in after;
    }
  }

  lemma StayingIsLegal(s: State, maxHistory: int)
    requires Invariant(s, maxHistory)
    ensures LegalMoves(s.jobs, s.jobs)
  {
    SubsetMoves(s.jobs, s.jobs);
  }

  // One step of any interleaving keeps the invariant and moves every job legally.
  lemma StepKeeps(s: State, e: Event, maxHistory: int)
    requires Invariant(s, maxHistory) && Enabled(s, e)
    ensures Invariant(Apply(s, e, maxHistory), maxHistory)
    ensures LegalMoves(s.jobs, Apply(s, e, maxHistory).jobs)
  {
    hide Invariant, LegalMoves, Trim, CancelQueued, NoteCancelled, FinishFuture;
    StayingIsLegal(s, maxHistory);
    match e
    case Admit(id, now) => AdmitKeeps(s, id, now, maxHistory);
    case Withdraw(id) => WithdrawKeeps(s, id, maxHistory);
    case EnterFunction(id, now) => EnterKeeps(s, id, now, maxHistory);
    case Finish(id, now, error) => FinishKeeps(s, id, now, error, maxHistory);
    case CallBack(id, now) => CallBackKeeps(s, id, now, maxHistory);
    case End(call, now) => EndKeeps(s, call, now, maxHistory);
    case Submit(id) => SubmitKeeps(s, id, maxHistory);
    case Track(id) => TrackKeeps(s, id, maxHistory);
    case AttachCallback(id) => FutureStepKeeps(s, e, id, maxHistory);
    case Pick(id) => FutureStepKeeps(s, e, id, maxHistory);
    case LeaveFunction(id, _) => FutureStepKeeps(s, e, id, maxHistory);
    case CancelPending(id) => FutureStepKeeps(s, e, id, maxHistory);
    case Close(call) => CloseKeeps(s, call, maxHistory);
    case CloseExecutor(call) => CloseExecutorKeeps(s, call, maxHistory);
    case Drain(call) => DrainKeeps(s, call, maxHistory);
  }

  lemma CloseKeeps(s: State, call: nat, maxHistory: int)
    requires Invariant(s, maxHistory) && Enabled(s, Close(call))
    ensures Invariant(Apply(s, Close(call), maxHistory), maxHistory)
  {
  }

  lemma DrainKeeps(s: State, call: nat, maxHistory: int)
    requires Invariant(s, maxHistory) && Enabled(s, Drain(call))
    ensures Invariant(Apply(s, Drain(call), maxHistory), maxHistory)
  {
    assert NoneActive(s.tasks);
  }

  lemma FutureStepKeeps(s: State, e: Event, id: JobId, maxHistory: int)
    requires Invariant(s, maxHistory) && Enabled(s, e)
    requires e == AttachCallback(id) || e == Pick(id) || e == CancelPending(id) || (e.LeaveFunction? && e.id == id)
    ensures Invariant(Apply(s, e, maxHistory), maxHistory)
  {
    StatusOf(s, id, maxHistory);
    TaskStepKeeps(s, id, Apply(s, e, maxHistory).tasks[id], maxHistory);
  }

  lemma TrackKeeps(s: State, id: JobId, maxHistory: int)
    requires Invariant(s, maxHistory) && Enabled(s, Track(id))
    ensures Invariant(Apply(s, Track(id), maxHistory), maxHistory)
  {
    StatusOf(s, id, maxHistory);
    var task := s.tasks[id].(enqueuing := Tracked);
    TaskStepKeeps(s, id, task, maxHistory);
    var s1 := s.(tasks := s.tasks[id := task]);
    assert FuturesValid(s1.(futures := s1.futures + {id}));
  }

  lemma SubmitKeeps(s: State, id: JobId, maxHistory: int)
    requires Invariant(s, maxHistory) && Enabled(s, Submit(id))
    ensures Invariant(Apply(s, Submit(id), maxHistory), maxHistory)
  {
    StatusOf(s, id, maxHistory);
    var s' := Apply(s, Submit(id), maxHistory);
    if s.executorClosed {
      TaskStepKeeps(s, id, s'.tasks[id], maxHistory);
    } else {
      forall call | call in s.shutdowns ensures s.shutdowns[call].Closed? {
      }
      forall i | 0 <= i < |s.jobs| && s.jobs[i].id == id ensures Agrees(s.jobs[i], s'.tasks[id]) {
        assert Agrees(s.jobs[i], s.tasks[id]);
      }
      assert MustBeHeld(s.tasks[id]);
    }
  }

  lemma CloseExecutorKeeps(s: State, call: nat, maxHistory: int)
    requires Invariant(s, maxHistory) && Enabled(s, CloseExecutor(call))
    ensures Invariant(Apply(s, CloseExecutor(call), maxHistory), maxHistory)
  {
    forall id | id in s.tasks ensures TaskValid(true, s.tasks[id]) {
      assert TaskValid(s.executorClosed, s.tasks[id]);
    }
  }

  // A run from the empty queue: the states passed through.
  ghost predicate IsRun(states: seq<State>, maxHistory: int) {
    && states != [] && states[0] == INITIAL
    && forall i :: 0 <= i < |states| - 1 ==> Steps(states[i], states[i + 1], maxHistory)
  }

  ghost predicate Steps(s: State, s': State, maxHistory: int) {
    exists e :: Enabled(s, e) && s' == Apply(s, e, maxHistory)
  }

  lemma {:induction false} RunInvariant(states: seq<State>, maxHistory: int, i: nat)
    requires IsRun(states, maxHistory) && i < |states|
    ensures Invariant(states[i], maxHistory)
  {
    if i > 0 {
      RunInvariant(states, maxHistory, i - 1);
      assert Steps(states[i - 1], states[i], maxHistory);
      var e :| Enabled(states[i - 1], e) && states[i] == Apply(states[i - 1], e, maxHistory);
      StepKeeps(states[i - 1], e, maxHistory);
    }
  }

  // Along every run jobs only move queued -> running -> succeeded or failed, or queued -> cancelled.
  lemma JobsMoveLegally(states: seq<State>, maxHistory: int, i: nat)
    requires IsRun(states, maxHistory) && i + 1 < |states|
    ensures LegalMoves(states[i].jobs, states[i + 1].jobs)
  {
    RunInvariant(states, maxHistory, i);
    assert Steps(states[i], states[i + 1], maxHistory);
    var e :| Enabled(states[i], e) && states[i + 1] == Apply(states[i], e, maxHistory);
    StepKeeps(states[i], e, maxHistory);
  }

  // What a task has been through stays on record.
  lemma {:induction false} RecordsStay(states: seq<State>, maxHistory: int, i: nat, j: nat, id: JobId)
    requires IsRun(states, maxHistory) && i <= j < |states| && id in states[i].tasks
    ensures id in states[j].tasks
    ensures states[i].tasks[id].entered ==> states[j].tasks[id].entered
    ensures states[i].tasks[id].cancelled ==> states[j].tasks[id].cancelled
    decreases j
  {
    hide Steps;
    if i < j {
      RecordsStay(states, maxHistory, i, j - 1, id);
      assert Steps(states[j - 1], states[j], maxHistory);
      StepKeepsRecords(states[j - 1], states[j], maxHistory, id);
    }
  }

  lemma StepKeepsRecords(s: State, s': State, maxHistory: int, id: JobId)
    requires Steps(s, s', maxHistory) && id in s.tasks
    ensures id in s'.tasks
    ensures s.tasks[id].entered ==> s'.tasks[id].entered
    ensures s.tasks[id].cancelled ==> s'.tasks[id].cancelled
  {
    var e :| Enabled(s, e) && s' == Apply(s, e, maxHistory);
    StepKeepsRecord(s, e, maxHistory, id);
  }

  lemma StepKeepsRecord(s: State, e: Event, maxHistory: int, id: JobId)
    requires Enabled(s, e) && id in s.tasks
    ensures var s' := Apply(s, e, maxHistory);
            && id in s'.tasks
            && (s.tasks[id].entered ==> s'.tasks[id].entered)
            && (s.tasks[id].cancelled ==> s'.tasks[id].cancelled)
  {
    var tasks := Apply(s, e, maxHistory).tasks;
    if e.CallBack? {
      var task := s.tasks[e.id].(callback := Called);
      var called := s.tasks[e.id := task];
      assert called[id].entered == s.tasks[id].entered && called[id].cancelled == s.tasks[id].cancelled;
    }
  }

  // Once its function has returned, a task's future waits for the step that records the outcome.
  lemma ReturnedUntilFinish(s: State, e: Event, maxHistory: int, id: JobId)
    requires Enabled(s, e) && id in s.tasks && TaskValid(s.executorClosed, s.tasks[id])
    ensures var after := Apply(s, e, maxHistory).tasks;
            && id in after
            && (s.tasks[id].future.Returned? && !(e.Finish? && e.id == id) ==> after[id].future == s.tasks[id].future)
            && (s.tasks[id].future.Completed? ==> after[id].future.Completed?)
  {
    hide Trim, Drop, Update, CancelQueued, FinishFuture;
    if e.CallBack? {
      assert s.tasks[e.id := s.tasks[e.id].(callback := Called)][id].future == s.tasks[id].future;
    }
  }

  // The job of a completed task is terminal, so no step changes it.
  lemma CompletedStays(s: State, e: Event, maxHistory: int, id: JobId)
    requires Invariant(s, maxHistory) && Enabled(s, e) && id in s.tasks && s.tasks[id].future.Completed?
    ensures forall job :: job in Apply(s, e, maxHistory).jobs && job.id == id ==> job in s.jobs
  {
    hide Invariant, Agrees, Trim, NoteCancelled;
    CompletedIsTerminal(s, id, maxHistory);
    match e
    case Admit(other, now) => AdmittedJobs(s, other, now, maxHistory);
    case Withdraw(other) => DropMembers(s.jobs, {other});
    case End(_, now) =>
      var cancelled := CancelQueued(s.jobs, now);
      SubsetUnique(s.jobs, cancelled);
      TrimIsExact(cancelled, maxHistory);
      SamePlacesStay(s.jobs, cancelled, id);
    case _ => SamePlacesStay(s.jobs, Apply(s, e, maxHistory).jobs, id);
  }

  lemma CompletedIsTerminal(s: State, id: JobId, maxHistory: int)
    requires Invariant(s, maxHistory) && id in s.tasks && s.tasks[id].future.Completed?
    ensures UniqueIds(s.jobs)
    ensures forall i :: 0 <= i < |s.jobs| && s.jobs[i].id == id ==> Terminal(s.jobs[i].status)
  {
    StatusOf(s, id, maxHistory);
  }

  lemma SamePlacesStay(jobs: seq<Job>, after: seq<Job>, id: JobId)
    requires |after| == |jobs|
    requires forall i :: 0 <= i < |jobs| ==> after[i].id == jobs[i].id && (jobs[i].id == id ==> after[i] == jobs[i])
    ensures forall job :: job in after && job.id == id ==> job in jobs
  {
    forall job | job in after && job.id == id ensures job in jobs {
      var i :| 0 <= i < |after| && after[i] == job;
      assert jobs[i] == job;
    }
  }

  lemma AdmittedJobs(s: State, id: JobId, now: Time, maxHistory: int)
    requires Invariant(s, maxHistory) && Enabled(s, Admit(id, now))
    ensures forall job :: job in Apply(s, Admit(id, now), maxHistory).jobs ==> job in s.jobs || job == NewJob(id, now)
  {
    var grown := s.jobs + [NewJob(id, now)];
    forall i | 0 <= i < |s.jobs| ensures s.jobs[i].id != id {
      assert s.jobs[i].id in s.tasks;
    }
    TrimIsExact(grown, maxHistory);
  }

  lemma SubsetUnique(jobs: seq<Job>, after: seq<Job>)
    requires UniqueIds(jobs) && |after| == |jobs| && forall i :: 0 <= i < |jobs| ==> after[i].id == jobs[i].id
    ensures UniqueIds(after)
  {
  }

  // The job as the step that finishes it leaves it: failed with its error, or succeeded without one.
  predicate HasOutcome(job: Job, failed: bool, now: Time, error: string) {
    && job.finished == Some(now)
    && if failed then job.status.Failed? && job.error == Some(error) else job.status.Succeeded? && job.error.None?
  }

  lemma {:induction false} OutcomeAfterReturn(
    states: seq<State>, maxHistory: int, i: nat, j: nat, id: JobId, failed: bool)
    returns (f: nat, now: Time, error: string)
    requires IsRun(states, maxHistory) && i <= j < |states| && id in states[i].tasks
    requires states[i].tasks[id].future == Returned(failed)
    ensures id in states[j].tasks
    ensures states[j].tasks[id].future == Returned(failed) || states[j].tasks[id].future.Completed?
    ensures states[j].tasks[id].future.Completed? ==>
              && i <= f < j && Enabled(states[f], Finish(id, now, error))
              && states[f + 1] == Apply(states[f], Finish(id, now, error), maxHistory)
              && forall job :: job in states[j].jobs && job.id == id ==> HasOutcome(job, failed, now, error)
    decreases j
  {
    hide Invariant, Apply, Enabled, HasOutcome, Agrees;
    f, now, error := i, 0, "";
    if i < j {
      f, now, error := OutcomeAfterReturn(states, maxHistory, i, j - 1, id, failed);
      RunInvariant(states, maxHistory, j - 1);
      var s := states[j - 1];
      assert Steps(s, states[j], maxHistory);
      var e :| Enabled(s, e) && states[j] == Apply(s, e, maxHistory);
      StatusOf(s, id, maxHistory);
      ReturnedUntilFinish(s, e, maxHistory, id);
      if s.tasks[id].future.Completed? {
        CompletedStays(s, e, maxHistory, id);
      } else if e.Finish? && e.id == id {
        f, now, error := j - 1, e.now, e.error;
        FinishedOutcome(s, id, now, error, maxHistory);
      }
    }
  }

  lemma FinishedOutcome(s: State, id: JobId, now: Time, error: string, maxHistory: int)
    requires Enabled(s, Finish(id, now, error))
    ensures id in s.tasks && s.tasks[id].future.Returned?
    ensures Apply(s, Finish(id, now, error), maxHistory).tasks == s.tasks[id := s.tasks[id].(future := Completed)]
    ensures forall job :: job in Apply(s, Finish(id, now, error), maxHistory).jobs && job.id == id ==>
              HasOutcome(job, s.tasks[id].future.failed, now, error)
  {
    var after := Apply(s, Finish(id, now, error), maxHistory).jobs;
    forall job | job in after && job.id == id ensures HasOutcome(job, s.tasks[id].future.failed, now, error) {
      var k :| 0 <= k < |after| && after[k] == job;
    }
  }

  // A function that raised leaves its job failed with the error, one that returned leaves it succeeded
  // without one, at the time its outcome was recorded; the job stays so for as long as it is held.
  lemma OutcomeFollowsFunction(states: seq<State>, maxHistory: int, i: nat, j: nat, id: JobId, failed: bool)
    returns (f: nat, now: Time, error: string)
    requires IsRun(states, maxHistory) && i < j < |states|
    requires Enabled(states[i], LeaveFunction(id, failed))
    requires states[i + 1] == Apply(states[i], LeaveFunction(id, failed), maxHistory)
    requires id in states[j].tasks && states[j].tasks[id].future.Completed?
    ensures i < f < j && Enabled(states[f], Finish(id, now, error))
    ensures states[f + 1] == Apply(states[f], Finish(id, now, error), maxHistory)
    ensures forall k :: 0 <= k < |states[j].jobs| && states[j].jobs[k].id == id ==>
              var job := states[j].jobs[k];
              && job.finished == Some(now)
              && (failed ==> job.status == Failed && job.error == Some(error))
              && (!failed ==> job.status == Succeeded && job.error == None)
  {
    f, now, error := OutcomeAfterReturn(states, maxHistory, i + 1, j, id, failed);
    forall k | 0 <= k < |states[j].jobs| && states[j].jobs[k].id == id
      ensures HasOutcome(states[j].jobs[k], failed, now, error)
    {
      assert states[j].jobs[k] in states[j].jobs;
    }
  }

  // Admitting a job keeps the history within its limit, or else to jobs that are queued or running.
  lemma AdmissionBoundsHistory(states: seq<State>, maxHistory: int, i: nat, id: JobId, now: Time)
    requires IsRun(states, maxHistory) && i + 1 < |states| && Enabled(states[i], Admit(id, now))
    requires states[i + 1] == Apply(states[i], Admit(id, now), maxHistory)
    ensures var jobs := states[i + 1].jobs;
            |jobs| <= maxHistory || forall job :: job in jobs ==> job.status.Queued? || job.status.Running?
  {
    var s := states[i];
    RunInvariant(states, maxHistory, i);
    forall k | 0 <= k < |s.jobs| ensures s.jobs[k].id != id {
      assert s.jobs[k].id in s.tasks;
    }
    TrimBound(s.jobs + [NewJob(id, now)], maxHistory);
  }

  // A thread or the executor is not through with the task.
  predicate IsBusy(task: Task) {
    !task.enqueuing.Over? || Active(task.future) || task.callback.Attached?
  }

  ghost predicate Unfinished(s: State) {
    || (exists id :: id in s.tasks && IsBusy(s.tasks[id]))
    || (exists call :: call in s.shutdowns && !s.shutdowns[call].Ended?)
  }

  // No interleaving gets stuck: while something is to be done, some step other than a new job or a new
  // shutdown is possible.
  lemma NothingGetsStuck(states: seq<State>, maxHistory: int, i: nat)
    requires IsRun(states, maxHistory) && i < |states| && Unfinished(states[i])
    ensures exists e :: Enabled(states[i], e) && !e.Admit? && !e.Close?
  {
    var s := states[i];
    RunInvariant(states, maxHistory, i);
    if id :| id in s.tasks && IsBusy(s.tasks[id]) {
      TaskCanStep(s, id);
    } else {
      var call :| call in s.shutdowns && !s.shutdowns[call].Ended?;
      assert NoneActive(s.tasks);
      var e :=
        match s.shutdowns[call]
        case Closed => CloseExecutor(call)
        case Waiting => Drain(call)
        case _ => End(call, 0);
      assert Enabled(s, e);
    }
  }

  lemma TaskCanStep(s: State, id: JobId)
    requires id in s.tasks && TaskValid(s.executorClosed, s.tasks[id]) && IsBusy(s.tasks[id])
    ensures exists e :: Enabled(s, e) && !e.Admit? && !e.Close?
  {
    var task := s.tasks[id];
    var e :=
      match task.enqueuing
      case Admitted => Submit(id)
      case Rejected => Withdraw(id)
      case Submitted => Track(id)
      case Tracked => AttachCallback(id)
      case Over =>
        match task.future
        case Pending => Pick(id)
        case Picked => EnterFunction(id, 0)
        case InFunction => LeaveFunction(id, false)
        case Returned(_) => Finish(id, 0, "")
        case _ => CallBack(id, 0);
    assert Enabled(s, e);
  }

  // A job seen cancelled at any moment of a run has its function called at no moment of the run.
  lemma CancelledNeverRuns(states: seq<State>, maxHistory: int, i: nat, k: nat, j: nat)
    requires IsRun(states, maxHistory) && i < |states| && j < |states|
    requires k < |states[i].jobs| && states[i].jobs[k].status.Cancelled?
    ensures var id := states[i].jobs[k].id;
            id in states[j].tasks ==> !states[j].tasks[id].entered && (i <= j ==> !Active(states[j].tasks[id].future))
  {
    var id := states[i].jobs[k].id;
    RunInvariant(states, maxHistory, i);
    StatusOf(states[i], id, maxHistory);
    if i <= j {
      RecordsStay(states, maxHistory, i, j, id);
      RunInvariant(states, maxHistory, j);
      StatusOf(states[j], id, maxHistory);
    } else if id in states[j].tasks {
      RecordsStay(states, maxHistory, j, i, id);
    }
  }

  // The status updates of a worker always find their job: a queued or running job is never forgotten.
  lemma ActiveJobIsHeld(states: seq<State>, maxHistory: int, i: nat, id: JobId)
    requires IsRun(states, maxHistory) && i < |states| && id in states[i].tasks && Active(states[i].tasks[id].future)
    ensures Holds(states[i].jobs, id)
  {
    RunInvariant(states, maxHistory, i);
  }

  // Once a shutdown has returned, and ever after, every held job is terminal with its finish time
  // set, and the history limit holds.
  lemma ShutdownTerminates(states: seq<State>, maxHistory: int, i: nat, call: nat, k: nat)
    requires IsRun(states, maxHistory) && i < |states|
    requires call in states[i].shutdowns && states[i].shutdowns[call].Ended?
    requires k < |states[i].jobs|
    ensures Terminal(states[i].jobs[k].status) && states[i].jobs[k].finished.Some?
    ensures maxHistory >= 0 ==> |states[i].jobs| <= maxHistory
  {
    RunInvariant(states, maxHistory, i);
    assert AllTerminal(states[i].jobs);
    assert Agrees(states[i].jobs[k], states[i].tasks[states[i].jobs[k].id]);
  }

  // When every thread has finished, rejected submissions left no job and no future is tracked.
  lemma NothingLeftBehind(states: seq<State>, maxHistory: int, i: nat)
    requires IsRun(states, maxHistory) && i < |states|
    requires forall id :: id in states[i].tasks ==>
               states[i].tasks[id].enqueuing.Over? && !states[i].tasks[id].callback.Attached?
    ensures states[i].futures == {}
    ensures forall id :: id in states[i].tasks && states[i].tasks[id].future.Unsubmitted? ==> !Holds(states[i].jobs, id)
  {
    RunInvariant(states, maxHistory, i);
    forall id | id in states[i].tasks && states[i].tasks[id].future.Unsubmitted? ensures !Holds(states[i].jobs, id) {
      StatusOf(states[i], id, maxHistory);
    }
  }
}
