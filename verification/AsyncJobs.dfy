/**
 The in-process job queue: its locked sections, and the trimming of its history.
 */
module AsyncJobs {
  import opened Numbers
  import opened Sorting
  import opened Wrappers

  datatype Status = Queued | Running | Succeeded | Failed | Cancelled

  type JobId = nat
  type Time = int

  datatype Job = Job(
    id: JobId, created: Time, status: Status, started: Option<Time>, finished: Option<Time>, error: Option<string>)

  predicate Terminal(status: Status) {
    status.Succeeded? || status.Failed? || status.Cancelled?
  }

  function NewJob(id: JobId, created: Time): Job {
    Job(id, created, Queued, None, None, None)
  }

  const SHUTDOWN_ERROR := "Job cancelled because the service is shutting down"

  // Jobs in insertion order; identifiers are unique.
  ghost predicate UniqueIds(jobs: seq<Job>) {
    forall i, j :: 0 <= i < j < |jobs| ==> jobs[i].id != jobs[j].id
  }

  predicate Holds(jobs: seq<Job>, id: JobId) {
    exists i :: 0 <= i < |jobs| && jobs[i].id == id
  }

  // A change of one job's fields.
  datatype Change = Start(at: Time) | Succeed(at: Time) | Fail(at: Time, error: string) | Cancel(at: Time)

  function Changed(job: Job, change: Change): Job {
    match change
    case Start(at) => job.(status := Running, started := Some(at))
    case Succeed(at) => job.(status := Succeeded, finished := Some(at), error := None)
    case Fail(at, error) => job.(status := Failed, finished := Some(at), error := Some(error))
    case Cancel(at) => job.(status := Cancelled, finished := Some(at), error := Some(SHUTDOWN_ERROR))
  }

  // `_update`: does nothing for an identifier that is no longer held.
  function Update(jobs: seq<Job>, id: JobId, change: Change): (r: seq<Job>)
    ensures |r| == |jobs|
    ensures forall i :: 0 <= i < |r| ==> r[i] == if jobs[i].id == id then Changed(jobs[i], change) else jobs[i]
  {
    Map((job: Job) => if job.id == id then Changed(job, change) else job, jobs)
  }

  function CancelQueued(jobs: seq<Job>, at: Time): (r: seq<Job>)
    ensures |r| == |jobs|
    ensures forall i :: 0 <= i < |r| ==>
              r[i] == if jobs[i].status.Queued? then Changed(jobs[i], Cancel(at)) else jobs[i]
  {
    Map((job: Job) => if job.status.Queued? then Changed(job, Cancel(at)) else job, jobs)
  }

  // A finished future: only a cancelled one touches its job, and only while it is queued.
  function FinishFuture(jobs: seq<Job>, id: JobId, cancelled: bool, at: Time): (r: seq<Job>)
    ensures |r| == |jobs|
    ensures forall i :: 0 <= i < |r| ==>
              r[i] == if jobs[i].id == id && cancelled && jobs[i].status.Queued?
                      then Changed(jobs[i], Cancel(at)) else jobs[i]
  {
    Map((job: Job) => if job.id == id && cancelled && job.status.Queued? then Changed(job, Cancel(at)) else job, jobs)
  }

  // The jobs whose identifiers are not in `ids`, in order.
  function Drop(jobs: seq<Job>, ids: set<JobId>): seq<Job> {
    if jobs == [] then []
    else
      var last := jobs[|jobs| - 1];
      Drop(jobs[..|jobs| - 1], ids) + if last.id in ids then [] else [last]
  }

  function TerminalJobs(jobs: seq<Job>): seq<Job> {
    if jobs == [] then []
    else
      var last := jobs[|jobs| - 1];
      TerminalJobs(jobs[..|jobs| - 1]) + if Terminal(last.status) then [last] else []
  }

  lemma {:induction false} DropMembers(jobs: seq<Job>, ids: set<JobId>)
    ensures forall job :: job in Drop(jobs, ids) <==> job in jobs && job.id !in ids
  {
    if jobs != [] {
      DropMembers(jobs[..|jobs| - 1], ids);
      assert jobs == jobs[..|jobs| - 1] + [jobs[|jobs| - 1]];
    }
  }

  lemma {:induction false} TerminalMembers(jobs: seq<Job>)
    ensures forall job :: job in TerminalJobs(jobs) <==> job in jobs && Terminal(job.status)
  {
    if jobs != [] {
      TerminalMembers(jobs[..|jobs| - 1]);
      assert jobs == jobs[..|jobs| - 1] + [jobs[|jobs| - 1]];
    }
  }

  predicate Older(a: Job, b: Job) {
    a.created <= b.created
  }

  // Terminal jobs, oldest first.
  function Removable(jobs: seq<Job>): seq<Job> {
    SortBy(TerminalJobs(jobs), Older)
  }

  function Ids(jobs: seq<Job>): set<JobId> {
    set job | job in jobs :: job.id
  }

  // What a trim removes: as many of the removable jobs as exceed the limit.
  function Victims(jobs: seq<Job>, maxHistory: int): seq<Job> {
    var overflow := |jobs| - maxHistory;
    if overflow <= 0 then [] else Removable(jobs)[..Min(overflow, |Removable(jobs)|)]
  }

  function Trim(jobs: seq<Job>, maxHistory: int): seq<Job> {
    Drop(jobs, Ids(Victims(jobs, maxHistory)))
  }

  lemma {:induction false} UniquePrefix(jobs: seq<Job>, n: nat)
    requires UniqueIds(jobs) && n <= |jobs|
    ensures UniqueIds(jobs[..n])
  {
  }

  lemma {:induction false} DropUnique(jobs: seq<Job>, ids: set<JobId>)
    requires UniqueIds(jobs)
    ensures UniqueIds(Drop(jobs, ids))
  {
    if jobs != [] {
      var init, last := jobs[..|jobs| - 1], jobs[|jobs| - 1];
      DropUnique(init, ids);
      DropMembers(init, ids);
      var r := Drop(init, ids);
      forall i | 0 <= i < |r| ensures r[i].id != last.id {
        assert r[i] in init;
      }
    }
  }

  lemma {:induction false} DropCount(jobs: seq<Job>, ids: set<JobId>)
    requires UniqueIds(jobs) && ids <= Ids(jobs)
    ensures |Drop(jobs, ids)| == |jobs| - |ids|
    decreases |jobs|
  {
    if jobs == [] {
      assert ids == {};
    } else {
      var init, last := jobs[..|jobs| - 1], jobs[|jobs| - 1];
      assert jobs == init + [last];
      forall job | job in init ensures job.id != last.id {
        var i :| 0 <= i < |init| && init[i] == job;
        assert jobs[i] == job;
      }
      var rest := ids - {last.id};
      forall id | id in rest ensures id in Ids(init) {
        var job :| job in jobs && job.id == id;
        assert job in init;
      }
      DropCount(init, rest);
      DropIrrelevant(init, ids, rest);
    }
  }

  lemma {:induction false} DropIrrelevant(jobs: seq<Job>, ids: set<JobId>, fewer: set<JobId>)
    requires forall job :: job in jobs ==> (job.id in ids <==> job.id in fewer)
    ensures Drop(jobs, ids) == Drop(jobs, fewer)
  {
    if jobs != [] {
      assert jobs[|jobs| - 1] in jobs;
      DropIrrelevant(jobs[..|jobs| - 1], ids, fewer);
    }
  }

  lemma {:induction false} TerminalUnique(jobs: seq<Job>)
    requires UniqueIds(jobs)
    ensures UniqueIds(TerminalJobs(jobs))
  {
    if jobs != [] {
      var init, last := jobs[..|jobs| - 1], jobs[|jobs| - 1];
      TerminalUnique(init);
      TerminalMembers(init);
      var r := TerminalJobs(init);
      forall i | 0 <= i < |r| ensures r[i].id != last.id {
        assert r[i] in init;
      }
    }
  }

  // Distinct identifiers survive reordering.
  lemma UniqueByCount(jobs: seq<Job>, reordered: seq<Job>)
    requires UniqueIds(jobs) && multiset(jobs) == multiset(reordered)
    ensures UniqueIds(reordered)
  {
    forall i, j | 0 <= i < j < |reordered| ensures reordered[i].id != reordered[j].id {
      assert reordered[i] in multiset(jobs) && reordered[j] in multiset(jobs);
      if reordered[i].id == reordered[j].id {
        OnlyWithId(jobs, reordered[i], reordered[j]);
        OnceEach(jobs, reordered[i]);
        TwiceCounts(reordered, i, j);
        assert false;
      }
    }
  }

  lemma TwiceCounts(jobs: seq<Job>, i: nat, j: nat)
    requires i < j < |jobs| && jobs[i] == jobs[j]
    ensures multiset(jobs)[jobs[i]] >= 2
  {
    assert jobs == jobs[..j] + [jobs[j]] + jobs[j + 1..];
    assert jobs[..j][i] == jobs[i];
  }

  lemma OnlyWithId(jobs: seq<Job>, a: Job, b: Job)
    requires UniqueIds(jobs) && a in jobs && b in jobs && a.id == b.id
    ensures a == b
  {
  }

  lemma {:induction false} OnceEach(jobs: seq<Job>, job: Job)
    requires UniqueIds(jobs)
    ensures multiset(jobs)[job] <= 1
  {
    if jobs != [] {
      var init, last := jobs[..|jobs| - 1], jobs[|jobs| - 1];
      OnceEach(init, job);
      assert jobs == init + [last];
      if job == last {
        assert job !in init;
      }
    }
  }

  lemma {:induction false} IdsCount(jobs: seq<Job>)
    requires UniqueIds(jobs)
    ensures |Ids(jobs)| == |jobs|
  {
    if jobs != [] {
      var init, last := jobs[..|jobs| - 1], jobs[|jobs| - 1];
      IdsCount(init);
      assert jobs == init + [last];
      assert Ids(jobs) == Ids(init) + {last.id};
      assert last.id !in Ids(init);
    }
  }

  lemma RemovableFacts(jobs: seq<Job>)
    requires UniqueIds(jobs)
    ensures multiset(Removable(jobs)) == multiset(TerminalJobs(jobs))
    ensures |Removable(jobs)| == |TerminalJobs(jobs)|
    ensures SortedBy(Removable(jobs), Older) && UniqueIds(Removable(jobs))
    ensures forall job :: job in Removable(jobs) <==> job in jobs && Terminal(job.status)
  {
    SortByCorrect(TerminalJobs(jobs), Older);
    TerminalUnique(jobs);
    TerminalMembers(jobs);
    UniqueByCount(TerminalJobs(jobs), Removable(jobs));
    forall job ensures job in Removable(jobs) <==> job in TerminalJobs(jobs) {
      assert job in Removable(jobs) <==> job in multiset(Removable(jobs));
      assert job in TerminalJobs(jobs) <==> job in multiset(TerminalJobs(jobs));
    }
  }

  // A trim removes exactly min(overflow, terminal count) jobs, all terminal, none younger than a
  // terminal job that stays; at most max(limit, active jobs) remain.
  lemma TrimIsExact(jobs: seq<Job>, maxHistory: int)
    requires UniqueIds(jobs)
    ensures var kept := Trim(jobs, maxHistory);
            var overflow := |jobs| - maxHistory;
            var terminal := |TerminalJobs(jobs)|;
            && UniqueIds(kept)
            && |kept| == |jobs| - (if overflow <= 0 then 0 else Min(overflow, terminal))
            && (forall job :: job in kept ==> job in jobs)
            && (forall job :: job in jobs && job !in kept ==> Terminal(job.status))
            && (forall gone, stays ::
                  gone in jobs && gone !in kept && stays in kept && Terminal(stays.status) ==>
                    gone.created <= stays.created)
            && (|kept| <= maxHistory || |kept| == |jobs| - terminal)
  {
    hide Victims, Drop, TerminalJobs, UniqueIds;
    VictimFacts(jobs, maxHistory);
    var victims, kept := Victims(jobs, maxHistory), Trim(jobs, maxHistory);
    DropCount(jobs, Ids(victims));
    DropUnique(jobs, Ids(victims));
    DropMembers(jobs, Ids(victims));
    forall job | job in jobs && job !in kept ensures job in victims {
      VictimById(jobs, victims, job);
    }
    forall job | job in victims ensures job !in kept {
      assert job.id in Ids(victims);
    }
  }

  // What is left is within the limit, or nothing terminal is left.
  lemma TrimBound(jobs: seq<Job>, maxHistory: int)
    requires UniqueIds(jobs)
    ensures var kept := Trim(jobs, maxHistory);
            |kept| <= maxHistory || forall job :: job in kept ==> !Terminal(job.status)
  {
    var kept, overflow := Trim(jobs, maxHistory), |jobs| - maxHistory;
    TrimIsExact(jobs, maxHistory);
    if |kept| > maxHistory {
      RemovableFacts(jobs);
      var victims := Victims(jobs, maxHistory);
      assert victims == Removable(jobs);
      DropMembers(jobs, Ids(victims));
      assert forall job :: job in victims ==> job.id in Ids(victims);
      assert forall job :: job in kept ==> job !in victims;
    }
  }

  lemma VictimById(jobs: seq<Job>, victims: seq<Job>, job: Job)
    requires UniqueIds(jobs) && job in jobs && job.id in Ids(victims)
    requires forall victim :: victim in victims ==> victim in jobs
    ensures job in victims
  {
    var victim :| victim in victims && victim.id == job.id;
    OnlyWithId(jobs, job, victim);
  }

  lemma VictimFacts(jobs: seq<Job>, maxHistory: int)
    requires UniqueIds(jobs)
    ensures var victims := Victims(jobs, maxHistory);
            var overflow := |jobs| - maxHistory;
            && |victims| == |Ids(victims)| == (if overflow <= 0 then 0 else Min(overflow, |TerminalJobs(jobs)|))
            && Ids(victims) <= Ids(jobs)
            && (forall job :: job in victims ==> job in jobs && Terminal(job.status))
            && (forall gone, stays ::
                gone in victims && stays in jobs && Terminal(stays.status) && stays !in victims ==>
                  gone.created <= stays.created)
  {
    var victims, removable := Victims(jobs, maxHistory), Removable(jobs);
    RemovableFacts(jobs);
    UniquePrefix(removable, |victims|);
    forall k | 0 <= k < |victims| ensures removable[k] in victims {
      assert victims[k] == removable[k];
    }
    IdsCount(victims);
    forall gone, stays | gone in victims && stays in jobs && Terminal(stays.status) && stays !in victims
      ensures gone.created <= stays.created
    {
      var i :| 0 <= i < |victims| && victims[i] == gone;
      assert stays in removable;
      var j :| 0 <= j < |removable| && removable[j] == stays;
    }
  }

  // What a change does to a job, field by field.
  predicate TakesEffect(before: Job, after: Job, change: Change) {
    && after.id == before.id && after.created == before.created
    && match change
       case Start(at) =>
         && after.status.Running? && after.started == Some(at) && after.finished == before.finished
         && after.error == before.error
       case Succeed(at) =>
         after.status.Succeeded? && after.started == before.started && after.finished == Some(at) && after.error.None?
       case Fail(at, error) =>
         && after.status.Failed? && after.started == before.started && after.finished == Some(at)
         && after.error == Some(error)
       case Cancel(at) =>
         && after.status.Cancelled? && after.started == before.started && after.finished == Some(at)
         && after.error == Some("Job cancelled because the service is shutting down")
  }

  // One job is gone if it was held, and nothing else has changed.
  ghost predicate IsPopped(before: seq<Job>, id: JobId, after: seq<Job>) {
    if Holds(before, id) then exists i :: 0 <= i < |before| && before[i].id == id && after == Without(before, i)
    else after == before
  }

  lemma {:induction false} DropAbsent(jobs: seq<Job>, id: JobId)
    requires !Holds(jobs, id)
    ensures Drop(jobs, {id}) == jobs
  {
    if jobs != [] {
      var init := jobs[..|jobs| - 1];
      assert forall i :: 0 <= i < |init| ==> init[i] == jobs[i];
      DropAbsent(init, id);
    }
  }

  lemma {:induction false} DropOne(jobs: seq<Job>, i: nat)
    requires UniqueIds(jobs) && i < |jobs|
    ensures Drop(jobs, {jobs[i].id}) == Without(jobs, i)
  {
    var n := |jobs| - 1;
    var init := jobs[..n];
    if i < n {
      DropOne(init, i);
      assert Without(jobs, i) == Without(init, i) + [jobs[n]];
    } else {
      DropAbsent(init, jobs[n].id);
      assert Without(jobs, n) == init;
    }
  }

  // The queue object. Each method is one section under its lock.
  class AsyncJobQueue {
    const maxHistory: int
    var jobs: seq<Job>
    var futures: set<JobId>
    var accepting: bool

    constructor (maxHistory: int)
      ensures this.maxHistory == maxHistory && jobs == [] && futures == {} && accepting
    {
      this.maxHistory := maxHistory;
      jobs, futures, accepting := [], {}, true;
    }

    ghost predicate Valid()
      reads this
    {
      UniqueIds(jobs)
    }

    // First section of `enqueue`.
    method Admit(id: JobId, now: Time) returns (admitted: bool)
      requires Valid() && !Holds(jobs, id)
      modifies this`jobs
      ensures Valid() && admitted == accepting
      ensures jobs == if admitted then Trim(old(jobs) + [NewJob(id, now)], maxHistory) else old(jobs)
      ensures admitted ==> Job(id, now, Queued, None, None, None) in jobs
    {
      admitted := accepting;
      if admitted {
        jobs := jobs + [NewJob(id, now)];
        TrimIsExact(jobs, maxHistory);
        assert NewJob(id, now) in jobs;
        TrimHistory();
      }
    }

    // The job's place in insertion order.
    method Find(id: JobId) returns (at: Option<nat>)
      requires Valid()
      ensures at.Some? <==> Holds(jobs, id)
      ensures at.Some? ==> at.value < |jobs| && jobs[at.value].id == id
    {
      for i := 0 to |jobs|
        invariant forall k :: 0 <= k < i ==> jobs[k].id != id
      {
        if jobs[i].id == id {
          return Some(i);
        }
      }
      return None;
    }

    // Forgets one job; the others keep their order.
    method Pop(id: JobId)
      requires Valid()
      modifies this`jobs
      ensures Valid() && !Holds(jobs, id) && jobs == Drop(old(jobs), {id})
      ensures IsPopped(old(jobs), id, jobs)
    {
      var at := Find(id);
      DropUnique(jobs, {id});
      if at.Some? {
        DropOne(jobs, at.value);
        jobs := Without(jobs, at.value);
      } else {
        DropAbsent(jobs, id);
      }
    }

    // The section after a rejected submission.
    method Withdraw(id: JobId)
      requires Valid()
      modifies this`jobs
      ensures Valid() && !Holds(jobs, id) && jobs == Drop(old(jobs), {id})
      ensures IsPopped(old(jobs), id, jobs)
    {
      Pop(id);
    }

    method Track(id: JobId)
      modifies this`futures
      ensures futures == old(futures) + {id}
    {
      futures := futures + {id};
    }

    method UpdateJob(id: JobId, change: Change)
      requires Valid()
      modifies this`jobs
      ensures Valid() && jobs == Update(old(jobs), id, change)
      ensures |jobs| == |old(jobs)|
      ensures forall i :: 0 <= i < |jobs| ==>
                if old(jobs)[i].id == id then TakesEffect(old(jobs)[i], jobs[i], change) else jobs[i] == old(jobs)[i]
    {
      var at := Find(id);
      if at.None? {
        return;
      }
      jobs := jobs[at.value := Changed(jobs[at.value], change)];
    }

    method OnFutureDone(id: JobId, cancelled: bool, now: Time)
      requires Valid()
      modifies this`jobs, this`futures
      ensures Valid() && jobs == FinishFuture(old(jobs), id, cancelled, now)
      ensures |jobs| == |old(jobs)|
      ensures forall i :: 0 <= i < |jobs| ==>
                if old(jobs)[i].id == id && cancelled && old(jobs)[i].status.Queued?
                then TakesEffect(old(jobs)[i], jobs[i], Cancel(now)) else jobs[i] == old(jobs)[i]
      ensures id !in futures && forall other :: other != id ==> (other in futures <==> other in old(futures))
      ensures futures == old(futures) - {id}
    {
      var at := Find(id);
      if at.Some? && cancelled && jobs[at.value].status.Queued? {
        jobs := jobs[at.value := Changed(jobs[at.value], Cancel(now))];
      }
      futures := futures - {id};
    }

    method StopAccepting()
      modifies this`accepting
      ensures !accepting
    {
      accepting := false;
    }

    // Last section of `shutdown`.
    method CompleteShutdown(now: Time)
      requires Valid()
      modifies this`jobs, this`futures
      ensures Valid() && futures == {}
      ensures jobs == Trim(CancelQueued(old(jobs), now), maxHistory)
    {
      for i := 0 to |jobs|
        invariant |jobs| == |old(jobs)|
        invariant forall k :: 0 <= k < i ==> jobs[k] == CancelQueued(old(jobs), now)[k]
        invariant forall k :: i <= k < |jobs| ==> jobs[k] == old(jobs)[k]
      {
        if jobs[i].status.Queued? {
          jobs := jobs[i := Changed(jobs[i], Cancel(now))];
        }
      }
      assert jobs == CancelQueued(old(jobs), now);
      futures := {};
      TrimHistory();
    }

    method TrimHistory()
      requires Valid()
      modifies this`jobs
      ensures Valid() && jobs == Trim(old(jobs), maxHistory)
    {
      var overflow := |jobs| - maxHistory;
      TrimIsExact(jobs, maxHistory);
      if overflow <= 0 {
        DropNothing(jobs);
        return;
      }
      var removable := Removable(jobs);
      var count := Min(overflow, |removable|);
      ghost var before := jobs;
      DropNothing(jobs);
      for i := 0 to count
        invariant Valid() && jobs == Drop(before, Ids(removable[..i]))
      {
        DropNext(before, removable, i);
        Pop(removable[i].id);
      }
    }
  }

  lemma DropNext(jobs: seq<Job>, victims: seq<Job>, i: nat)
    requires i < |victims|
    ensures Drop(Drop(jobs, Ids(victims[..i])), {victims[i].id}) == Drop(jobs, Ids(victims[..i + 1]))
  {
    DropMore(jobs, Ids(victims[..i]), victims[i].id);
    assert victims[..i + 1] == victims[..i] + [victims[i]];
    assert Ids(victims[..i + 1]) == Ids(victims[..i]) + {victims[i].id};
  }

  lemma {:induction false} DropNothing(jobs: seq<Job>)
    ensures Drop(jobs, {}) == jobs && Ids([]) == {}
  {
    if jobs != [] {
      DropNothing(jobs[..|jobs| - 1]);
    }
  }

  lemma {:induction false} DropMore(jobs: seq<Job>, ids: set<JobId>, id: JobId)
    ensures Drop(Drop(jobs, ids), {id}) == Drop(jobs, ids + {id})
  {
    if jobs != [] {
      var init, last := jobs[..|jobs| - 1], jobs[|jobs| - 1];
      DropMore(init, ids, id);
      var d := Drop(init, ids);
      if last.id in ids {
        assert Drop(jobs, ids) == d;
      } else {
        assert (d + [last])[..|d|] == d;
      }
    }
  }
}
