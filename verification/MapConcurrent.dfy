/**
 Bounded concurrent mapping: workers that share a cursor into the values and wait for
 one operation at a time. A step is the stretch of one worker between two awaits.
 */
module MapConcurrent {
  import opened Wrappers

  datatype Worker = Ready | InFlight(index: nat) | Retired

  // `called` lists the indices the operation was called for, in order.
  datatype State<R> = State(next: nat, workers: seq<Worker>, results: map<nat, R>, called: seq<nat>)

  function WorkerCount(jobs: int, n: nat): nat {
    if jobs <= 0 then 0 else if jobs < n then jobs else n
  }

  function Initial<R>(jobs: int, n: nat): State<R> {
    State(0, seq(WorkerCount(jobs, n), _ => Ready), map[], [])
  }

  datatype Event<R> = Resume(worker: nat) | Settle(worker: nat, result: R)

  // What a worker gets when it looks at the cursor: the new cursor, and the index to work on if there is one.
  datatype Taken = Taken(next: nat, index: Option<nat>)

  function TakeFrom<T>(next: nat, values: seq<Option<T>>): Taken {
    if next >= |values| then Taken(next, None)
    else Taken(next + 1, if values[next].Some? then Some(next) else None)
  }

  // The variables the workers share.
  class Mapping<T, R> {
    const values: seq<Option<T>>
    var next: nat
    var results: map<nat, R>

    constructor (values: seq<Option<T>>)
      ensures this.values == values && next == 0 && results == map[]
    {
      this.values := values;
      next, results := 0, map[];
    }

    // From the top of a worker's loop to its await, or to its return.
    method Take() returns (index: Option<nat>)
      modifies this`next
      ensures Taken(next, index) == TakeFrom(old(next), values)
    {
      if next >= |values| {
        return None;
      }
      var i := next;
      next := next + 1;
      index := if values[i].Some? then Some(i) else None;
    }

    method Store(index: nat, result: R)
      modifies this`results
      ensures results == old(results)[index := result]
    {
      results := results[index := result];
    }
  }

  // A ready worker takes the next index, or retires at the end or on an undefined value.
  function TakeNext<T, R>(s: State<R>, worker: nat, values: seq<Option<T>>): State<R>
    requires worker < |s.workers|
  {
    var taken := TakeFrom(s.next, values);
    match taken.index
    case None => s.(next := taken.next, workers := s.workers[worker := Retired])
    case Some(i) => s.(next := taken.next, workers := s.workers[worker := InFlight(i)], called := s.called + [i])
  }

  // The operation fulfils with the result belonging to its value.
  ghost predicate Enabled<T(!new), R(!new)>(s: State<R>, e: Event<R>, values: seq<Option<T>>, operation: T -> R) {
    e.worker < |s.workers| &&
    match e
    case Resume(worker) => s.workers[worker].Ready?
    case Settle(worker, result) =>
      s.workers[worker].InFlight? && s.workers[worker].index < |values| && values[s.workers[worker].index].Some?
      && result == operation(values[s.workers[worker].index].value)
  }

  function Apply<T, R>(s: State<R>, e: Event<R>, values: seq<Option<T>>): State<R>
    requires e.worker < |s.workers|
    requires e.Settle? ==> s.workers[e.worker].InFlight?
  {
    match e
    case Resume(worker) => TakeNext(s, worker, values)
    case Settle(worker, result) =>
      s.(results := s.results[s.workers[worker].index := result], workers := s.workers[worker := Ready])
  }

  // Indices below the cursor with a defined value are called, each once, and are stored or in flight.
  ghost predicate Invariant<T(!new), R(!new)>(s: State<R>, values: seq<Option<T>>, operation: T -> R) {
    && s.next <= |values|
    && (forall i, j :: 0 <= i < j < |s.called| ==> s.called[i] < s.called[j])
    && (forall i: nat :: i in s.called <==> i < s.next && values[i].Some?)
    && (forall i: nat :: i in s.results ==> i in s.called && s.results[i] == operation(values[i].value))
    && (forall i: nat :: i in s.called ==> i in s.results || InFlightSomewhere(s, i))
    && (forall k :: 0 <= k < |s.workers| && s.workers[k].InFlight? ==>
          s.workers[k].index in s.called && s.workers[k].index !in s.results)
    && (forall k, l :: 0 <= k < l < |s.workers| && s.workers[k].InFlight? ==> s.workers[k] != s.workers[l])
  }

  ghost predicate InFlightSomewhere<R(!new)>(s: State<R>, i: nat) {
    exists k :: 0 <= k < |s.workers| && s.workers[k] == InFlight(i)
  }

  lemma TakeKeeps<T(!new), R(!new)>(s: State<R>, worker: nat, values: seq<Option<T>>, operation: T -> R)
    requires Invariant(s, values, operation) && worker < |s.workers| && s.workers[worker].Ready?
    ensures Invariant(TakeNext(s, worker, values), values, operation)
  {
    var s' := TakeNext(s, worker, values);
    forall i: nat | i in s.called && i !in s.results ensures InFlightSomewhere(s', i) {
      assert InFlightSomewhere(s, i);
      var k :| 0 <= k < |s.workers| && s.workers[k] == InFlight(i);
      assert s'.workers[k] == InFlight(i);
    }
    if s.next < |values| && values[s.next].Some? {
      assert s'.workers[worker] == InFlight(s.next);
      assert InFlightSomewhere(s', s.next);
      forall i | 0 <= i < |s.called| ensures s.called[i] < s.next {
        assert s.called[i] in s.called;
      }
    }
  }

  lemma SettleKeeps<T(!new), R(!new)>(s: State<R>, worker: nat, result: R, values: seq<Option<T>>, operation: T -> R)
    requires Invariant(s, values, operation) && Enabled(s, Settle(worker, result), values, operation)
    ensures Invariant(Apply(s, Settle(worker, result), values), values, operation)
  {
    var s' := Apply(s, Settle(worker, result), values);
    forall i: nat | i in s.called && i !in s'.results ensures InFlightSomewhere(s', i) {
      assert InFlightSomewhere(s, i);
      var k :| 0 <= k < |s.workers| && s.workers[k] == InFlight(i);
      assert s'.workers[k] == InFlight(i);
    }
  }

  ghost predicate IsRun<T(!new), R(!new)>(
    states: seq<State<R>>, events: seq<Event<R>>, jobs: int, values: seq<Option<T>>, operation: T -> R)
  {
    && |states| == |events| + 1 && states[0] == Initial(jobs, |values|)
    && forall i :: 0 <= i < |events| ==> StepOf(states, events, values, operation, i)
  }

  ghost predicate StepOf<T(!new), R(!new)>(
    states: seq<State<R>>, events: seq<Event<R>>, values: seq<Option<T>>, operation: T -> R, i: nat)
    requires |states| == |events| + 1 && i < |events|
  {
    Enabled(states[i], events[i], values, operation) && states[i + 1] == Apply(states[i], events[i], values)
  }

  lemma {:induction false} RunInvariant<T(!new), R(!new)>(
    states: seq<State<R>>, events: seq<Event<R>>, jobs: int, values: seq<Option<T>>, operation: T -> R, i: nat)
    requires IsRun(states, events, jobs, values, operation) && i < |states|
    ensures Invariant(states[i], values, operation)
    ensures |states[i].workers| == WorkerCount(jobs, |values|)
  {
    if i > 0 {
      RunInvariant(states, events, jobs, values, operation, i - 1);
      assert StepOf(states, events, values, operation, i - 1);
      match events[i - 1]
      case Resume(worker) => TakeKeeps(states[i - 1], worker, values, operation);
      case Settle(worker, result) => SettleKeeps(states[i - 1], worker, result, values, operation);
    }
  }

  function Total(workers: seq<Worker>, weight: Worker -> nat): nat {
    if workers == [] then 0 else Total(workers[..|workers| - 1], weight) + weight(workers[|workers| - 1])
  }

  lemma {:induction false} TotalOfUpdate(workers: seq<Worker>, k: nat, w: Worker, weight: Worker -> nat)
    requires k < |workers|
    ensures Total(workers[k := w], weight) == Total(workers, weight) - weight(workers[k]) + weight(w)
  {
    var last := |workers| - 1;
    if k < last {
      TotalOfUpdate(workers[..last], k, w, weight);
      assert workers[k := w][..last] == workers[..last][k := w];
    } else {
      assert workers[k := w][..last] == workers[..last];
    }
  }

  lemma {:induction false} TotalIsCount(workers: seq<Worker>, weight: Worker -> nat)
    requires forall w :: weight(w) <= 1
    ensures Total(workers, weight) <= |workers|
    ensures Total(workers, weight) == |workers| <==> forall k :: 0 <= k < |workers| ==> weight(workers[k]) == 1
    ensures Total(workers, weight) == 0 <==> forall k :: 0 <= k < |workers| ==> weight(workers[k]) == 0
  {
    if workers != [] {
      var last := |workers| - 1;
      TotalIsCount(workers[..last], weight);
      assert forall k :: 0 <= k < last ==> workers[..last][k] == workers[k];
    }
  }

  function InFlightWeight(w: Worker): nat {
    if w.InFlight? then 1 else 0
  }

  function RetiredWeight(w: Worker): nat {
    if w.Retired? then 1 else 0
  }

  // At every moment at most `jobs` operations are in flight and no index was called twice.
  lemma BoundedAndOnce<T(!new), R(!new)>(
    states: seq<State<R>>, events: seq<Event<R>>, jobs: int, values: seq<Option<T>>, operation: T -> R, i: nat)
    requires IsRun(states, events, jobs, values, operation) && i < |states|
    ensures Total(states[i].workers, InFlightWeight) <= if jobs <= 0 then 0 else jobs
    ensures forall k, l :: 0 <= k < l < |states[i].called| ==> states[i].called[k] != states[i].called[l]
  {
    RunInvariant(states, events, jobs, values, operation, i);
    TotalIsCount(states[i].workers, InFlightWeight);
  }

  predicate AllRetired<R>(s: State<R>) {
    forall k :: 0 <= k < |s.workers| ==> s.workers[k].Retired?
  }

  function UndefinedBefore<T>(values: seq<Option<T>>, i: nat): nat
    requires i <= |values|
  {
    if i == 0 then 0 else UndefinedBefore(values, i - 1) + if values[i - 1].None? then 1 else 0
  }

  lemma {:induction false} UndefinedGrows<T>(values: seq<Option<T>>, i: nat, j: nat)
    requires i <= j <= |values|
    ensures UndefinedBefore(values, i) <= UndefinedBefore(values, j)
    decreases j
  {
    if i < j {
      UndefinedGrows(values, i, j - 1);
    }
  }

  // Before the cursor reaches the end, every retired worker has met its own undefined value.
  ghost predicate RetiredByUndefined<T(!new), R(!new)>(s: State<R>, values: seq<Option<T>>) {
    && s.next <= |values|
    && (s.next < |values| ==> Total(s.workers, RetiredWeight) == UndefinedBefore(values, s.next))
    && (s.next > 0 ==> UndefinedBefore(values, s.next - 1) < |s.workers|)
  }

  lemma SomeoneWorks(workers: seq<Worker>, k: nat)
    requires k < |workers| && !workers[k].Retired?
    ensures Total(workers, RetiredWeight) < |workers|
  {
    TotalIsCount(workers, RetiredWeight);
  }

  lemma StepRetires<T(!new), R(!new)>(s: State<R>, e: Event<R>, values: seq<Option<T>>)
    requires RetiredByUndefined(s, values) && e.worker < |s.workers|
    requires if e.Settle? then s.workers[e.worker].InFlight? else s.workers[e.worker].Ready?
    ensures RetiredByUndefined(Apply(s, e, values), values)
  {
    var before, after := s.workers[e.worker], Apply(s, e, values).workers[e.worker];
    TotalOfUpdate(s.workers, e.worker, after, RetiredWeight);
    assert RetiredWeight(before) == 0;
    SomeoneWorks(s.workers, e.worker);
  }

  lemma {:induction false} RunRetires<T(!new), R(!new)>(
    states: seq<State<R>>, events: seq<Event<R>>, jobs: int, values: seq<Option<T>>, operation: T -> R, i: nat)
    requires IsRun(states, events, jobs, values, operation) && i < |states|
    ensures RetiredByUndefined(states[i], values)
  {
    if i == 0 {
      TotalIsCount(states[0].workers, RetiredWeight);
    } else {
      RunRetires(states, events, jobs, values, operation, i - 1);
      assert StepOf(states, events, values, operation, i - 1);
      StepRetires(states[i - 1], events[i - 1], values);
    }
  }

  // Of a state in which all workers have retired: what is below the cursor.
  lemma CursorEnd<T(!new), R(!new)>(s: State<R>, values: seq<Option<T>>, i: nat)
    requires RetiredByUndefined(s, values) && AllRetired(s) && i < |values|
    ensures i < s.next <==> UndefinedBefore(values, i) < |s.workers|
  {
    TotalIsCount(s.workers, RetiredWeight);
    if i < s.next {
      UndefinedGrows(values, i, s.next - 1);
    } else {
      UndefinedGrows(values, s.next, i);
    }
  }

  lemma StoredIffCalled<T(!new), R(!new)>(s: State<R>, values: seq<Option<T>>, operation: T -> R, i: nat)
    requires Invariant(s, values, operation) && AllRetired(s)
    ensures i in s.results <==> i in s.called
  {
    assert !InFlightSomewhere(s, i);
  }

  /**
   When the workers are done, exactly these results are present, on every schedule: the operation's
   result at each index that holds a defined value and has fewer than `jobs` undefined values before it.
   */
  lemma FinalResults<T(!new), R(!new)>(
    states: seq<State<R>>, events: seq<Event<R>>, jobs: int, values: seq<Option<T>>, operation: T -> R, i: nat)
    requires IsRun(states, events, jobs, values, operation) && AllRetired(states[|events|])
    ensures var last := states[|events|];
            i in last.results <==>
              i < |values| && values[i].Some? && UndefinedBefore(values, i) < jobs
    ensures var last := states[|events|]; i in last.called <==> i in last.results
    ensures var last := states[|events|];
            i in last.results ==> last.results[i] == operation(values[i].value)
  {
    var last := states[|events|];
    RunInvariant(states, events, jobs, values, operation, |events|);
    RunRetires(states, events, jobs, values, operation, |events|);
    StoredIffCalled(last, values, operation, i);
    if i < |values| {
      CursorEnd(last, values, i);
      UndefinedAtMost(values, i);
    }
  }

  lemma {:induction false} UndefinedAtMost<T>(values: seq<Option<T>>, i: nat)
    requires i <= |values|
    ensures UndefinedBefore(values, i) <= i
    ensures UndefinedBefore(values, i) == 0 <==> forall k :: 0 <= k < i ==> values[k].Some?
  {
    if i > 0 {
      UndefinedAtMost(values, i - 1);
    }
  }

  // With every value defined and at least one job, every schedule maps every value.
  lemma EveryValueIsMapped<T(!new), R(!new)>(
    states: seq<State<R>>, events: seq<Event<R>>, jobs: int, values: seq<Option<T>>, operation: T -> R)
    requires IsRun(states, events, jobs, values, operation) && AllRetired(states[|events|])
    requires jobs >= 1 && forall i :: 0 <= i < |values| ==> values[i].Some?
    ensures var results := states[|events|].results;
            && (forall i: nat :: i < |values| ==> i in results && results[i] == operation(values[i].value))
            && forall i: nat :: i in results ==> i < |values|
  {
    var results := states[|events|].results;
    forall i: nat ensures i in results <==> i < |values| {
      FinalResults(states, events, jobs, values, operation, i);
      if i < |values| {
        UndefinedAtMost(values, i);
      }
    }
    forall i: nat | i < |values| ensures results[i] == operation(values[i].value) {
      FinalResults(states, events, jobs, values, operation, i);
    }
  }

  // Workers that have each taken one value, with the rest about to.
  function Started(taken: nat, count: nat): (workers: seq<Worker>)
    requires taken <= count
    ensures |workers| == count
  {
    seq(count, k requires 0 <= k < count => if k < taken then InFlight(k) else Ready)
  }

  lemma {:induction false} StartedInFlight(taken: nat, count: nat)
    requires taken <= count
    ensures Total(Started(taken, count), InFlightWeight) == taken
    decreases count
  {
    if count > 0 {
      var before := Started(if taken < count then taken else count - 1, count - 1);
      assert Started(taken, count)[..count - 1] == before;
      StartedInFlight(if taken < count then taken else count - 1, count - 1);
    }
  }

  // The bound is reached: with every value defined there is a run in which as many operations are in
  // flight as there are jobs and values for.
  lemma FullyConcurrent<T(!new), R(!new)>(jobs: int, values: seq<Option<T>>, operation: T -> R)
    returns (states: seq<State<R>>, events: seq<Event<R>>)
    requires jobs >= 1 && forall i :: 0 <= i < |values| ==> values[i].Some?
    ensures IsRun(states, events, jobs, values, operation)
    ensures Total(states[|events|].workers, InFlightWeight) == if jobs <= |values| then jobs else |values|
  {
    var count := WorkerCount(jobs, |values|);
    states, events := StartWorkers(jobs, values, operation, count);
    StartedInFlight(count, count);
  }

  lemma {:induction false} StartWorkers<T(!new), R(!new)>(
    jobs: int, values: seq<Option<T>>, operation: T -> R, taken: nat)
    returns (states: seq<State<R>>, events: seq<Event<R>>)
    requires taken <= WorkerCount(jobs, |values|) && forall i :: 0 <= i < |values| ==> values[i].Some?
    ensures IsRun(states, events, jobs, values, operation)
    ensures states[|events|].next == taken && states[|events|].workers == Started(taken, WorkerCount(jobs, |values|))
    decreases taken
  {
    var count := WorkerCount(jobs, |values|);
    if taken == 0 {
      states, events := [Initial(jobs, |values|)], [];
      assert states[0].workers == Started(0, count);
    } else {
      var before, past := StartWorkers(jobs, values, operation, taken - 1);
      var last := before[|past|];
      var event: Event<R> := Resume(taken - 1);
      var next := Apply(last, event, values);
      states, events := before + [next], past + [event];
      assert next.workers == Started(taken, count);
      forall i | 0 <= i < |events| ensures StepOf(states, events, values, operation, i) {
        if i < |past| {
          assert StepOf(before, past, values, operation, i);
        }
      }
    }
  }

  function WorkWeight(w: Worker): nat {
    match w
    case Ready => 1
    case InFlight(_) => 2
    case Retired => 0
  }

  function Remaining<T, R>(s: State<R>, values: seq<Option<T>>): int {
    3 * (|values| - s.next) + Total(s.workers, WorkWeight)
  }

  // No schedule stalls: until all workers are done some step is possible, and every step uses up work.
  lemma EveryScheduleEnds<T(!new), R(!new)>(
    states: seq<State<R>>, events: seq<Event<R>>, jobs: int, values: seq<Option<T>>, operation: T -> R)
    requires IsRun(states, events, jobs, values, operation)
    ensures !AllRetired(states[|events|]) ==> exists e :: Enabled(states[|events|], e, values, operation)
    ensures |events| <= 3 * |values| + WorkerCount(jobs, |values|)
  {
    var last := states[|events|];
    RunInvariant(states, events, jobs, values, operation, |events|);
    if !AllRetired(last) {
      var k :| 0 <= k < |last.workers| && !last.workers[k].Retired?;
      if last.workers[k].Ready? {
        assert Enabled(last, Resume(k), values, operation);
      } else {
        var index := last.workers[k].index;
        assert index in last.called;
        assert Enabled(last, Settle(k, operation(values[index].value)), values, operation);
      }
    }
    StepsUseUpWork(states, events, jobs, values, operation, |events|);
  }

  lemma {:induction false} StepsUseUpWork<T(!new), R(!new)>(
    states: seq<State<R>>, events: seq<Event<R>>, jobs: int, values: seq<Option<T>>, operation: T -> R, i: nat)
    requires IsRun(states, events, jobs, values, operation) && i < |states|
    ensures i + Remaining(states[i], values) <= 3 * |values| + WorkerCount(jobs, |values|)
    ensures Remaining(states[i], values) >= 0
  {
    RunInvariant(states, events, jobs, values, operation, i);
    if i == 0 {
      ReadyTotal(WorkerCount(jobs, |values|));
    } else {
      StepsUseUpWork(states, events, jobs, values, operation, i - 1);
      assert StepOf(states, events, values, operation, i - 1);
      var worker := events[i - 1].worker;
      TotalOfUpdate(states[i - 1].workers, worker, states[i].workers[worker], WorkWeight);
    }
  }

  lemma {:induction false} ReadyTotal(count: nat)
    ensures Total(seq(count, _ => Ready), WorkWeight) == count
  {
    if count > 0 {
      ReadyTotal(count - 1);
      assert seq(count, _ => Ready)[..count - 1] == seq(count - 1, _ => Ready);
    }
  }
}
