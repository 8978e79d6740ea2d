/**
 One supervised service: start, polling, restart after a crash or after eight counted
 health failures, and the back-off between crashes.
 */
module DevSupervisor {
  import opened Numbers

  const RESTART_AT: nat := 8
  const BACKOFF_LIMIT: nat := 10

  // What a poll observes. `now` is the monotonic clock at the deadline check, `startedAt` the clock
  // at a start that the poll makes.
  datatype Observation = Observation(exited: bool, healthy: bool, now: real, startedAt: real)

  datatype Outcome =
    | Started                  // there was no process yet
    | Aborted                  // the process exited and automatic restart is off
    | Restarted(slept: nat)    // after a crash
    | Unchecked                // no health URL
    | Healthy
    | InGrace
    | Counted
    | HealthRestarted

  // The fields poll reads and writes.
  datatype Fields = Fields(
    running: bool, unhealthyCount: nat, restartCount: nat, startupDeadline: real, hasBeenHealthy: bool)

  const FRESH := Fields(false, 0, 0, 0.0, false)

  function AfterStart(f: Fields, at: real, grace: real): Fields {
    f.(running := true, unhealthyCount := 0, startupDeadline := at + grace, hasBeenHealthy := false)
  }

  function OutcomeOf(f: Fields, o: Observation, autoRestart: bool, hasHealthUrl: bool): Outcome {
    if !f.running then Started
    else if o.exited then (if autoRestart then Restarted(Min(BACKOFF_LIMIT, f.restartCount + 1)) else Aborted)
    else if !hasHealthUrl then Unchecked
    else if o.healthy then Healthy
    else if !f.hasBeenHealthy && o.now < f.startupDeadline then InGrace
    else if f.unhealthyCount + 1 >= RESTART_AT then HealthRestarted
    else Counted
  }

  function AfterPoll(f: Fields, o: Observation, autoRestart: bool, hasHealthUrl: bool, grace: real): Fields {
    match OutcomeOf(f, o, autoRestart, hasHealthUrl)
    case Started => AfterStart(f, o.startedAt, grace)
    case Aborted => f
    case Restarted(_) => AfterStart(f.(restartCount := f.restartCount + 1), o.startedAt, grace)
    case Unchecked => f
    case Healthy => f.(hasBeenHealthy := true, unhealthyCount := 0)
    case InGrace => f
    case Counted => f.(unhealthyCount := f.unhealthyCount + 1)
    case HealthRestarted => AfterStart(f, o.startedAt, grace)
  }

  class Service {
    const hasHealthUrl: bool
    var running: bool
    var unhealthyCount: nat
    var restartCount: nat
    var startupDeadline: real
    var hasBeenHealthy: bool

    constructor (hasHealthUrl: bool)
      ensures this.hasHealthUrl == hasHealthUrl && State() == FRESH
    {
      this.hasHealthUrl := hasHealthUrl;
      running, unhealthyCount, restartCount, startupDeadline, hasBeenHealthy := false, 0, 0, 0.0, false;
    }

    ghost function State(): Fields
      reads this
    {
      Fields(running, unhealthyCount, restartCount, startupDeadline, hasBeenHealthy)
    }

    method Start(at: real, grace: real)
      modifies this
      ensures State() == AfterStart(old(State()), at, grace)
    {
      running := true;
      unhealthyCount := 0;
      startupDeadline := at + grace;
      hasBeenHealthy := false;
    }

    method Poll(o: Observation, autoRestart: bool, grace: real) returns (outcome: Outcome)
      modifies this
      ensures outcome == OutcomeOf(old(State()), o, autoRestart, hasHealthUrl)
      ensures State() == AfterPoll(old(State()), o, autoRestart, hasHealthUrl, grace)
    {
      if !running {
        Start(o.startedAt, grace);
        return Started;
      }
      if o.exited {
        if !autoRestart {
          return Aborted;
        }
        restartCount := restartCount + 1;
        outcome := Restarted(Min(BACKOFF_LIMIT, restartCount));
        Start(o.startedAt, grace);
        return;
      }
      if hasHealthUrl {
        if o.healthy {
          hasBeenHealthy := true;
          unhealthyCount := 0;
          return Healthy;
        }
        if !hasBeenHealthy && o.now < startupDeadline {
          return InGrace;
        }
        unhealthyCount := unhealthyCount + 1;
        if unhealthyCount >= RESTART_AT {
          Start(o.startedAt, grace);
          return HealthRestarted;
        }
        return Counted;
      }
      return Unchecked;
    }
  }

  // A run of polls: the observations, and the fields and outcomes they lead to.
  datatype Run = Run(autoRestart: bool, hasHealthUrl: bool, grace: real, observations: seq<Observation>)

  function FieldsAfter(r: Run, n: nat): Fields
    requires n <= |r.observations|
  {
    if n == 0 then FRESH
    else AfterPoll(FieldsAfter(r, n - 1), r.observations[n - 1], r.autoRestart, r.hasHealthUrl, r.grace)
  }

  function OutcomeAt(r: Run, n: nat): Outcome
    requires n < |r.observations|
  {
    OutcomeOf(FieldsAfter(r, n), r.observations[n], r.autoRestart, r.hasHealthUrl)
  }

  // The service was started by poll n.
  predicate StartsAt(r: Run, n: nat)
    requires n < |r.observations|
  {
    OutcomeAt(r, n).Started? || OutcomeAt(r, n).Restarted? || OutcomeAt(r, n).HealthRestarted?
  }

  predicate CountsFailure(r: Run, n: nat)
    requires n < |r.observations|
  {
    OutcomeAt(r, n).Counted? || OutcomeAt(r, n).HealthRestarted?
  }

  // Counted failures among the polls before n since the last start or healthy probe.
  function FailuresSince(r: Run, n: nat): nat
    requires n <= |r.observations|
  {
    if n == 0 || StartsAt(r, n - 1) || OutcomeAt(r, n - 1).Healthy? then 0
    else FailuresSince(r, n - 1) + if CountsFailure(r, n - 1) then 1 else 0
  }

  // The counter is the number of counted failures, and stays below eight between polls.
  lemma {:induction false} CounterCounts(r: Run, n: nat)
    requires n <= |r.observations|
    ensures FieldsAfter(r, n).unhealthyCount == FailuresSince(r, n) <= 7
  {
    if n > 0 {
      CounterCounts(r, n - 1);
    }
  }

  // The time of the last start before poll n, and whether a probe was healthy since.
  function LastStart(r: Run, n: nat): real
    requires n <= |r.observations|
  {
    if n == 0 then 0.0
    else if StartsAt(r, n - 1) then r.observations[n - 1].startedAt
    else LastStart(r, n - 1)
  }

  function HealthySinceStart(r: Run, n: nat): bool
    requires n <= |r.observations|
  {
    n > 0 && !StartsAt(r, n - 1) && (OutcomeAt(r, n - 1).Healthy? || HealthySinceStart(r, n - 1))
  }

  lemma {:induction false} FieldsRecordStart(r: Run, n: nat)
    requires n <= |r.observations|
    ensures FieldsAfter(r, n).hasBeenHealthy == HealthySinceStart(r, n)
    ensures FieldsAfter(r, n).running ==> FieldsAfter(r, n).startupDeadline == LastStart(r, n) + r.grace
    ensures !FieldsAfter(r, n).running ==> n == 0
  {
    if n > 0 {
      FieldsRecordStart(r, n - 1);
    }
  }

  // The outcome of a poll follows from what it observes: the first poll starts the service, every later
  // one sees it exited or alive, and alive with a healthy or a failed probe.
  lemma OutcomeFollowsObservation(r: Run, n: nat)
    requires n < |r.observations|
    ensures var o, outcome := r.observations[n], OutcomeAt(r, n);
            && (outcome.Started? <==> n == 0)
            && (outcome.Aborted? <==> n > 0 && o.exited && !r.autoRestart)
            && (outcome.Restarted? <==> n > 0 && o.exited && r.autoRestart)
            && (outcome.Unchecked? <==> n > 0 && !o.exited && !r.hasHealthUrl)
            && (outcome.Healthy? <==> n > 0 && !o.exited && r.hasHealthUrl && o.healthy)
            && (outcome.Healthy? ==> FieldsAfter(r, n + 1).unhealthyCount == 0 && FieldsAfter(r, n + 1).hasBeenHealthy)
            && (StartsAt(r, n) ==> FieldsAfter(r, n + 1).unhealthyCount == 0 && !FieldsAfter(r, n + 1).hasBeenHealthy)
  {
    FieldsRecordStart(r, n);
    RunningAfterStart(r, n);
  }

  lemma {:induction false} RunningAfterStart(r: Run, n: nat)
    requires n <= |r.observations|
    ensures FieldsAfter(r, n).running <==> n > 0
  {
    if n > 0 {
      RunningAfterStart(r, n - 1);
    }
  }

  // A failed probe of a live service.
  predicate FailedProbe(r: Run, n: nat)
    requires n < |r.observations|
  {
    FieldsAfter(r, n).running && !r.observations[n].exited && r.hasHealthUrl && !r.observations[n].healthy
  }

  // A failed probe restarts the service exactly when it counts and seven counted failures came before
  // it since the last start or healthy probe; it counts unless the service has not been healthy since
  // its start and its start-up time is not over.
  lemma HealthRestartIff(r: Run, n: nat)
    requires n < |r.observations|
    ensures OutcomeAt(r, n).HealthRestarted? <==> CountsFailure(r, n) && FailuresSince(r, n) == 7
    ensures CountsFailure(r, n) <==>
            FailedProbe(r, n) && (HealthySinceStart(r, n) || r.observations[n].now >= LastStart(r, n) + r.grace)
    ensures var o := r.observations[n];
            FailedProbe(r, n) <==> n > 0 && !o.exited && r.hasHealthUrl && !o.healthy
  {
    RunningAfterStart(r, n);
    CounterCounts(r, n);
    FieldsRecordStart(r, n);
  }

  // Back-off slept for crashes in the first n polls.
  function BackoffSlept(r: Run, n: nat): nat
    requires n <= |r.observations|
  {
    if n == 0 then 0
    else BackoffSlept(r, n - 1) + if OutcomeAt(r, n - 1).Restarted? then OutcomeAt(r, n - 1).slept else 0
  }

  function Crashes(r: Run, n: nat): nat
    requires n <= |r.observations|
  {
    if n == 0 then 0 else Crashes(r, n - 1) + if OutcomeAt(r, n - 1).Restarted? then 1 else 0
  }

  // min(10, 1) + ... + min(10, k), in closed form.
  function ClosedBackoff(k: nat): nat {
    if k <= BACKOFF_LIMIT then k * (k + 1) / 2 else 55 + BACKOFF_LIMIT * (k - BACKOFF_LIMIT)
  }

  lemma {:induction false} BackoffIsClosedForm(r: Run, n: nat)
    requires n <= |r.observations|
    ensures FieldsAfter(r, n).restartCount == Crashes(r, n)
    ensures BackoffSlept(r, n) == ClosedBackoff(Crashes(r, n))
    ensures var k := Crashes(r, n); BackoffSlept(r, n) == if k <= 10 then k * (k + 1) / 2 else 10 * k - 45
  {
    if n > 0 {
      BackoffIsClosedForm(r, n - 1);
      ClosedBackoffStep(Crashes(r, n - 1));
    }
  }

  lemma ClosedBackoffStep(k: nat)
    ensures ClosedBackoff(k + 1) == ClosedBackoff(k) + Min(BACKOFF_LIMIT, k + 1)
  {
    if k < BACKOFF_LIMIT {
      assert (k + 1) * (k + 2) == k * (k + 1) + 2 * (k + 1);
    }
  }
}
