/**
 The frame watchdog: armed deadlines under a condition variable, and the thread that
 sleeps until the earliest of them.
 */
module FrameWatchdog {
  import opened Sorting
  import opened Wrappers

  type Token = string

  // An armed frame; the entries keep dictionary order.
  datatype Entry = Entry(token: Token, deadline: real)

  function Tokens(entries: seq<Entry>): set<Token> {
    set entry | entry in entries :: entry.token
  }

  // Assigning to a key keeps its place.
  function Put(entries: seq<Entry>, token: Token, deadline: real): seq<Entry> {
    if entries == [] then [Entry(token, deadline)]
    else if entries[0].token == token then [Entry(token, deadline)] + entries[1..]
    else [entries[0]] + Put(entries[1..], token, deadline)
  }

  function Remove(entries: seq<Entry>, token: Token): seq<Entry> {
    if entries == [] then []
    else if entries[0].token == token then Remove(entries[1..], token)
    else [entries[0]] + Remove(entries[1..], token)
  }

  // The first entry with the least deadline.
  function Earliest(entries: seq<Entry>): (e: Entry)
    requires entries != []
    ensures e in entries && forall other :: other in entries ==> e.deadline <= other.deadline
  {
    if |entries| == 1 then entries[0]
    else
      var later := Earliest(entries[1..]);
      assert entries == [entries[0]] + entries[1..];
      if later.deadline < entries[0].deadline then later else entries[0]
  }

  lemma {:induction false} PutMember(entries: seq<Entry>, token: Token, deadline: real, e: Entry)
    requires UniqueTokens(entries)
    ensures e in Put(entries, token, deadline) <==> e == Entry(token, deadline) || (e in entries && e.token != token)
  {
    if entries != [] {
      assert entries == [entries[0]] + entries[1..];
      if entries[0].token != token {
        PutMember(entries[1..], token, deadline, e);
      } else if e in entries[1..] {
        var i :| 0 < i < |entries| && entries[i] == e;
        assert entries[0].token != entries[i].token;
      }
    }
  }

  lemma {:induction false} PutUnique(entries: seq<Entry>, token: Token, deadline: real)
    requires UniqueTokens(entries)
    ensures UniqueTokens(Put(entries, token, deadline))
  {
    if entries != [] && entries[0].token != token {
      var rest := Put(entries[1..], token, deadline);
      PutUnique(entries[1..], token, deadline);
      forall j | 0 <= j < |rest| ensures rest[j].token != entries[0].token {
        PutMember(entries[1..], token, deadline, rest[j]);
        if rest[j] in entries[1..] {
          var i :| 0 < i < |entries| && entries[i] == rest[j];
        }
      }
    }
  }

  lemma PutMembers(entries: seq<Entry>, token: Token, deadline: real)
    requires UniqueTokens(entries)
    ensures UniqueTokens(Put(entries, token, deadline))
    ensures forall e ::
              e in Put(entries, token, deadline) <==> e == Entry(token, deadline) || (e in entries && e.token != token)
  {
    PutUnique(entries, token, deadline);
    forall e
      ensures e in Put(entries, token, deadline) <==> e == Entry(token, deadline) || (e in entries && e.token != token)
    {
      PutMember(entries, token, deadline, e);
    }
  }

  lemma {:induction false} RemoveMembers(entries: seq<Entry>, token: Token)
    requires UniqueTokens(entries)
    ensures UniqueTokens(Remove(entries, token))
    ensures forall e :: e in Remove(entries, token) <==> e in entries && e.token != token
  {
    if entries != [] {
      assert entries == [entries[0]] + entries[1..];
      RemoveMembers(entries[1..], token);
    }
  }

  ghost predicate UniqueTokens(entries: seq<Entry>) {
    forall i, j :: 0 <= i < j < |entries| ==> entries[i].token != entries[j].token
  }

  // What the thread does after looking at the deadlines: leave, sleep (at most until a time), or fire.
  datatype Action = Leave | Sleep(until: Option<real>) | Fire(token: Token)

  function Look(entries: seq<Entry>, stopped: bool, now: real): Action {
    if stopped then Leave
    else if entries == [] then Sleep(None)
    else
      var e := Earliest(entries);
      if e.deadline - now > 0.0 then Sleep(Some(e.deadline)) else Fire(e.token)
  }

  // Where a token stands.
  predicate IsPlaceOf(entries: seq<Entry>, token: Token, i: nat) {
    i < |entries| && entries[i].token == token
  }

  lemma OnlyPlace(entries: seq<Entry>, token: Token, i: nat)
    requires UniqueTokens(entries) && IsPlaceOf(entries, token, i)
    ensures forall j :: 0 <= j < |entries| && j != i ==> entries[j].token != token
  {
  }

  lemma {:induction false} PutInPlace(entries: seq<Entry>, token: Token, deadline: real, i: nat)
    requires UniqueTokens(entries) && IsPlaceOf(entries, token, i)
    ensures Put(entries, token, deadline) == entries[i := Entry(token, deadline)]
  {
    if i > 0 {
      assert entries[0].token != entries[i].token;
      PutInPlace(entries[1..], token, deadline, i - 1);
      assert entries[i := Entry(token, deadline)] == [entries[0]] + entries[1..][i - 1 := Entry(token, deadline)];
    }
  }

  lemma {:induction false} PutLast(entries: seq<Entry>, token: Token, deadline: real)
    requires forall i :: 0 <= i < |entries| ==> entries[i].token != token
    ensures Put(entries, token, deadline) == entries + [Entry(token, deadline)]
  {
    if entries != [] {
      PutLast(entries[1..], token, deadline);
      assert entries == [entries[0]] + entries[1..];
    }
  }

  lemma {:induction false} RemoveAbsent(entries: seq<Entry>, token: Token)
    requires forall i :: 0 <= i < |entries| ==> entries[i].token != token
    ensures Remove(entries, token) == entries
  {
    if entries != [] {
      RemoveAbsent(entries[1..], token);
    }
  }

  lemma {:induction false} RemovePlace(entries: seq<Entry>, token: Token, i: nat)
    requires UniqueTokens(entries) && IsPlaceOf(entries, token, i)
    ensures Remove(entries, token) == Without(entries, i)
  {
    if i > 0 {
      assert entries[0].token != entries[i].token;
      RemovePlace(entries[1..], token, i - 1);
      assert Without(entries, i) == [entries[0]] + Without(entries[1..], i - 1);
    } else {
      RemoveAbsent(entries[1..], token);
    }
  }

  // The object. Each method is one section under the condition's lock; arm, disarm and stop notify.
  class Watchdog {
    const timeout: real
    var deadlines: seq<Entry>
    var stopped: bool

    ghost predicate Valid()
      reads this
    {
      UniqueTokens(deadlines)
    }

    constructor (timeout: real)
      ensures Valid() && this.timeout == timeout && deadlines == [] && !stopped
    {
      this.timeout := timeout;
      deadlines, stopped := [], false;
    }

    method PlaceOf(token: Token) returns (place: Option<nat>)
      ensures place.Some? <==> token in Tokens(deadlines)
      ensures place.Some? ==> IsPlaceOf(deadlines, token, place.value)
      ensures place.None? ==> forall i :: 0 <= i < |deadlines| ==> deadlines[i].token != token
    {
      for i := 0 to |deadlines|
        invariant forall k :: 0 <= k < i ==> deadlines[k].token != token
      {
        if deadlines[i].token == token {
          assert deadlines[i] in deadlines;
          return Some(i);
        }
      }
      return None;
    }

    // The token's deadline is one timeout from now. An armed token keeps its place, and no other
    // entry changes.
    method Arm(token: Token, now: real)
      requires Valid()
      modifies this`deadlines
      ensures Valid() && deadlines == Put(old(deadlines), token, now + timeout)
      ensures Entry(token, now + timeout) in deadlines && Tokens(deadlines) == Tokens(old(deadlines)) + {token}
      ensures |old(deadlines)| <= |deadlines|
      ensures forall i :: 0 <= i < |old(deadlines)| ==>
                var entry := old(deadlines)[i];
                deadlines[i] == if entry.token == token then Entry(token, now + timeout) else entry
      ensures forall i :: |old(deadlines)| <= i < |deadlines| ==> deadlines[i].token == token
    {
      hide Put, UniqueTokens, Tokens;
      var place := PlaceOf(token);
      PutMembers(deadlines, token, now + timeout);
      ArmedTokens(deadlines, token, now + timeout);
      if place.Some? {
        OnlyPlace(deadlines, token, place.value);
        PutInPlace(deadlines, token, now + timeout, place.value);
        deadlines := deadlines[place.value := Entry(token, now + timeout)];
      } else {
        PutLast(deadlines, token, now + timeout);
        deadlines := deadlines + [Entry(token, now + timeout)];
      }
    }

    // An armed token is gone afterwards, and no other entry changes.
    method Disarm(token: Token) returns (disarmed: bool)
      requires Valid()
      modifies this`deadlines
      ensures Valid() && disarmed == (token in Tokens(old(deadlines)))
      ensures deadlines == if disarmed then Remove(old(deadlines), token) else old(deadlines)
      ensures token !in Tokens(deadlines)
      ensures disarmed ==>
                exists i: nat :: IsPlaceOf(old(deadlines), token, i) && deadlines == Without(old(deadlines), i)
    {
      var place := PlaceOf(token);
      if place.None? {
        return false;
      }
      RemoveMembers(deadlines, token);
      RemovePlace(deadlines, token, place.value);
      deadlines := Without(deadlines, place.value);
      return true;
    }

    method Stop()
      modifies this`stopped
      ensures stopped
    {
      stopped := true;
    }

    // One pass of the watchdog thread's loop, scanning for the least deadline.
    method Decide(now: real) returns (action: Action)
      ensures action == Look(deadlines, stopped, now)
      ensures action == Leave <==> stopped
      ensures action == Sleep(None) <==> !stopped && deadlines == []
      ensures action.Sleep? && action.until.Some? ==>
                && action.until.value > now
                && (exists i :: 0 <= i < |deadlines| && deadlines[i].deadline == action.until.value)
                && forall i :: 0 <= i < |deadlines| ==> action.until.value <= deadlines[i].deadline
      ensures action.Fire? ==>
                exists i: nat ::
                  IsPlaceOf(deadlines, action.token, i) && deadlines[i].deadline <= now && IsFirstLeast(deadlines, i)
    {
      if stopped {
        return Leave;
      }
      if deadlines == [] {
        return Sleep(None);
      }
      var least := 0;
      for i := 1 to |deadlines|
        invariant least < i && IsFirstLeast(deadlines[..i], least)
      {
        if deadlines[i].deadline < deadlines[least].deadline {
          least := i;
        }
      }
      assert deadlines[..|deadlines|] == deadlines;
      FirstLeastIsEarliest(deadlines, least);
      var remaining := deadlines[least].deadline - now;
      if remaining > 0.0 {
        return Sleep(Some(deadlines[least].deadline));
      }
      return Fire(deadlines[least].token);
    }
  }

  // No deadline is earlier, and those before are later.
  predicate IsFirstLeast(entries: seq<Entry>, k: nat) {
    && k < |entries|
    && (forall i :: 0 <= i < |entries| ==> entries[k].deadline <= entries[i].deadline)
    && (forall i :: 0 <= i < k ==> entries[k].deadline < entries[i].deadline)
  }

  lemma {:induction false} FirstLeastIsEarliest(entries: seq<Entry>, k: nat)
    requires IsFirstLeast(entries, k)
    ensures Earliest(entries) == entries[k]
  {
    if k > 0 {
      FirstLeastIsEarliest(entries[1..], k - 1);
    } else if |entries| > 1 {
      assert Earliest(entries[1..]) in entries;
    }
  }

  lemma ArmedTokens(entries: seq<Entry>, token: Token, deadline: real)
    requires UniqueTokens(entries)
    ensures Entry(token, deadline) in Put(entries, token, deadline)
    ensures Tokens(Put(entries, token, deadline)) == Tokens(entries) + {token}
  {
    hide Put, UniqueTokens;
    PutMembers(entries, token, deadline);
    var after := Put(entries, token, deadline);
    assert Entry(token, deadline) in after;
    forall t | t in Tokens(entries) && t != token ensures t in Tokens(after) {
      var entry :| entry in entries && entry.token == t;
      assert entry in after;
    }
  }

  datatype Thread = AtLock | Asleep(until: Option<real>, notified: bool) | Firing(token: Token) | Left

  // `armedAt` is the time of the latest arm of each token that is armed.
  datatype State = State(
    deadlines: seq<Entry>, stopped: bool, now: real, thread: Thread, armedAt: map<Token, real>)

  function Initial(now: real): State {
    State([], false, now, AtLock, map[])
  }

  datatype Event =
    | Arm(token: Token)
    | Disarm(token: Token)
    | Stop
    | Tick(elapsed: real)
    | TakeTurn
    | WakeNotified
    | WakeTimeout

  function Notified(thread: Thread): Thread {
    if thread.Asleep? then thread.(notified := true) else thread
  }

  predicate Enabled(s: State, e: Event) {
    match e
    case Arm(_) => true
    case Disarm(_) => true
    case Stop => true
    case Tick(elapsed) => elapsed >= 0.0
    case TakeTurn => s.thread.AtLock?
    case WakeNotified => s.thread.Asleep? && s.thread.notified
    case WakeTimeout => s.thread.Asleep? && s.thread.until.Some? && s.thread.until.value <= s.now
  }

  function Apply(s: State, e: Event, timeout: real): State {
    match e
    case Arm(token) =>
      s.(deadlines := Put(s.deadlines, token, s.now + timeout), thread := Notified(s.thread),
         armedAt := s.armedAt[token := s.now])
    case Disarm(token) =>
      if token in Tokens(s.deadlines) then
        s.(deadlines := Remove(s.deadlines, token), thread := Notified(s.thread), armedAt := s.armedAt - {token})
      else s
    case Stop => s.(stopped := true, thread := Notified(s.thread))
    case Tick(elapsed) => s.(now := s.now + elapsed)
    case TakeTurn =>
      (match Look(s.deadlines, s.stopped, s.now)
       case Leave => s.(thread := Left)
       case Sleep(until) => s.(thread := Asleep(until, false))
       case Fire(token) => s.(thread := Firing(token)))
    case WakeNotified => s.(thread := AtLock)
    case WakeTimeout => s.(thread := AtLock)
  }

  // The deadline a sleeping thread must wake for.
  function NextDeadline(entries: seq<Entry>): Option<real> {
    if entries == [] then None else Some(Earliest(entries).deadline)
  }

  ghost predicate Invariant(s: State, timeout: real) {
    && UniqueTokens(s.deadlines)
    && s.armedAt.Keys == Tokens(s.deadlines)
    && (forall e :: e in s.deadlines ==> e.deadline == s.armedAt[e.token] + timeout && s.armedAt[e.token] <= s.now)
    && (s.thread.Asleep? && !s.thread.notified ==> !s.stopped && s.thread.until == NextDeadline(s.deadlines))
  }

  lemma ArmKeeps(s: State, token: Token, timeout: real)
    requires Invariant(s, timeout)
    ensures Invariant(Apply(s, Arm(token), timeout), timeout)
  {
    hide Put, UniqueTokens;
    PutMembers(s.deadlines, token, s.now + timeout);
    ArmedTokens(s.deadlines, token, s.now + timeout);
  }

  lemma DisarmKeeps(s: State, token: Token, timeout: real)
    requires Invariant(s, timeout)
    ensures Invariant(Apply(s, Disarm(token), timeout), timeout)
  {
    RemoveMembers(s.deadlines, token);
    var after := Remove(s.deadlines, token);
    forall t | t in Tokens(s.deadlines) && t != token ensures t in Tokens(after) {
      var entry :| entry in s.deadlines && entry.token == t;
      assert entry in after;
    }
    assert Tokens(after) == Tokens(s.deadlines) - {token};
  }

  lemma StepKeeps(s: State, e: Event, timeout: real)
    requires Invariant(s, timeout) && Enabled(s, e)
    ensures Invariant(Apply(s, e, timeout), timeout)
  {
    hide UniqueTokens, Tokens, Put, Remove;
    match e
    case Arm(token) => ArmKeeps(s, token, timeout);
    case Disarm(token) => DisarmKeeps(s, token, timeout);
    case _ =>
  }

  // A run: the events taken and the states between them.
  ghost predicate IsRun(states: seq<State>, events: seq<Event>, timeout: real) {
    && |states| == |events| + 1
    && states[0] == Initial(states[0].now)
    && forall i :: 0 <= i < |events| ==> StepOf(states, events, timeout, i)
  }

  ghost predicate StepOf(states: seq<State>, events: seq<Event>, timeout: real, i: nat)
    requires |states| == |events| + 1 && i < |events|
  {
    Enabled(states[i], events[i]) && states[i + 1] == Apply(states[i], events[i], timeout)
  }

  lemma {:induction false} RunInvariant(states: seq<State>, events: seq<Event>, timeout: real, i: nat)
    requires IsRun(states, events, timeout) && i < |states|
    ensures Invariant(states[i], timeout)
  {
    if i > 0 {
      RunInvariant(states, events, timeout, i - 1);
      assert StepOf(states, events, timeout, i - 1);
      StepKeeps(states[i - 1], events[i - 1], timeout);
    }
  }

  // No lost wakeup: a sleeping thread that has not been notified sleeps exactly until the earliest
  // armed deadline, or forever when nothing is armed; a stop never leaves it asleep un-notified.
  lemma SleepsUntilEarliest(states: seq<State>, events: seq<Event>, timeout: real, i: nat)
    requires IsRun(states, events, timeout) && i < |states|
    requires states[i].thread.Asleep? && !states[i].thread.notified
    ensures !states[i].stopped
    ensures states[i].thread.until.None? <==> states[i].deadlines == []
    ensures states[i].thread.until.Some? ==>
              && (exists e :: e in states[i].deadlines && e.deadline == states[i].thread.until.value)
              && forall e :: e in states[i].deadlines ==> states[i].thread.until.value <= e.deadline
  {
    RunInvariant(states, events, timeout, i);
    if states[i].deadlines != [] {
      assert Earliest(states[i].deadlines) in states[i].deadlines;
    }
  }

  // An armed token's recorded arm is its latest in the run, with no disarm since.
  lemma {:induction false} ArmIsLatest(states: seq<State>, events: seq<Event>, timeout: real, i: nat, token: Token)
    returns (j: nat)
    requires IsRun(states, events, timeout) && i < |states| && token in states[i].armedAt
    ensures j < i && events[j] == Arm(token) && states[j].now == states[i].armedAt[token]
    ensures forall k :: j < k < i ==> events[k] != Arm(token) && events[k] != Disarm(token)
  {
    assert i > 0;
    assert StepOf(states, events, timeout, i - 1);
    if events[i - 1] == Arm(token) {
      j := i - 1;
    } else {
      RunInvariant(states, events, timeout, i - 1);
      j := ArmIsLatest(states, events, timeout, i - 1, token);
    }
  }

  // The watchdog fires only for a token that was armed, at its latest arm at least the timeout ago,
  // and neither re-armed nor disarmed up to the decision; it is never the decision after a stop.
  lemma FiresOnlyOverdue(states: seq<State>, events: seq<Event>, timeout: real, i: nat)
    returns (j: nat)
    requires IsRun(states, events, timeout) && i < |events|
    requires events[i].TakeTurn? && states[i + 1].thread.Firing?
    ensures var token := states[i + 1].thread.token;
            && j < i && events[j] == Arm(token) && states[i].now >= states[j].now + timeout
            && (forall k :: j < k < i ==> events[k] != Arm(token) && events[k] != Disarm(token))
            && !states[i].stopped
  {
    assert StepOf(states, events, timeout, i);
    RunInvariant(states, events, timeout, i);
    var e := Earliest(states[i].deadlines);
    assert e.token in Tokens(states[i].deadlines);
    j := ArmIsLatest(states, events, timeout, i, e.token);
  }

  // Conversely an overdue armed token is not slept through: the thread can wake, and its next turn fires.
  lemma OverdueIsNotMissed(states: seq<State>, events: seq<Event>, timeout: real, i: nat, token: Token)
    requires IsRun(states, events, timeout) && i < |states| && !states[i].stopped
    requires token in states[i].armedAt && states[i].armedAt[token] + timeout <= states[i].now
    ensures states[i].thread.Asleep? ==> Enabled(states[i], WakeNotified) || Enabled(states[i], WakeTimeout)
    ensures states[i].thread.AtLock? ==> Apply(states[i], TakeTurn, timeout).thread.Firing?
  {
    RunInvariant(states, events, timeout, i);
    OverdueWakes(states[i], timeout, token);
  }

  lemma OverdueWakes(s: State, timeout: real, token: Token)
    requires Invariant(s, timeout) && !s.stopped
    requires token in s.armedAt && s.armedAt[token] + timeout <= s.now
    ensures s.thread.Asleep? ==> Enabled(s, WakeNotified) || Enabled(s, WakeTimeout)
    ensures s.thread.AtLock? ==> Apply(s, TakeTurn, timeout).thread.Firing?
  {
    hide UniqueTokens;
    assert token in Tokens(s.deadlines);
    var entry :| entry in s.deadlines && entry.token == token;
    assert Earliest(s.deadlines).deadline <= entry.deadline;
  }
}
