/**
 The child's control channel: stop callbacks registered by any number of threads while
 one reader thread waits for a matching STOP.
 */
module StopControl {
  import opened Wrappers

  datatype Spec = Spec(binding: string, revision: int, nonce: string)

  // A received message; absent keys are None.
  datatype Message =
    | NotDictionary
    | Dictionary(command: Option<string>, binding: Option<string>, revision: Option<int>, nonce: Option<string>)

  predicate IsMatchingStop(m: Message, spec: Spec) {
    && m.Dictionary?
    && m.command == Some("STOP")
    && m.binding == Some(spec.binding) && m.revision == Some(spec.revision) && m.nonce == Some(spec.nonce)
  }

  // One registration of a callback; the same callback registered twice has two identifiers.
  type Registration = nat

  // What the callback lock protects, and the two locked sections as functions of it.
  datatype Shared = Shared(stopRequested: bool, callbacks: seq<Registration>)

  function AfterAdd(shared: Shared, callback: Registration): Shared {
    if shared.stopRequested then shared else shared.(callbacks := shared.callbacks + [callback])
  }

  function AfterTake(shared: Shared): Shared {
    if shared.stopRequested then shared else Shared(true, [])
  }

  // The object. `AddUnderLock` and `TakeUnderLock` are its two sections under the callback lock.
  class ChildControl {
    const spec: Spec
    var stopRequested: bool
    var callbacks: seq<Registration>

    constructor (spec: Spec)
      ensures this.spec == spec && View() == Shared(false, [])
    {
      this.spec := spec;
      stopRequested, callbacks := false, [];
    }

    ghost function View(): Shared
      reads this
    {
      Shared(stopRequested, callbacks)
    }

    method AddUnderLock(callback: Registration) returns (listed: bool)
      modifies this`callbacks
      ensures listed == !stopRequested
      ensures View() == AfterAdd(old(View()), callback)
    {
      listed := !stopRequested;
      if listed {
        callbacks := callbacks + [callback];
      }
    }

    method TakeUnderLock() returns (taken: Option<seq<Registration>>)
      modifies this
      ensures taken == if old(stopRequested) then None else Some(old(callbacks))
      ensures View() == AfterTake(old(View()))
    {
      if stopRequested {
        return None;
      }
      stopRequested := true;
      taken := Some(callbacks);
      callbacks := [];
    }

    // The reader's loop over a connection that delivers `inbox`; it ends at the first matching STOP.
    method ReadCommands(inbox: seq<Message>) returns (taken: Option<seq<Registration>>, consumed: nat)
      modifies this
      ensures consumed <= |inbox|
      ensures consumed < |inbox| <==> exists i :: 0 <= i < |inbox| && IsMatchingStop(inbox[i], spec)
      ensures forall i :: 0 <= i < consumed ==> !IsMatchingStop(inbox[i], spec)
      ensures consumed < |inbox| ==> IsMatchingStop(inbox[consumed], spec) && View() == AfterTake(old(View()))
      ensures consumed < |inbox| ==>
                && inbox[consumed].Dictionary? && inbox[consumed].command == Some("STOP")
                && inbox[consumed].binding == Some(spec.binding) && inbox[consumed].revision == Some(spec.revision)
                && inbox[consumed].nonce == Some(spec.nonce)
      ensures forall i :: 0 <= i < consumed && inbox[i].Dictionary? && inbox[i].command == Some("STOP") ==>
                || inbox[i].binding != Some(spec.binding)
                || inbox[i].revision != Some(spec.revision)
                || inbox[i].nonce != Some(spec.nonce)
      ensures consumed < |inbox| ==> taken == if old(stopRequested) then None else Some(old(callbacks))
      ensures consumed == |inbox| ==> taken.None? && View() == old(View())
    {
      taken, consumed := None, 0;
      while consumed < |inbox|
        invariant consumed <= |inbox| && taken.None?
        invariant View() == old(View())
        invariant forall i :: 0 <= i < consumed ==> !IsMatchingStop(inbox[i], spec)
      {
        if IsMatchingStop(inbox[consumed], spec) {
          taken := TakeUnderLock();
          return;
        }
        consumed := consumed + 1;
      }
    }
  }

  datatype Reader = Receiving | Invoking(pending: seq<Registration>) | Gone

  // Where a registering thread stands: before the lock, listed, past the lock with the stop seen, or done calling.
  datatype Registering = Arriving | Listed | Late | Finished

  datatype State = State(
    shared: Shared, reader: Reader, registering: map<Registration, Registering>, invoked: seq<Registration>,
    exited: bool)  // the process ended because the parent is gone

  const INITIAL := State(Shared(false, []), Receiving, map[], [], false)

  datatype Event =
    | Arrive(id: Registration)
    | Add(id: Registration)
    | CallLate(id: Registration)
    | Receive(message: Message)
    | InvokeNext
    | ReaderReturns
    | ParentGone

  predicate Enabled(s: State, e: Event) {
    !s.exited &&
    match e
    case Arrive(id) => id !in s.registering
    case Add(id) => id in s.registering && s.registering[id].Arriving?
    case CallLate(id) => id in s.registering && s.registering[id].Late?
    case Receive(_) => s.reader.Receiving?
    case InvokeNext => s.reader.Invoking? && s.reader.pending != []
    case ReaderReturns => s.reader.Invoking? && s.reader.pending == []
    case ParentGone => s.reader.Receiving?
  }

  function Apply(s: State, e: Event, spec: Spec): State
    requires Enabled(s, e)
  {
    match e
    case Arrive(id) => s.(registering := s.registering[id := Arriving])
    case Add(id) =>
      var registering := s.registering[id := if s.shared.stopRequested then Late else Listed];
      s.(shared := AfterAdd(s.shared, id), registering := registering)
    case CallLate(id) =>
      // The flag is read again outside the lock.
      var invoked := if s.shared.stopRequested then s.invoked + [id] else s.invoked;
      s.(invoked := invoked, registering := s.registering[id := Finished])
    case Receive(message) =>
      if !IsMatchingStop(message, spec) then s
      else
        var reader := if s.shared.stopRequested then Gone else Invoking(s.shared.callbacks);
        s.(shared := AfterTake(s.shared), reader := reader)
    case InvokeNext => s.(invoked := s.invoked + [s.reader.pending[0]], reader := Invoking(s.reader.pending[1..]))
    case ReaderReturns => s.(reader := Gone)
    case ParentGone => s.(exited := true)
  }

  function Pending(reader: Reader): seq<Registration> {
    if reader.Invoking? then reader.pending else []
  }

  function Occurrences(s: seq<Registration>, id: Registration): nat {
    if s == [] then 0 else Occurrences(s[..|s| - 1], id) + if s[|s| - 1] == id then 1 else 0
  }

  // How often a registration is listed, pending, about to be called late, or invoked.
  function Places(s: State, id: Registration): nat {
    Occurrences(s.shared.callbacks, id) + Occurrences(Pending(s.reader), id) + Occurrences(s.invoked, id)
    + if id in s.registering && s.registering[id].Late? then 1 else 0
  }

  // Past the lock a registration is in exactly one place; before it, in none.
  predicate PlacedOnce(s: State, id: Registration) {
    Places(s, id) == if id in s.registering && !s.registering[id].Arriving? then 1 else 0
  }

  // Nothing is late, finished or invoked before the stop, and nothing stays listed after it.
  predicate StopOrder(s: State) {
    && (s.reader.Receiving? <==> !s.shared.stopRequested)
    && (!s.shared.stopRequested ==> s.invoked == [])
    && (s.shared.stopRequested ==> s.shared.callbacks == [])
    && (forall id :: id in s.registering && !s.shared.stopRequested ==>
          s.registering[id].Arriving? || s.registering[id].Listed?)
  }

  ghost predicate Invariant(s: State) {
    StopOrder(s) && forall id: Registration :: PlacedOnce(s, id)
  }

  lemma PushCounts(s: seq<Registration>, x: Registration, id: Registration)
    ensures Occurrences(s + [x], id) == Occurrences(s, id) + if id == x then 1 else 0
  {
    assert (s + [x])[..|s|] == s;
  }

  lemma {:induction false} PopCounts(s: seq<Registration>, id: Registration)
    requires s != []
    ensures Occurrences(s, id) == Occurrences(s[1..], id) + if id == s[0] then 1 else 0
  {
    if |s| > 1 {
      PopCounts(s[..|s| - 1], id);
      assert s[1..][..|s| - 2] == s[..|s| - 1][1..];
    }
  }

  lemma NoOccurrence(id: Registration)
    ensures Occurrences([], id) == 0
  {
  }

  lemma StepPlaces(s: State, e: Event, spec: Spec, id: Registration)
    requires StopOrder(s) && PlacedOnce(s, id) && Enabled(s, e)
    ensures PlacedOnce(Apply(s, e, spec), id)
  {
    hide Occurrences, IsMatchingStop;
    NoOccurrence(id);
    match e
    case Add(added) => PushCounts(s.shared.callbacks, added, id);
    case CallLate(late) => PushCounts(s.invoked, late, id);
    case InvokeNext =>
      PushCounts(s.invoked, s.reader.pending[0], id);
      PopCounts(s.reader.pending, id);
    case _ =>
  }

  lemma StepKeeps(s: State, e: Event, spec: Spec)
    requires Invariant(s) && Enabled(s, e)
    ensures Invariant(Apply(s, e, spec))
  {
    forall id: Registration ensures PlacedOnce(Apply(s, e, spec), id) {
      StepPlaces(s, e, spec, id);
    }
  }

  ghost predicate IsRun(states: seq<State>, events: seq<Event>, spec: Spec) {
    && |states| == |events| + 1 && states[0] == INITIAL
    && forall i :: 0 <= i < |events| ==> StepOf(states, events, spec, i)
  }

  ghost predicate StepOf(states: seq<State>, events: seq<Event>, spec: Spec, i: nat)
    requires |states| == |events| + 1 && i < |events|
  {
    Enabled(states[i], events[i]) && states[i + 1] == Apply(states[i], events[i], spec)
  }

  lemma {:induction false} RunInvariant(states: seq<State>, events: seq<Event>, spec: Spec, i: nat)
    requires IsRun(states, events, spec) && i < |states|
    ensures Invariant(states[i])
  {
    if i > 0 {
      RunInvariant(states, events, spec, i - 1);
      assert StepOf(states, events, spec, i - 1);
      StepKeeps(states[i - 1], events[i - 1], spec);
    }
  }

  // At every moment of every run a registration past the lock is listed, pending, late or invoked,
  // in exactly one of these and once; nothing is invoked before the stop.
  lemma ExactlyOnePlace(states: seq<State>, events: seq<Event>, spec: Spec, i: nat, id: Registration)
    requires IsRun(states, events, spec) && i < |states| && id in states[i].registering
    ensures Places(states[i], id) == if states[i].registering[id].Arriving? then 0 else 1
    ensures !states[i].shared.stopRequested ==> states[i].invoked == []
  {
    RunInvariant(states, events, spec, i);
    assert PlacedOnce(states[i], id);
  }

  // Once the reader has left after the stop and the registering thread has returned, the callback was
  // invoked exactly once.
  lemma InvokedExactlyOnce(states: seq<State>, events: seq<Event>, spec: Spec, i: nat, id: Registration)
    requires IsRun(states, events, spec) && i < |states| && id in states[i].registering
    requires states[i].reader.Gone? && (states[i].registering[id].Listed? || states[i].registering[id].Finished?)
    ensures Occurrences(states[i].invoked, id) == 1
  {
    RunInvariant(states, events, spec, i);
    assert PlacedOnce(states[i], id);
  }

  // A matching STOP takes effect: from then on the stop is requested, and the callbacks listed up to it
  // are the ones to invoke.
  lemma StopTakesEffect(states: seq<State>, events: seq<Event>, spec: Spec, i: nat)
    requires IsRun(states, events, spec) && i < |events|
    requires events[i] == Receive(Dictionary(Some("STOP"), Some(spec.binding), Some(spec.revision), Some(spec.nonce)))
    ensures states[i + 1].shared == Shared(true, []) && states[i + 1].reader == Invoking(states[i].shared.callbacks)
  {
    assert StepOf(states, events, spec, i);
    RunInvariant(states, events, spec, i);
  }

  // No interleaving gets stuck: while a registration or the reader has something to do, some step other
  // than a new registration is possible, unless the process has exited.
  lemma NothingGetsStuck(s: State, id: Registration)
    requires !s.exited
    requires (id in s.registering && (s.registering[id].Arriving? || s.registering[id].Late?)) || s.reader.Invoking?
    ensures Enabled(s, Add(id)) || Enabled(s, CallLate(id)) || Enabled(s, InvokeNext) || Enabled(s, ReaderReturns)
  {
  }

  // The stop that precedes an invocation was a matching one.
  lemma {:induction false} StopWasMatching(states: seq<State>, events: seq<Event>, spec: Spec, i: nat) returns (j: nat)
    requires IsRun(states, events, spec) && i < |states| && states[i].shared.stopRequested
    ensures j < i && events[j].Receive? && !states[j].shared.stopRequested
    ensures events[j].message == Dictionary(Some("STOP"), Some(spec.binding), Some(spec.revision), Some(spec.nonce))
  {
    assert i > 0;
    assert StepOf(states, events, spec, i - 1);
    if states[i - 1].shared.stopRequested {
      j := StopWasMatching(states, events, spec, i - 1);
    } else {
      j := i - 1;
    }
  }
}
