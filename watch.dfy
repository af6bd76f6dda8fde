/**
 The watch loop: consumes the resource's event stream until some observed
 state matches the filter (src/main.rs:136-178). The live, reconnecting
 stream is modelled as the finite sequence of events it delivers.
 */
module Watch {
  import opened Results
  import opened StateFilter

  /** One item delivered by the watcher stream. */
  datatype Event =
    | Applied(state: Value)         // the resource was created or changed
    | Deleted(obj: Value)           // the resource was deleted
    | Restarted(states: seq<Value>) // the stream resynchronised; a full snapshot set
    | StreamError                   // a transient error; the stream reconnects itself

  /** Why the watch loop failed. */
  datatype WatchError = StreamEnded

  /** The states an event offers to the matcher, in the order it checks them. */
  function Offered(e: Event): seq<Value> {
    match e
    case Applied(state) => [state]
    case Deleted(_) => []
    case Restarted(states) => states
    case StreamError => []
  }

  /** Every state the events offer, in stream order. */
  function AllOffered(events: seq<Event>): seq<Value> {
    if events == [] then [] else Offered(events[0]) + AllOffered(events[1..])
  }

  /** The position of the first state that matches the filter, if any. */
  function FirstMatch(filter: Value, states: seq<Value>): (r: Option<nat>)
    ensures r.Some? ==> r.value < |states| && Matches(filter, states[r.value])
    ensures r.Some? ==> forall j :: 0 <= j < r.value ==> !Matches(filter, states[j])
    ensures r.None? ==> forall j :: 0 <= j < |states| ==> !Matches(filter, states[j])
  {
    if states == [] then None
    else if Matches(filter, states[0]) then Some(0)
    else
      match FirstMatch(filter, states[1..])
      case None => None
      case Some(k) => Some(k + 1)
  }

  /** The outcome of watching `events`, one event at a time: the first event
      that offers a matching state ends the watch with the first such state;
      when the events run out the watch fails. */
  function WatchOutcome(filter: Value, events: seq<Event>): (r: Result<Value, WatchError>)
    ensures r.Ok? ==> Matches(filter, r.value)
  {
    if events == [] then Err(StreamEnded)
    else
      var offered := Offered(events[0]);
      match FirstMatch(filter, offered)
      case Some(i) => Ok(offered[i])
      case None => WatchOutcome(filter, events[1..])
  }

  /** The state a list of snapshots yields is pinned down by being a match
      preceded by none. */
  lemma FirstMatchIsUnique(filter: Value, states: seq<Value>, i: nat)
    requires i < |states| && Matches(filter, states[i])
    requires forall j :: 0 <= j < i ==> !Matches(filter, states[j])
    ensures FirstMatch(filter, states) == Some(i)
  {
  }

  /** The first match in `a + b` is the first match in `a`, or else the
      first match in `b` shifted past `a`. */
  lemma FirstMatchAppend(filter: Value, a: seq<Value>, b: seq<Value>)
    ensures FirstMatch(filter, a + b) ==
      match FirstMatch(filter, a)
      case Some(i) => Some(i)
      case None =>
        match FirstMatch(filter, b)
        case Some(k) => Some(|a| + k)
        case None => None
  {
    var ab := a + b;
    match FirstMatch(filter, a)
    case Some(i) =>
      FirstMatchIsUnique(filter, ab, i);
    case None =>
      match FirstMatch(filter, b)
      case Some(k) =>
        assert ab[|a| + k] == b[k];
        forall j | 0 <= j < |a| + k
          ensures !Matches(filter, ab[j])
        {
          if j >= |a| {
            assert ab[j] == b[j - |a|];
          }
        }
        FirstMatchIsUnique(filter, ab, |a| + k);
      case None =>
        forall j | 0 <= j < |ab|
          ensures !Matches(filter, ab[j])
        {
          if j >= |a| {
            assert ab[j] == b[j - |a|];
          }
        }
  }

  /** Watching event by event yields the first matching state of the whole
      stream of offered states: matching is first-in-stream-order, across
      and within events. */
  lemma {:induction false} WatchOutcomeIsFirstMatchOfStream(filter: Value, events: seq<Event>)
    ensures WatchOutcome(filter, events) ==
      match FirstMatch(filter, AllOffered(events))
      case Some(i) => Ok(AllOffered(events)[i])
      case None => Err(StreamEnded)
  {
    if events != [] {
      var offered := Offered(events[0]);
      WatchOutcomeIsFirstMatchOfStream(filter, events[1..]);
      FirstMatchAppend(filter, offered, AllOffered(events[1..]));
      match FirstMatch(filter, offered)
      case Some(i) =>
      case None =>
        match FirstMatch(filter, AllOffered(events[1..]))
        case Some(k) =>
          assert AllOffered(events)[|offered| + k] == AllOffered(events[1..])[k];
        case None =>
    }
  }

  /** Once a prefix of the stream has produced a match, later events cannot
      change the outcome; otherwise the outcome is decided by what follows. */
  lemma {:induction false} WatchOutcomeAppend(filter: Value, a: seq<Event>, b: seq<Event>)
    ensures WatchOutcome(filter, a + b) ==
      if WatchOutcome(filter, a).Ok? then WatchOutcome(filter, a) else WatchOutcome(filter, b)
  {
    if a == [] {
      assert a + b == b;
    } else {
      assert (a + b)[0] == a[0];
      assert (a + b)[1..] == a[1..] + b;
      WatchOutcomeAppend(filter, a[1..], b);
    }
  }

  /** Deletions and transient stream errors never end the watch: the loop
      moves on to the next event. */
  lemma DeletedAndErrorsAreSkipped(filter: Value, obj: Value, events: seq<Event>)
    ensures WatchOutcome(filter, [Deleted(obj)] + events) == WatchOutcome(filter, events)
    ensures WatchOutcome(filter, [StreamError] + events) == WatchOutcome(filter, events)
  {
    assert ([Deleted(obj)] + events)[1..] == events;
    assert ([StreamError] + events)[1..] == events;
  }

  /** A matching applied state ends the watch with that state; a
      non-matching one is passed over. */
  lemma AppliedStateDecides(filter: Value, state: Value, events: seq<Event>)
    ensures Matches(filter, state) ==> WatchOutcome(filter, [Applied(state)] + events) == Ok(state)
    ensures !Matches(filter, state) ==> WatchOutcome(filter, [Applied(state)] + events) == WatchOutcome(filter, events)
  {
    assert ([Applied(state)] + events)[0] == Applied(state);
    assert ([Applied(state)] + events)[1..] == events;
  }

  /** In a resynchronisation the first matching snapshot wins, whatever
      follows it. */
  lemma RestartedFirstSnapshotWins(filter: Value, states: seq<Value>, i: nat, events: seq<Event>)
    requires i < |states| && Matches(filter, states[i])
    requires forall j :: 0 <= j < i ==> !Matches(filter, states[j])
    ensures WatchOutcome(filter, [Restarted(states)] + events) == Ok(states[i])
  {
    assert ([Restarted(states)] + events)[0] == Restarted(states);
    FirstMatchIsUnique(filter, states, i);
  }

  /** One step of the loop over an event that offers no matching state: the
      consumed prefix still has no match, and the outcome is decided by the
      events after it. */
  lemma StepPastEvent(filter: Value, events: seq<Event>, pos: nat)
    requires pos < |events|
    requires WatchOutcome(filter, events[..pos]) == Err(StreamEnded)
    requires FirstMatch(filter, Offered(events[pos])) == None
    ensures WatchOutcome(filter, events[..pos + 1]) == Err(StreamEnded)
    ensures WatchOutcome(filter, events[pos..]) == WatchOutcome(filter, events[pos + 1..])
  {
    assert events[..pos + 1] == events[..pos] + [events[pos]];
    assert events[pos..][1..] == events[pos + 1..];
    WatchOutcomeAppend(filter, events[..pos], [events[pos]]);
  }

  /** One step of the loop over an event whose `i`-th offered state is its
      first match: both the whole remaining stream and the consumed prefix
      yield that state. */
  lemma StepOntoMatch(filter: Value, events: seq<Event>, pos: nat, i: nat)
    requires pos < |events|
    requires WatchOutcome(filter, events[..pos]) == Err(StreamEnded)
    requires FirstMatch(filter, Offered(events[pos])) == Some(i)
    ensures WatchOutcome(filter, events[pos..]) == Ok(Offered(events[pos])[i])
    ensures WatchOutcome(filter, events[..pos + 1]) == Ok(Offered(events[pos])[i])
  {
    assert events[..pos + 1] == events[..pos] + [events[pos]];
    assert events[pos..][0] == events[pos];
    WatchOutcomeAppend(filter, events[..pos], [events[pos]]);
  }

  /** The `for` loop over a resynchronisation's snapshots: check them in
      order and stop at the first that matches. */
  method FirstMatchingSnapshot(filter: Value, states: seq<Value>) returns (found: Option<nat>)
    ensures found == FirstMatch(filter, states)
  {
    for i := 0 to |states|
      invariant forall j :: 0 <= j < i ==> !Matches(filter, states[j])
    {
      var ok := MatchState(filter, states[i]);
      if ok {
        FirstMatchIsUnique(filter, states, i);
        return Some(i);
      }
    }
    return None;
  }

  /** `watch_for_condition_met`: pull events until one offers a matching
      state and return that state, or fail once the stream is exhausted.
      `consumed` is how many events were pulled from the stream. */
  method WatchForConditionMet(filter: Value, events: seq<Event>)
    returns (r: Result<Value, WatchError>, consumed: nat)
    ensures r == WatchOutcome(filter, events)
    ensures r.Ok? ==> Matches(filter, r.value)
    ensures r.Err? ==> consumed == |events|
    ensures r.Ok? ==> 0 < consumed <= |events|
    ensures r.Ok? ==> WatchOutcome(filter, events[..consumed - 1]) == Err(StreamEnded)
    ensures r.Ok? ==> WatchOutcome(filter, events[..consumed]) == r
  {
    var pos := 0;
    while pos < |events|
      invariant pos <= |events|
      invariant WatchOutcome(filter, events[..pos]) == Err(StreamEnded)
      invariant WatchOutcome(filter, events) == WatchOutcome(filter, events[pos..])
    {
      var item := events[pos];
      match item {
        case Applied(state) =>
          var ok := MatchState(filter, state);
          if ok {
            StepOntoMatch(filter, events, pos, 0);
            return Ok(state), pos + 1;
          }
          assert FirstMatch(filter, Offered(item)) == None;
        case Deleted(_) =>
          assert Offered(item) == [];
        case Restarted(states) =>
          var found := FirstMatchingSnapshot(filter, states);
          if found.Some? {
            StepOntoMatch(filter, events, pos, found.value);
            return Ok(states[found.value]), pos + 1;
          }
        case StreamError =>
          // The error is logged and the stream reconnects with backoff.
          assert Offered(item) == [];
      }
      StepPastEvent(filter, events, pos);
      pos := pos + 1;
    }
    assert events[pos..] == [];
    return Err(StreamEnded), pos;
  }
}
