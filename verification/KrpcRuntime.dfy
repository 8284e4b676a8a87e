/** Pending requests: the map that is updated under a lock, and the interleavings of calls and of
    the receiver around it. Transaction ids are chosen at random and may collide. */
module KrpcRuntime {
  import opened Bencode
  import opened KrpcMessages
  import opened Options

  // A channel of capacity 1; every call makes one, so calls and channels share their numbers.
  type Channel = nat

  type Pending = map<Bytes, Channel>

  // The two changes of the map, by the object's methods and by the steps of the interleaved system.

  function Enqueued(pending: Pending, id: Bytes, ch: Channel): Pending {
    pending[id := ch]
  }

  function Without(pending: Pending, id: Bytes): Pending {
    pending - {id}
  }

  /** The map of pending requests as the program's object; each method is one locked section. */
  class Runtime {
    var pendingRequests: Pending
    var channelsMade: nat

    constructor ()
      ensures pendingRequests == map[] && channelsMade == 0
    {
      pendingRequests := map[];
      channelsMade := 0;
    }

    method EnqueuePendingRequest(generatedId: Bytes) returns (ch: Channel, transactionId: Bytes)
      modifies this
      ensures ch == old(channelsMade) && channelsMade == old(channelsMade) + 1 && transactionId == generatedId
      ensures pendingRequests == Enqueued(old(pendingRequests), generatedId, ch)
    {
      ch := channelsMade;
      channelsMade := channelsMade + 1;
      transactionId := generatedId;
      pendingRequests := pendingRequests[transactionId := ch];
    }

    method CancelPendingRequest(id: Bytes)
      modifies this`pendingRequests
      ensures pendingRequests == Without(old(pendingRequests), id)
    {
      pendingRequests := pendingRequests - {id};
    }

    method DequeuePendingRequest(id: Bytes) returns (ch: Option<Channel>)
      modifies this`pendingRequests
      ensures ch == if id in old(pendingRequests) then Some(old(pendingRequests)[id]) else None
      ensures pendingRequests == Without(old(pendingRequests), id)
    {
      ch := if id in pendingRequests then Some(pendingRequests[id]) else None;
      pendingRequests := pendingRequests - {id};
    }
  }

  // ------------------------------------------------------------------ the interleaved system

  /** How a call returned: with a message, or with the error of a timeout or of a failed send. */
  datatype CallResult = Answer(message: KrpcMessage) | TimeoutError | SendError

  /** A call is sending, waits in its select, has seen the timeout but not yet cancelled, or has returned. */
  datatype Phase = Sending | Waiting | TimedOut | Returned(result: CallResult)

  /** A call with the contents of its channel and the number of sends to it so far. */
  datatype Call = Call(id: Bytes, phase: Phase, buffer: seq<KrpcMessage>, sends: nat)

  /** `inHand` is the channel and the message of a receiver between dequeuing and delivering. */
  datatype State = State(calls: seq<Call>, pending: Pending, inHand: Option<(Channel, KrpcMessage)>)

  const CHANNEL_CAPACITY: nat := 1

  datatype Step =
    | Enqueue(id: Bytes)
    | Sent(c: Channel)
    | SendFailed(c: Channel)
    | Dequeue(m: KrpcMessage)
    | Deliver
    | Receive(c: Channel)
    | TimeOut(c: Channel)
    | Cancel(c: Channel)

  function Initial(): State {
    State([], map[], None)
  }

  predicate InPhase(s: State, c: Channel, phase: Phase) {
    c < |s.calls| && s.calls[c].phase == phase
  }

  predicate Enabled(s: State, step: Step) {
    match step
    case Enqueue(_) => true
    case Sent(c) => InPhase(s, c, Sending)
    case SendFailed(c) => InPhase(s, c, Sending)
    case Dequeue(m) => s.inHand.None? && !m.Query?
    case Deliver => s.inHand.Some? && s.inHand.value.0 < |s.calls| && |s.calls[s.inHand.value.0].buffer| < CHANNEL_CAPACITY
    case Receive(c) => InPhase(s, c, Waiting) && s.calls[c].buffer != []
    case TimeOut(c) => InPhase(s, c, Waiting)
    case Cancel(c) => InPhase(s, c, TimedOut)
  }

  function WithCall(s: State, c: Channel, call: Call): State
    requires c < |s.calls|
  {
    s.(calls := s.calls[c := call])
  }

  function Next(s: State, step: Step): State
    requires Enabled(s, step)
  {
    match step
    case Enqueue(id) => s.(calls := s.calls + [Call(id, Sending, [], 0)], pending := Enqueued(s.pending, id, |s.calls|))
    case Sent(c) => WithCall(s, c, s.calls[c].(phase := Waiting))
    case SendFailed(c) => WithCall(s, c, s.calls[c].(phase := Returned(SendError)))
    case Dequeue(m) =>
      if m.transactionId in s.pending
      then s.(pending := Without(s.pending, m.transactionId), inHand := Some((s.pending[m.transactionId], m)))
      else s
    case Deliver =>
      var (c, m) := s.inHand.value;
      WithCall(s, c, s.calls[c].(buffer := s.calls[c].buffer + [m], sends := s.calls[c].sends + 1)).(inHand := None)
    case Receive(c) =>
      WithCall(s, c, s.calls[c].(phase := Returned(Answer(s.calls[c].buffer[0])), buffer := s.calls[c].buffer[1..]))
    case TimeOut(c) => WithCall(s, c, s.calls[c].(phase := TimedOut))
    case Cancel(c) => WithCall(s, c, s.calls[c].(phase := Returned(TimeoutError))).(pending := Without(s.pending, s.calls[c].id))
  }

  // ------------------------------------------------------------------ what holds however ids collide

  predicate Listed(s: State, c: Channel) {
    c < |s.calls| && s.calls[c].id in s.pending && s.pending[s.calls[c].id] == c
  }

  predicate Held(s: State, c: Channel) {
    s.inHand.Some? && s.inHand.value.0 == c
  }

  function Answers(call: Call): nat {
    |call.buffer| + if call.phase.Returned? && call.phase.result.Answer? then 1 else 0
  }

  /** A channel is in the map, or in the receiver's hand, or was sent to: at most one of these, and
      at most once. Whatever reaches a call carries the call's id and is not a query. A call that
      returned with a timeout has left the map. */
  ghost predicate CallInvariant(s: State, c: Channel)
    requires c < |s.calls|
  {
    var call := s.calls[c];
    && call.sends + (if Listed(s, c) then 1 else 0) + (if Held(s, c) then 1 else 0) <= 1
    && Answers(call) == call.sends
    && (forall m :: m in call.buffer ==> m.transactionId == call.id && !m.Query?)
    && (call.phase.Returned? && call.phase.result.Answer? ==>
          call.phase.result.message.transactionId == call.id && !call.phase.result.message.Query?)
    && (call.phase == Returned(TimeoutError) ==> !Listed(s, c))
  }

  predicate Carried(s: State, c: Channel, m: KrpcMessage) {
    c < |s.calls| && m.transactionId == s.calls[c].id && !m.Query?
  }

  /** Every entry of the map is the channel of a call with that id. */
  ghost predicate MapInvariant(s: State) {
    forall id :: id in s.pending ==> s.pending[id] < |s.calls| && s.calls[s.pending[id]].id == id
  }

  ghost predicate HandInvariant(s: State) {
    s.inHand.Some? ==> Carried(s, s.inHand.value.0, s.inHand.value.1)
  }

  ghost predicate Invariant(s: State) {
    MapInvariant(s) && HandInvariant(s) && forall c :: 0 <= c < |s.calls| ==> CallInvariant(s, c)
  }

  /** Only an enqueuing call adds a call. */
  lemma NextCalls(s: State, step: Step)
    requires Enabled(s, step)
    ensures |Next(s, step).calls| == |s.calls| + if step.Enqueue? then 1 else 0
  {
  }

  lemma NextKeepsMap(s: State, step: Step)
    requires MapInvariant(s) && Enabled(s, step)
    ensures MapInvariant(Next(s, step))
  {
  }

  lemma NextKeepsHand(s: State, step: Step)
    requires MapInvariant(s) && HandInvariant(s) && Enabled(s, step)
    ensures HandInvariant(Next(s, step))
  {
  }

  /** A new call's channel is listed, and nothing else. */
  lemma EnqueueKeepsCall(s: State, id: Bytes, c: Channel)
    requires Invariant(s) && c <= |s.calls|
    ensures CallInvariant(Next(s, Enqueue(id)), c)
  {
    if c < |s.calls| { assert CallInvariant(s, c); }
  }

  lemma NextKeepsCall(s: State, step: Step, c: Channel)
    requires MapInvariant(s) && HandInvariant(s) && Enabled(s, step) && !step.Enqueue?
    requires c < |s.calls| && CallInvariant(s, c)
    ensures |Next(s, step).calls| == |s.calls| && CallInvariant(Next(s, step), c)
  {
  }

  lemma NextKeepsInvariant(s: State, step: Step)
    requires Invariant(s) && Enabled(s, step)
    ensures Invariant(Next(s, step))
  {
    hide MapInvariant, HandInvariant, CallInvariant, Enabled, Next;
    var s' := Next(s, step);
    NextCalls(s, step);
    NextKeepsMap(s, step);
    NextKeepsHand(s, step);
    forall c | 0 <= c < |s'.calls| ensures CallInvariant(s', c) {
      if step.Enqueue? {
        EnqueueKeepsCall(s, step.id, c);
      } else {
        NextKeepsCall(s, step, c);
      }
    }
  }

  /** The receiver is never blocked by a full channel: the channel it holds has never been sent to. */
  lemma DeliveryNeverBlocks(s: State)
    requires Invariant(s) && s.inHand.Some?
    ensures Enabled(s, Deliver) && s.calls[s.inHand.value.0].sends == 0
  {
    assert CallInvariant(s, s.inHand.value.0);
  }

  // ------------------------------------------------------------------ what distinct ids add

  predicate Active(s: State, c: Channel) {
    c < |s.calls| && !s.calls[c].phase.Returned?
  }

  /** No two calls that have not returned share an id. */
  ghost predicate DistinctActiveIds(s: State) {
    forall c: Channel, d: Channel :: Active(s, c) && Active(s, d) && s.calls[c].id == s.calls[d].id ==> c == d
  }

  /** The call's answer is still on its way: its channel is in the map, or in the receiver's hand,
      or holds a message. */
  predicate Reachable(s: State, c: Channel) {
    c < |s.calls| && (Listed(s, c) || Held(s, c) || s.calls[c].buffer != [])
  }

  ghost predicate Undisturbed(s: State) {
    && (forall c: Channel :: Active(s, c) && s.calls[c].id in s.pending ==> s.pending[s.calls[c].id] == c)
    && (forall c: Channel :: Active(s, c) && !s.calls[c].phase.TimedOut? ==> Reachable(s, c))
  }

  /** While ids are distinct, no step makes a call unreachable, and every entry belongs to the call
      that has its id. */
  lemma NextKeepsUndisturbed(s: State, step: Step)
    requires Invariant(s) && Undisturbed(s) && Enabled(s, step)
    requires DistinctActiveIds(s) && DistinctActiveIds(Next(s, step))
    ensures Undisturbed(Next(s, step))
  {
    var s' := Next(s, step);
    forall c: Channel | Active(s', c)
      ensures s'.calls[c].id in s'.pending ==> s'.pending[s'.calls[c].id] == c
      ensures !s'.calls[c].phase.TimedOut? ==> Reachable(s', c)
    {
      if c < |s.calls| {
        assert Active(s, c) && s'.calls[c].id == s.calls[c].id;
        match step
        case Enqueue(id) => assert Active(s', |s.calls|);
        case Cancel(d) => assert Active(s, d);
        case _ =>
      }
    }
  }

  // ------------------------------------------------------------------ runs

  /** The states of a run: a state for every number of steps. */
  ghost predicate IsRun(run: seq<State>, steps: seq<Step>) {
    && |run| == |steps| + 1
    && forall i :: 0 <= i < |steps| ==> Enabled(run[i], steps[i]) && run[i + 1] == Next(run[i], steps[i])
  }

  /** Every interleaving from the start keeps the invariant, so no call is ever sent two messages or a message of another id. */
  lemma {:induction false} RunKeepsInvariant(run: seq<State>, steps: seq<Step>, i: nat)
    requires IsRun(run, steps) && run[0] == Initial() && i < |run|
    ensures Invariant(run[i])
    ensures forall c :: 0 <= c < |run[i].calls| ==> run[i].calls[c].sends <= 1
  {
    if i > 0 {
      RunKeepsInvariant(run, steps, i - 1);
      NextKeepsInvariant(run[i - 1], steps[i - 1]);
    }
    forall c | 0 <= c < |run[i].calls| ensures run[i].calls[c].sends <= 1 {
      assert CallInvariant(run[i], c);
    }
  }

  /** If ids are distinct among the calls that have not returned, throughout a run, then every call
      that still waits can still be answered. */
  lemma {:induction false} RunUndisturbed(run: seq<State>, steps: seq<Step>, i: nat)
    requires IsRun(run, steps) && run[0] == Initial() && i < |run|
    requires forall j :: 0 <= j < |run| ==> DistinctActiveIds(run[j])
    ensures Undisturbed(run[i])
  {
    if i > 0 {
      RunUndisturbed(run, steps, i - 1);
      RunKeepsInvariant(run, steps, i - 1);
      NextKeepsUndisturbed(run[i - 1], steps[i - 1]);
    }
  }

  /** In such a run a cancel removes the cancelling call's own entry or nothing, so every other call's entry stays. */
  lemma CancelRemovesOwnEntry(run: seq<State>, steps: seq<Step>, i: nat, c: Channel)
    requires IsRun(run, steps) && run[0] == Initial() && i < |steps| && steps[i] == Cancel(c)
    requires forall j :: 0 <= j < |run| ==> DistinctActiveIds(run[j])
    ensures forall id :: id in run[i].pending ==>
              (id in run[i + 1].pending && run[i + 1].pending[id] == run[i].pending[id]) || run[i].pending[id] == c
  {
    RunUndisturbed(run, steps, i);
    assert Enabled(run[i], steps[i]) && Active(run[i], c);
  }

  // ------------------------------------------------------------------ what is delivered

  /** The message is on its way to the call, waits in its channel, or was returned by it. */
  predicate HasReached(s: State, c: Channel, m: KrpcMessage) {
    && c < |s.calls|
    && (s.inHand == Some((c, m)) || m in s.calls[c].buffer || s.calls[c].phase == Returned(Answer(m)))
  }

  /** The receiver takes this message out of the socket and finds this channel under its id. */
  predicate Takes(s: State, step: Step, c: Channel, m: KrpcMessage) {
    step == Dequeue(m) && m.transactionId in s.pending && s.pending[m.transactionId] == c
  }

  /** A message reaches a call exactly if the receiver takes it for the call's channel, and then for good. */
  lemma ReachesExactly(s: State, step: Step, c: Channel, m: KrpcMessage)
    requires Invariant(s) && Enabled(s, step)
    ensures HasReached(Next(s, step), c, m) <==> HasReached(s, c, m) || Takes(s, step, c, m)
  {
    if c < |s.calls| { assert CallInvariant(s, c); }
  }

  /** In every interleaving, what is in the receiver's hand for a call, in its channel or in its result
      is a message that was received under its id, unchanged; and no such message is lost. */
  lemma {:induction false} DeliveredExactly(run: seq<State>, steps: seq<Step>, i: nat, c: Channel, m: KrpcMessage)
    requires IsRun(run, steps) && run[0] == Initial() && i < |run|
    ensures HasReached(run[i], c, m) <==> exists k :: 0 <= k < i && Takes(run[k], steps[k], c, m)
  {
    hide HasReached, Takes, Invariant, Enabled, Next;
    if i == 0 {
      NothingReached(c, m);
    } else {
      DeliveredExactly(run, steps, i - 1, c, m);
      RunKeepsInvariant(run, steps, i - 1);
      ReachesExactly(run[i - 1], steps[i - 1], c, m);
    }
  }

  lemma NothingReached(c: Channel, m: KrpcMessage)
    ensures !HasReached(Initial(), c, m)
  {
  }

  // ------------------------------------------------------------------ how calls return

  /** A call returns exactly with the message in its channel when it receives, with a timeout when it
      cancels, or with an error when its send fails. */
  lemma ReturnsExactly(s: State, step: Step, c: Channel, result: CallResult)
    requires Invariant(s) && Enabled(s, step) && Active(s, c)
    ensures InPhase(Next(s, step), c, Returned(result))
       <==> || (step == Receive(c) && result.Answer? && s.calls[c].buffer == [result.message])
            || (step == Cancel(c) && result == TimeoutError)
            || (step == SendFailed(c) && result == SendError)
  {
    assert CallInvariant(s, c);
  }

  /** A returned call is not touched again. */
  lemma ReturnedForGood(s: State, step: Step, c: Channel, result: CallResult)
    requires Enabled(s, step) && InPhase(s, c, Returned(result))
    ensures InPhase(Next(s, step), c, Returned(result))
  {
  }

  /** A waiting call can time out whatever else happened, and its id is not in the map afterwards. */
  lemma WaitingCanTimeOut(s: State, c: Channel)
    requires InPhase(s, c, Waiting)
    ensures Possible(s, [TimeOut(c), Cancel(c)])
    ensures InPhase(After(s, [TimeOut(c), Cancel(c)]), c, Returned(TimeoutError))
    ensures After(s, [TimeOut(c), Cancel(c)]).pending == s.pending - {s.calls[c].id}
  {
    var s1 := Next(s, TimeOut(c));
    AfterOne(s1, Cancel(c), []);
    AfterOne(s, TimeOut(c), [Cancel(c)]);
  }

  // ------------------------------------------------------------------ entries that outlive their calls

  /** The entry of an id belongs to a call that has returned. */
  predicate Orphan(s: State, id: Bytes) {
    id in s.pending && s.pending[id] < |s.calls| && s.calls[s.pending[id]].phase.Returned?
  }

  /** A step leaves an orphan behind exactly if it is the failed send of a call that is still in the map:
      that call returns without cancelling. */
  lemma OrphanedExactly(s: State, step: Step, id: Bytes)
    requires Invariant(s) && Enabled(s, step) && !Orphan(s, id)
    ensures Orphan(Next(s, step), id) <==> step.SendFailed? && Listed(s, step.c) && s.calls[step.c].id == id
  {
    if id in s.pending { assert CallInvariant(s, s.pending[id]); }
  }

  /** An orphan goes away exactly if its id is drawn again, answered, or cancelled by another call. */
  lemma OrphanRemovedExactly(s: State, step: Step, id: Bytes)
    requires Invariant(s) && Enabled(s, step) && Orphan(s, id)
    ensures !Orphan(Next(s, step), id)
       <==> step == Enqueue(id) || (step.Dequeue? && step.m.transactionId == id) || (step.Cancel? && s.calls[step.c].id == id)
  {
    assert CallInvariant(s, s.pending[id]);
  }

  /** An entry that outlives its call belongs to a call whose send failed, in every interleaving and
      however ids collide. */
  lemma OutlivingEntry(run: seq<State>, steps: seq<Step>, i: nat, id: Bytes)
    requires IsRun(run, steps) && run[0] == Initial() && i < |run| && id in run[i].pending
    ensures var c := run[i].pending[id];
            c < |run[i].calls| && (Orphan(run[i], id) <==> run[i].calls[c].phase == Returned(SendError))
  {
    RunKeepsInvariant(run, steps, i);
    assert CallInvariant(run[i], run[i].pending[id]);
  }

  // ------------------------------------------------------------------ what a collision does

  /** A reachable call that does not return becomes unreachable exactly if it is still in the map and
      another call takes its id, by enqueuing it or by cancelling it. */
  lemma LostExactlyByCollision(s: State, step: Step, c: Channel)
    requires Invariant(s) && Enabled(s, step)
    requires Active(s, c) && Reachable(s, c) && Active(Next(s, step), c)
    ensures !Reachable(Next(s, step), c)
       <==> Listed(s, c) && (step == Enqueue(s.calls[c].id) || (step.Cancel? && s.calls[step.c].id == s.calls[c].id))
  {
    assert CallInvariant(s, c);
  }

  /** An unreachable call stays so, and without an answer, whatever happens. */
  lemma UnreachableForGood(s: State, step: Step, c: Channel)
    requires Invariant(s) && Enabled(s, step) && c < |s.calls| && !Reachable(s, c) && Answers(s.calls[c]) == 0
    ensures c < |Next(s, step).calls| && !Reachable(Next(s, step), c) && Answers(Next(s, step).calls[c]) == 0
  {
  }

  /** Whether a sequence of steps is possible, and where it leads. */
  predicate Possible(s: State, steps: seq<Step>)
    decreases |steps|
  {
    steps == [] || (Enabled(s, steps[0]) && Possible(Next(s, steps[0]), steps[1..]))
  }

  function After(s: State, steps: seq<Step>): State
    requires Possible(s, steps)
    decreases |steps|
  {
    if steps == [] then s else After(Next(s, steps[0]), steps[1..])
  }

  predicate Answered(s: State, c: Channel) {
    c < |s.calls| && s.calls[c].phase.Returned? && s.calls[c].phase.result.Answer?
  }

  lemma {:induction false} UnreachableIsNeverAnswered(s: State, steps: seq<Step>, c: Channel)
    requires Invariant(s) && Possible(s, steps)
    requires c < |s.calls| && !Reachable(s, c) && Answers(s.calls[c]) == 0
    ensures !Answered(After(s, steps), c)
    decreases |steps|
  {
    if steps != [] {
      NextKeepsInvariant(s, steps[0]);
      UnreachableForGood(s, steps[0], c);
      UnreachableIsNeverAnswered(Next(s, steps[0]), steps[1..], c);
    }
  }

  predicate AnsweredWith(s: State, c: Channel, m: KrpcMessage) {
    InPhase(s, c, Returned(Answer(m)))
  }

  /** A call in the map can return any message that is received under its id next; one that a message
      has already reached can return that message. */
  lemma ReachableCanBeAnswered(s: State, c: Channel, m: KrpcMessage) returns (steps: seq<Step>)
    requires Invariant(s) && InPhase(s, c, Waiting) && m.transactionId == s.calls[c].id && !m.Query?
    requires Listed(s, c) || HasReached(s, c, m)
    ensures Possible(s, steps) && AnsweredWith(After(s, steps), c, m)
  {
    assert CallInvariant(s, c);
    if s.calls[c].buffer != [] {
      steps := [Receive(c)];
      AfterOne(s, Receive(c), []);
    } else if s.inHand.Some? {
      DeliveryNeverBlocks(s);
      NextKeepsInvariant(s, Deliver);
      var rest := ReachableCanBeAnsweredLater(Next(s, Deliver), c, m);
      steps := [Deliver] + rest;
      AfterOne(s, Deliver, rest);
    } else {
      steps := ReachableCanBeAnsweredLater(s, c, m);
    }
  }

  lemma ReachableCanBeAnsweredLater(s: State, c: Channel, m: KrpcMessage) returns (steps: seq<Step>)
    requires Invariant(s) && InPhase(s, c, Waiting) && s.inHand.None?
    requires m.transactionId == s.calls[c].id && !m.Query?
    requires Listed(s, c) || HasReached(s, c, m)
    ensures Possible(s, steps) && AnsweredWith(After(s, steps), c, m)
  {
    assert CallInvariant(s, c);
    var receive := [Receive(c)];
    if s.calls[c].buffer != [] {
      steps := receive;
      AfterOne(s, Receive(c), []);
    } else {
      var s1 := Next(s, Dequeue(m));
      NextKeepsInvariant(s, Dequeue(m));
      DeliveryNeverBlocks(s1);
      var s2 := Next(s1, Deliver);
      AfterOne(s2, Receive(c), []);
      AfterOne(s1, Deliver, receive);
      AfterOne(s, Dequeue(m), [Deliver] + receive);
      steps := [Dequeue(m)] + ([Deliver] + receive);
    }
  }

  lemma AfterOne(s: State, step: Step, rest: seq<Step>)
    requires Enabled(s, step) && Possible(Next(s, step), rest)
    ensures Possible(s, [step] + rest) && After(s, [step] + rest) == After(Next(s, step), rest)
  {
    assert ([step] + rest)[1..] == rest;
  }

  predicate LeadsToAnswer(s: State, steps: seq<Step>, c: Channel) {
    Possible(s, steps) && Answered(After(s, steps), c)
  }

  predicate LeadsToMessage(s: State, steps: seq<Step>, c: Channel, m: KrpcMessage) {
    Possible(s, steps) && AnsweredWith(After(s, steps), c, m)
  }

  /** A reachable call is in the map, or exactly one message has reached it. */
  lemma ReachedBy(s: State, c: Channel) returns (m: KrpcMessage)
    requires Invariant(s) && InPhase(s, c, Waiting) && Reachable(s, c) && !Listed(s, c)
    ensures HasReached(s, c, m) && m.transactionId == s.calls[c].id && !m.Query?
  {
    assert CallInvariant(s, c);
    m := if s.calls[c].buffer != [] then s.calls[c].buffer[0] else s.inHand.value.1;
  }

  /** Without the map, a call returns nothing but what has reached it. */
  lemma {:induction false} OnlyWhatReached(s: State, steps: seq<Step>, c: Channel, m: KrpcMessage)
    requires Invariant(s) && Possible(s, steps) && c < |s.calls| && !Listed(s, c) && AnsweredWith(After(s, steps), c, m)
    ensures HasReached(s, c, m)
    decreases |steps|
  {
    if steps != [] {
      NextKeepsInvariant(s, steps[0]);
      NotListedAgain(s, steps[0], c);
      OnlyWhatReached(Next(s, steps[0]), steps[1..], c, m);
      ReachesExactly(s, steps[0], c, m);
    }
  }

  lemma NotListedAgain(s: State, step: Step, c: Channel)
    requires Invariant(s) && Enabled(s, step) && c < |s.calls| && !Listed(s, c)
    ensures c < |Next(s, step).calls| && !Listed(Next(s, step), c)
    ensures forall m :: !Takes(s, step, c, m)
  {
  }

  /** A waiting call can still be answered exactly if it is reachable: with any response or error under
      its id while it is in the map, and afterwards with the one message that has reached it. */
  lemma AnswerableIffReachable(s: State, c: Channel)
    requires Invariant(s) && InPhase(s, c, Waiting)
    ensures Reachable(s, c) <==> exists steps :: LeadsToAnswer(s, steps, c)
    ensures forall m: KrpcMessage :: m.transactionId == s.calls[c].id && !m.Query? && (Listed(s, c) || HasReached(s, c, m))
              ==> exists steps :: LeadsToMessage(s, steps, c, m)
    ensures !Listed(s, c) ==> forall steps, m :: LeadsToMessage(s, steps, c, m) ==> HasReached(s, c, m)
  {
    if Reachable(s, c) {
      var m := Response(s.calls[c].id, map[]);
      if !Listed(s, c) { m := ReachedBy(s, c); }
      var steps := ReachableCanBeAnswered(s, c, m);
      assert LeadsToAnswer(s, steps, c);
    } else {
      forall steps ensures !LeadsToAnswer(s, steps, c) {
        if Possible(s, steps) { UnreachableIsNeverAnswered(s, steps, c); }
      }
    }
    forall m: KrpcMessage | m.transactionId == s.calls[c].id && !m.Query? && (Listed(s, c) || HasReached(s, c, m))
      ensures exists steps :: LeadsToMessage(s, steps, c, m)
    {
      var steps := ReachableCanBeAnswered(s, c, m);
      assert LeadsToMessage(s, steps, c, m);
    }
    if !Listed(s, c) {
      forall steps, m | LeadsToMessage(s, steps, c, m) ensures HasReached(s, c, m) {
        OnlyWhatReached(s, steps, c, m);
      }
    }
  }

  /** A collision: a call is enqueued and sent, and a second call draws the same id. The first call
      then waits for an answer that no continuation gives it. */
  lemma CollisionExample(id: Bytes)
    ensures var steps := [Enqueue(id), Sent(0), Enqueue(id)];
            && Possible(Initial(), steps)
            && InPhase(After(Initial(), steps), 0, Waiting) && !Reachable(After(Initial(), steps), 0)
            && forall more :: !LeadsToAnswer(After(Initial(), steps), more, 0)
  {
    var s1 := Next(Initial(), Enqueue(id));
    var s2 := Next(s1, Sent(0));
    var s3 := Next(s2, Enqueue(id));
    AfterOne(s2, Enqueue(id), []);
    AfterOne(s1, Sent(0), [Enqueue(id)]);
    AfterOne(Initial(), Enqueue(id), [Sent(0), Enqueue(id)]);
    NextKeepsInvariant(Initial(), Enqueue(id));
    NextKeepsInvariant(s1, Sent(0));
    NextKeepsInvariant(s2, Enqueue(id));
    AnswerableIffReachable(s3, 0);
  }

  /** A failed send right after an enqueuing leaves an orphan. */
  lemma OrphanExample(id: Bytes)
    ensures var steps := [Enqueue(id), SendFailed(0)];
            Possible(Initial(), steps) && Orphan(After(Initial(), steps), id)
  {
    AfterOne(Next(Initial(), Enqueue(id)), SendFailed(0), []);
    AfterOne(Initial(), Enqueue(id), [SendFailed(0)]);
  }
}
