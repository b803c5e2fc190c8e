/** The connection actor as a concurrent step system: callers, the writer task,
    the reader task, the re-authentication task and a broker, interleaved in any
    order. Each step is what one task does between two points where another may
    run. */
module Connection {
  import opened Options
  import opened Pending

  /** What a oneshot delivers: a frame, tagged with the call whose request it
      answers (none for an unsolicited one), or the news that the connection died. */
  datatype Delivery = Frame(origin: Option<nat>) | ConnectionClosed

  /** One caller's oneshot, seen from the receiving end. */
  datatype Slot = NoSlot | Open | Sent(delivery: Delivery) | Dropped

  datatype Outcome = Refused | Closed | TimedOut | Got(delivery: Delivery)

  /** Where a call of `round_trip` stands. */
  datatype Phase =
    | Gated                       // holds its half of the gate, no id yet
    | Allocated                   // has an id, awaits a permit
    | Permitted                   // holds a permit
    | Registered                  // its waiter is registered, awaits room in the channel
    | Waiting                     // its frame is queued, awaits the oneshot
    | Expired                     // gave up waiting, its waiter not yet taken back
    | Finished(outcome: Outcome)
    | Cancelled                   // the future was dropped

  /** `session` is the re-authentication the call belongs to, or -1 for an
      ordinary one; `number` is its place in the order of allocation, or -1. */
  datatype Call = Call(session: int, number: int, id: int, phase: Phase, slot: Slot)

  /** A task's loop runs, has been left, has closed the table, or its end of the
      channel is gone. */
  datatype Task = Running | Stopped | Closing | Ended

  datatype Answer = Answer(id: int, origin: Option<nat>)

  datatype State = State(
    limit: nat,                   // max_in_flight
    calls: seq<Call>,
    issued: nat,               // ids handed out so far
    counter: int,                 // the atomic they come from
    permits: nat,
    waiters: Waiters,
    queue: seq<nat>,              // the command channel: frames by call
    log: seq<nat>,                // every frame ever put into the channel
    wire: seq<nat>,               // every frame the writer has put on the socket
    unanswered: set<nat>,         // written, and not answered yet
    inbound: seq<Answer>,         // answers the reader has not read yet
    exclusive: Option<int>,       // the session holding the write half of the gate
    sessions: nat,
    writer: Task,
    reader: Task
  )

  /** What a call does next. */
  datatype Act =
    | Refuse                      // not permitted, no common version, or not encodable
    | Allocate
    | Acquire | AcquireTimeout
    | Register
    | Enqueue | EnqueueFails
    | Receive | Timeout | TakeBack
    | Cancel                      // its future is dropped, at one of its awaits

  datatype Step =
    | Begin                       // an ordinary call takes the read half of the gate
    | ReauthBegin | ReauthCall | ReauthEnd
    | By(c: nat, act: Act)
    | Write | WriteFails | WriterStops | WriterCloses | WriterEnds
    | Respond(c: nat) | Intrude(id: int)
    | Read | ReaderStops | ReaderCloses
    | Close

  predicate Live(p: Phase) {
    !p.Finished? && !p.Cancelled?
  }

  predicate HoldsPermit(p: Phase) {
    p.Permitted? || p.Registered? || p.Waiting?
  }

  /** The receiving half of the oneshot still exists. */
  predicate Listens(p: Phase) {
    p.Registered? || p.Waiting?
  }

  /** Some live call belongs to `session`. */
  predicate Busy(s: State, session: int) {
    exists c | 0 <= c < |s.calls| :: s.calls[c].session == session && Live(s.calls[c].phase)
  }

  function Init(limit: nat): State {
    State(limit, [], 0, Counter(0), limit, Some(map[]), [], [], [], {}, [], None, 0, Running, Running)
  }

  // ------------------------------------------------------------------ pieces of steps

  function InPhase(s: State, c: nat, p: Phase): State
    requires c < |s.calls|
  {
    s.(calls := s.calls[c := s.calls[c].(phase := p)])
  }

  /** Leave `round_trip`, giving the permit back if one is held. */
  function Leave(s: State, c: nat, p: Phase): State
    requires c < |s.calls|
  {
    InPhase(s, c, p).(permits := s.permits + if HoldsPermit(s.calls[c].phase) then 1 else 0)
  }

  /** A oneshot sender is used (`Some`) or dropped (`None`). */
  function Resolve(s: State, w: Option<nat>, d: Option<Delivery>): (r: State)
    ensures |r.calls| == |s.calls|
  {
    if w.None? || w.value >= |s.calls| then s
    else
      var call := s.calls[w.value];
      var slot := if d.Some? && Listens(call.phase) then Sent(d.value) else Dropped;
      s.(calls := s.calls[w.value := call.(slot := slot)])
  }

  /** `pending.take(id)`, its sender then used or dropped. */
  function Take(s: State, id: int, d: Option<Delivery>): (r: State)
    ensures |r.calls| == |s.calls|
  {
    Resolve(s, Lookup(s.waiters, id), d).(waiters := Taken(s.waiters, id))
  }

  /** `pending.close()`: every waiter is told. */
  function CloseAll(s: State): (r: State)
    ensures |r.calls| == |s.calls|
  {
    var drained := Listed(s.waiters);
    s.(waiters := None,
       calls := seq(|s.calls|, c requires 0 <= c < |s.calls| =>
                  if c in drained
                  then s.calls[c].(slot := if Listens(s.calls[c].phase) then Sent(ConnectionClosed) else Dropped)
                  else s.calls[c]))
  }

  // --------------------------------------------------------------------------- steps

  predicate CanAct(s: State, c: nat, act: Act)
    requires c < |s.calls|
  {
    var call := s.calls[c];
    match act
    case Refuse => call.phase.Gated? || call.phase.Allocated?
    case Allocate => call.phase.Gated?
    case Acquire => call.phase.Allocated? && s.permits > 0
    case AcquireTimeout => call.phase.Allocated?
    case Register => call.phase.Permitted?
    case Enqueue => call.phase.Registered? && !s.writer.Ended? && |s.queue| < s.limit
    case EnqueueFails => call.phase.Registered? && s.writer.Ended?
    case Receive => call.phase.Waiting? && (call.slot.Sent? || call.slot.Dropped?)
    case Timeout => call.phase.Waiting?
    case TakeBack => call.phase.Expired?
    case Cancel => call.phase.Allocated? || call.phase.Registered? || call.phase.Waiting?
  }

  function DoAct(s: State, c: nat, act: Act): State
    requires c < |s.calls| && CanAct(s, c, act)
  {
    var call := s.calls[c];
    match act
    case Refuse => InPhase(s, c, Finished(Refused))
    case Allocate =>
      s.(calls := s.calls[c := call.(number := s.issued, id := Masked(s.counter), phase := Allocated)],
         issued := s.issued + 1, counter := Increment(s.counter))
    case Acquire => InPhase(s, c, Permitted).(permits := s.permits - 1)
    case AcquireTimeout => InPhase(s, c, Finished(TimedOut))
    case Register => DoRegister(s, c)
    case Enqueue => InPhase(s, c, Waiting).(queue := s.queue + [c], log := s.log + [c])
    case EnqueueFails => Leave(Take(s, call.id, None), c, Finished(Closed))
    case Receive => Leave(s, c, Finished(if call.slot.Sent? then Got(call.slot.delivery) else Closed))
    case Timeout => Leave(s, c, Expired)
    case TakeBack => Leave(Take(s, call.id, None), c, Finished(TimedOut))
    case Cancel => Leave(s, c, Cancelled)
  }

  /** A waiter displaced from under the same id has its sender dropped. */
  function DoRegister(s: State, c: nat): State
    requires c < |s.calls|
  {
    if s.waiters.None? then Leave(s, c, Finished(Closed))
    else
      var displaced := Resolve(s, Lookup(s.waiters, s.calls[c].id), None);
      displaced.(waiters := Pending.Registered(s.waiters, s.calls[c].id, c),
                 calls := displaced.calls[c := displaced.calls[c].(phase := Phase.Registered, slot := Open)])
  }

  predicate Can(s: State, step: Step) {
    match step
    case Begin => s.exclusive.None?
    case ReauthBegin => s.exclusive.None? && !Busy(s, -1)
    case ReauthCall => s.exclusive.Some? && !Busy(s, s.exclusive.value)
    case ReauthEnd => s.exclusive.Some? && !Busy(s, s.exclusive.value)
    case By(c, act) => c < |s.calls| && CanAct(s, c, act)
    case Write => s.writer.Running? && s.queue != []
    case WriteFails => s.writer.Running? && s.queue != []
    case WriterStops => s.writer.Running?
    case WriterCloses => s.writer.Stopped?
    case WriterEnds => s.writer.Closing?
    case Respond(c) => c in s.unanswered && c < |s.calls|
    case Intrude(id) => true
    case Read => s.reader.Running? && s.inbound != []
    case ReaderStops => s.reader.Running?
    case ReaderCloses => s.reader.Stopped?
    case Close => true
  }

  function Do(s: State, step: Step): State
    requires Can(s, step)
  {
    match step
    case Begin => s.(calls := s.calls + [Call(-1, -1, 0, Gated, NoSlot)])
    case ReauthBegin => s.(exclusive := Some(s.sessions), sessions := s.sessions + 1)
    case ReauthCall => s.(calls := s.calls + [Call(s.exclusive.value, -1, 0, Gated, NoSlot)])
    case ReauthEnd => s.(exclusive := None)
    case By(c, act) => DoAct(s, c, act)
    case Write => s.(queue := s.queue[1..], wire := s.wire + [s.queue[0]], unanswered := s.unanswered + {s.queue[0]})
    case WriteFails => s.(queue := s.queue[1..], writer := Stopped)
    case WriterStops => s.(writer := Stopped)
    case WriterCloses => CloseAll(s).(writer := Closing)
    case WriterEnds => s.(writer := Ended, queue := [])
    case Respond(c) =>
      s.(unanswered := s.unanswered - {c}, inbound := s.inbound + [Answer(s.calls[c].id, Some(c))])
    case Intrude(id) => s.(inbound := s.inbound + [Answer(id, None)])
    case Read => Take(s, s.inbound[0].id, Some(Frame(s.inbound[0].origin))).(inbound := s.inbound[1..])
    case ReaderStops => s.(reader := Stopped)
    case ReaderCloses => CloseAll(s).(reader := Ended)
    case Close => CloseAll(s)
  }

  // ---------------------------------------------------------------------------- runs

  ghost predicate Run(states: seq<State>, steps: seq<Step>) {
    && |states| == |steps| + 1
    && forall n | 0 <= n < |steps| :: Can(states[n], steps[n]) && states[n + 1] == Do(states[n], steps[n])
  }

  ghost predicate Starts(states: seq<State>, steps: seq<Step>, limit: nat) {
    Run(states, steps) && states[0] == Init(limit)
  }
}
