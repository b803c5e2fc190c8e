/** What every interleaving of the connection's tasks keeps. */
module ConnectionSafety {
  import opened Options
  import opened Pending
  import opened Connection

  // -------------------------------------------------------------- waiters and oneshots

  /** A oneshot awaits its answer exactly while the table lists its sender under
      the call's id; and a call has one from registration on. */
  ghost predicate Mapped(s: State) {
    && (s.waiters.Some? ==> forall id <- s.waiters.value ::
          var c := s.waiters.value[id]; c < |s.calls| && s.calls[c].id == id && s.calls[c].slot.Open?)
    && (forall c | 0 <= c < |s.calls| && s.calls[c].slot.Open? ::
          Lookup(s.waiters, s.calls[c].id) == Some(c))
    && (forall c | 0 <= c < |s.calls| && Listens(s.calls[c].phase) :: !s.calls[c].slot.NoSlot?)
    && (forall c | 0 <= c < |s.calls| && (s.calls[c].phase.Gated? || s.calls[c].phase.Allocated? || s.calls[c].phase.Permitted?) ::
          s.calls[c].slot.NoSlot?)
  }

  /** What a close drains are exactly the oneshots still awaiting their answer. */
  lemma DrainedIffOpen(s: State, c: nat)
    requires Mapped(s) && c < |s.calls|
    ensures c in Listed(s.waiters) <==> s.calls[c].slot.Open?
  {
    if s.calls[c].slot.Open? {
      assert s.calls[c].id in s.waiters.value;
    }
  }

  lemma CloseAllMapped(s: State)
    requires Mapped(s)
    ensures Mapped(CloseAll(s))
  {
    forall c | 0 <= c < |s.calls|
      ensures c in Listed(s.waiters) <==> s.calls[c].slot.Open?
    {
      DrainedIffOpen(s, c);
    }
  }

  lemma TakeMapped(s: State, id: int, d: Option<Delivery>)
    requires Mapped(s)
    ensures Mapped(Take(s, id, d))
  {
  }

  lemma RegisterMapped(s: State, c: nat)
    requires Mapped(s) && c < |s.calls| && s.calls[c].phase.Permitted?
    ensures Mapped(DoRegister(s, c))
  {
  }

  lemma LeaveMapped(s: State, c: nat, p: Phase)
    requires Mapped(s) && c < |s.calls| && !Listens(p) && !p.Gated? && !p.Allocated? && !p.Permitted?
    ensures Mapped(Leave(s, c, p))
  {
  }

  /** A call moves on without touching its oneshot. */
  lemma AdvanceMapped(s: State, c: nat, call: Call)
    requires Mapped(s) && c < |s.calls| && call.slot == s.calls[c].slot
    requires call.id == s.calls[c].id || call.slot.NoSlot?
    requires Listens(call.phase) ==> Listens(s.calls[c].phase)
    requires call.phase.Gated? || call.phase.Allocated? || call.phase.Permitted? ==> call.slot.NoSlot?
    ensures Mapped(s.(calls := s.calls[c := call]))
  {
  }

  lemma AppendMapped(s: State, call: Call)
    requires Mapped(s) && call.slot.NoSlot? && !Listens(call.phase)
    ensures Mapped(s.(calls := s.calls + [call]))
  {
  }

  /** `Mapped` reads only the calls and the table. */
  lemma MappedFrame(s: State, t: State)
    requires Mapped(s) && t.calls == s.calls && t.waiters == s.waiters
    ensures Mapped(t)
  {
  }

  lemma ActMapped(s: State, c: nat, act: Act)
    requires Mapped(s) && c < |s.calls| && CanAct(s, c, act)
    ensures Mapped(DoAct(s, c, act))
  {
    hide Mapped;
    hide Take;
    hide DoRegister;
    var after := DoAct(s, c, act);
    EarlySlot(s, c);
    match act
    case Refuse => AdvanceMapped(s, c, after.calls[c]);
    case Allocate =>
      AdvanceMapped(s, c, after.calls[c]);
      MappedFrame(s.(calls := after.calls), after);
    case Acquire =>
      AdvanceMapped(s, c, after.calls[c]);
      MappedFrame(s.(calls := after.calls), after);
    case AcquireTimeout => AdvanceMapped(s, c, after.calls[c]);
    case Register => RegisterMapped(s, c);
    case Enqueue =>
      AdvanceMapped(s, c, after.calls[c]);
      MappedFrame(s.(calls := after.calls), after);
    case EnqueueFails =>
      TakeMapped(s, s.calls[c].id, None);
      LeaveMapped(Take(s, s.calls[c].id, None), c, Finished(Closed));
    case Receive => LeaveMapped(s, c, after.calls[c].phase);
    case Timeout => LeaveMapped(s, c, Expired);
    case TakeBack =>
      TakeMapped(s, s.calls[c].id, None);
      LeaveMapped(Take(s, s.calls[c].id, None), c, Finished(TimedOut));
    case Cancel => LeaveMapped(s, c, Cancelled);
  }

  lemma StepMapped(s: State, step: Step)
    requires Mapped(s) && Can(s, step)
    ensures Mapped(Do(s, step))
  {
    hide Mapped;
    hide CloseAll;
    hide Take;
    hide DoAct;
    var after := Do(s, step);
    match step
    case Begin => AppendMapped(s, Call(-1, -1, 0, Gated, NoSlot));
    case ReauthCall => AppendMapped(s, Call(s.exclusive.value, -1, 0, Gated, NoSlot));
    case By(c, act) => ActMapped(s, c, act);
    case Read =>
      TakeMapped(s, s.inbound[0].id, Some(Frame(s.inbound[0].origin)));
      MappedFrame(Take(s, s.inbound[0].id, Some(Frame(s.inbound[0].origin))), after);
    case WriterCloses =>
      CloseAllMapped(s);
      MappedFrame(CloseAll(s), after);
    case ReaderCloses =>
      CloseAllMapped(s);
      MappedFrame(CloseAll(s), after);
    case Close => CloseAllMapped(s);
    case _ => MappedFrame(s, after);
  }

  lemma EarlySlot(s: State, c: nat)
    requires Mapped(s) && c < |s.calls|
    ensures s.calls[c].phase.Gated? || s.calls[c].phase.Allocated? || s.calls[c].phase.Permitted? ==> s.calls[c].slot.NoSlot?
  {
  }

  // ------------------------------------------------------------------------- permits

  function Holders(calls: seq<Call>): nat {
    if calls == [] then 0 else Holders(calls[1..]) + if HoldsPermit(calls[0].phase) then 1 else 0
  }

  lemma {:induction false} HoldersUpdate(calls: seq<Call>, c: nat, call: Call)
    requires c < |calls|
    ensures Holders(calls[c := call]) + (if HoldsPermit(calls[c].phase) then 1 else 0)
         == Holders(calls) + if HoldsPermit(call.phase) then 1 else 0
  {
    if c == 0 {
      assert calls[0 := call][1..] == calls[1..];
    } else {
      assert calls[c := call][1..] == calls[1..][c - 1 := call];
      HoldersUpdate(calls[1..], c - 1, call);
    }
  }

  lemma {:induction false} HoldersSame(a: seq<Call>, b: seq<Call>)
    requires |a| == |b| && forall c | 0 <= c < |a| :: a[c].phase == b[c].phase
    ensures Holders(a) == Holders(b)
  {
    if a != [] {
      HoldersSame(a[1..], b[1..]);
    }
  }

  lemma {:induction false} HoldersAppend(calls: seq<Call>, call: Call)
    requires !HoldsPermit(call.phase)
    ensures Holders(calls + [call]) == Holders(calls)
  {
    if calls != [] {
      assert (calls + [call])[1..] == calls[1..] + [call];
      HoldersAppend(calls[1..], call);
    }
  }

  /** Permits held and permits left always add up to the limit. */
  ghost predicate Accounted(s: State) {
    s.permits + Holders(s.calls) == s.limit
  }

  lemma LeaveAccounted(s: State, c: nat, p: Phase)
    requires Accounted(s) && c < |s.calls| && !HoldsPermit(p)
    ensures Accounted(Leave(s, c, p))
  {
    HoldersUpdate(s.calls, c, s.calls[c].(phase := p));
  }

  lemma TakeAccounted(s: State, id: int, d: Option<Delivery>)
    requires Accounted(s)
    ensures Accounted(Take(s, id, d)) && Take(s, id, d).limit == s.limit
    ensures forall c | 0 <= c < |s.calls| :: Take(s, id, d).calls[c].phase == s.calls[c].phase
  {
    HoldersSame(Take(s, id, d).calls, s.calls);
  }

  lemma CloseAccounted(s: State)
    requires Accounted(s)
    ensures Accounted(CloseAll(s)) && CloseAll(s).limit == s.limit
  {
    HoldersSame(CloseAll(s).calls, s.calls);
  }

  lemma RegisterAccounted(s: State, c: nat)
    requires Accounted(s) && c < |s.calls| && s.calls[c].phase.Permitted?
    ensures Accounted(DoRegister(s, c)) && DoRegister(s, c).limit == s.limit
  {
    if s.waiters.None? {
      LeaveAccounted(s, c, Finished(Closed));
    } else {
      var displaced := Resolve(s, Lookup(s.waiters, s.calls[c].id), None);
      HoldersSame(displaced.calls, s.calls);
      HoldersUpdate(displaced.calls, c, displaced.calls[c].(phase := Phase.Registered, slot := Open));
    }
  }

  lemma ActAccounted(s: State, c: nat, act: Act)
    requires Accounted(s) && c < |s.calls| && CanAct(s, c, act)
    ensures Accounted(DoAct(s, c, act)) && DoAct(s, c, act).limit == s.limit
  {
    hide Take;
    hide DoRegister;
    var after := DoAct(s, c, act);
    match act
    case Refuse => HoldersUpdate(s.calls, c, after.calls[c]);
    case Allocate => HoldersUpdate(s.calls, c, after.calls[c]);
    case Acquire => HoldersUpdate(s.calls, c, after.calls[c]);
    case AcquireTimeout => HoldersUpdate(s.calls, c, after.calls[c]);
    case Register => RegisterAccounted(s, c);
    case Enqueue => HoldersUpdate(s.calls, c, after.calls[c]);
    case EnqueueFails =>
      TakeAccounted(s, s.calls[c].id, None);
      LeaveAccounted(Take(s, s.calls[c].id, None), c, Finished(Closed));
    case Receive => LeaveAccounted(s, c, after.calls[c].phase);
    case Timeout => LeaveAccounted(s, c, Expired);
    case TakeBack =>
      TakeAccounted(s, s.calls[c].id, None);
      LeaveAccounted(Take(s, s.calls[c].id, None), c, Finished(TimedOut));
    case Cancel => LeaveAccounted(s, c, Cancelled);
  }

  lemma StepAccounted(s: State, step: Step)
    requires Accounted(s) && Can(s, step)
    ensures Accounted(Do(s, step)) && Do(s, step).limit == s.limit
  {
    hide Take;
    hide CloseAll;
    hide DoAct;
    match step
    case Begin => HoldersAppend(s.calls, Call(-1, -1, 0, Gated, NoSlot));
    case ReauthCall => HoldersAppend(s.calls, Call(s.exclusive.value, -1, 0, Gated, NoSlot));
    case By(c, act) => ActAccounted(s, c, act);
    case Read => TakeAccounted(s, s.inbound[0].id, Some(Frame(s.inbound[0].origin)));
    case WriterCloses => CloseAccounted(s);
    case ReaderCloses => CloseAccounted(s);
    case Close => CloseAccounted(s);
    case _ =>
  }

  // ------------------------------------------------------------------- one resolution

  predicate Settled(slot: Slot) {
    slot.Sent? || slot.Dropped?
  }

  lemma TakeResolves(s: State, id: int, d: Option<Delivery>, c: nat)
    requires Mapped(s) && c < |s.calls|
    ensures Settled(s.calls[c].slot) ==> Take(s, id, d).calls[c].slot == s.calls[c].slot
  {
  }

  lemma ActResolves(s: State, c: nat, act: Act, b: nat)
    requires Mapped(s) && c < |s.calls| && CanAct(s, c, act) && b < |s.calls|
    ensures b < |DoAct(s, c, act).calls|
    ensures Settled(s.calls[b].slot) ==> DoAct(s, c, act).calls[b].slot == s.calls[b].slot
    ensures s.waiters.None? ==> DoAct(s, c, act).waiters.None?
  {
    hide Take;
    TakeResolves(s, s.calls[c].id, None, b);
    TakenDead(s, s.calls[c].id, None);
  }

  lemma TakenDead(s: State, id: int, d: Option<Delivery>)
    ensures s.waiters.None? ==> Take(s, id, d).waiters.None?
  {
  }

  /** A oneshot that has been used or dropped never changes again, and a dead
      table stays dead. */
  lemma ResolvedOnce(s: State, step: Step, b: nat)
    requires Mapped(s) && Can(s, step) && b < |s.calls|
    ensures b < |Do(s, step).calls|
    ensures Settled(s.calls[b].slot) ==> Do(s, step).calls[b].slot == s.calls[b].slot
    ensures s.waiters.None? ==> Do(s, step).waiters.None?
  {
    hide Take;
    hide DoAct;
    DrainedIffOpen(s, b);
    match step
    case By(c, act) => ActResolves(s, c, act, b);
    case Read =>
      TakeResolves(s, s.inbound[0].id, Some(Frame(s.inbound[0].origin)), b);
      TakenDead(s, s.inbound[0].id, Some(Frame(s.inbound[0].origin)));
    case _ =>
  }

  // ------------------------------------------------------------------ nothing left behind

  /** A call that returned has no waiter in the table. */
  ghost predicate Tidy(s: State) {
    forall c | 0 <= c < |s.calls| && s.calls[c].phase.Finished? :: !s.calls[c].slot.Open?
  }

  lemma TakeTidies(s: State, id: int, d: Option<Delivery>)
    requires Mapped(s)
    ensures forall c | 0 <= c < |s.calls| ::
              && Take(s, id, d).calls[c].phase == s.calls[c].phase
              && (Take(s, id, d).calls[c].slot.Open? ==> s.calls[c].slot.Open? && s.calls[c].id != id)
  {
  }

  lemma ActTidy(s: State, c: nat, act: Act)
    requires Mapped(s) && Tidy(s) && c < |s.calls| && CanAct(s, c, act)
    ensures Tidy(DoAct(s, c, act))
  {
    hide Take;
    EarlySlot(s, c);
    TakeTidies(s, s.calls[c].id, None);
  }

  lemma StepTidy(s: State, step: Step)
    requires Mapped(s) && Tidy(s) && Can(s, step)
    ensures Tidy(Do(s, step))
  {
    hide Take;
    hide DoAct;
    hide Mapped;
    match step
    case By(c, act) => ActTidy(s, c, act);
    case Read => TakeTidies(s, s.inbound[0].id, Some(Frame(s.inbound[0].origin)));
    case _ =>
  }

  // ----------------------------------------------------------------------- whole runs

  lemma {:induction false} RunKeeps(states: seq<State>, steps: seq<Step>, limit: nat, n: nat)
    requires Starts(states, steps, limit) && n < |states|
    ensures Mapped(states[n]) && Accounted(states[n]) && states[n].limit == limit
  {
    hide Mapped;
    hide Accounted;
    if n == 0 {
      assert Mapped(Init(limit)) && Accounted(Init(limit)) by {
        InitKeeps(limit);
      }
    } else {
      RunKeeps(states, steps, limit, n - 1);
      StepMapped(states[n - 1], steps[n - 1]);
      StepAccounted(states[n - 1], steps[n - 1]);
    }
  }

  /** In every run, a call that returned, whatever it returned, leaves no waiter
      behind: what the table lists belongs to live callers and to dropped futures. */
  lemma {:induction false} NothingLeftBehind(states: seq<State>, steps: seq<Step>, limit: nat, n: nat)
    requires Starts(states, steps, limit) && n < |states|
    ensures forall c <- Listed(states[n].waiters) :: c < |states[n].calls| && !states[n].calls[c].phase.Finished?
    ensures Tidy(states[n])
  {
    hide Do;
    hide Can;
    RunKeeps(states, steps, limit, n);
    if n > 0 {
      NothingLeftBehind(states, steps, limit, n - 1);
      RunKeeps(states, steps, limit, n - 1);
      StepTidy(states[n - 1], steps[n - 1]);
    }
  }

  lemma InitKeeps(limit: nat)
    ensures Mapped(Init(limit)) && Accounted(Init(limit))
  {
  }

  /** The callers past the permit: registering, queueing their frame, or waiting. */
  ghost function PastPermit(calls: seq<Call>): set<nat> {
    set c: nat | c < |calls| && (calls[c].phase.Permitted? || calls[c].phase.Registered? || calls[c].phase.Waiting?)
  }

  lemma HoldersLast(calls: seq<Call>)
    requires calls != []
    ensures Holders(calls) == Holders(calls[..|calls| - 1]) + if HoldsPermit(calls[|calls| - 1].phase) then 1 else 0
  {
    hide Holders;
    var last := |calls| - 1;
    var idle := calls[last].(phase := Gated);
    HoldersAppend(calls[..last], idle);
    HoldersUpdate(calls[..last] + [idle], last, calls[last]);
    assert calls == (calls[..last] + [idle])[last := calls[last]];
  }

  lemma PastPermitLast(calls: seq<Call>)
    requires calls != []
    ensures |PastPermit(calls)| == |PastPermit(calls[..|calls| - 1])| + if HoldsPermit(calls[|calls| - 1].phase) then 1 else 0
  {
    var last := |calls| - 1;
    var before := PastPermit(calls[..last]);
    assert last !in before;
    assert PastPermit(calls) == if HoldsPermit(calls[last].phase) then before + {last} else before;
  }

  lemma {:induction false} HoldersCount(calls: seq<Call>)
    ensures |PastPermit(calls)| == Holders(calls)
  {
    if calls != [] {
      hide Holders;
      hide PastPermit;
      hide HoldsPermit;
      HoldersCount(calls[..|calls| - 1]);
      HoldersLast(calls);
      PastPermitLast(calls);
    }
  }

  /** In every run, the live callers past the permit never exceed `max_in_flight`. */
  lemma InFlightBounded(states: seq<State>, steps: seq<Step>, limit: nat, n: nat)
    requires Starts(states, steps, limit) && n < |states|
    ensures |PastPermit(states[n].calls)| + states[n].permits == limit
  {
    RunKeeps(states, steps, limit, n);
    HoldersCount(states[n].calls);
  }

  /** In every run, a waiter is resolved at most once, and death is permanent. */
  lemma {:induction false} ResolvedForever(states: seq<State>, steps: seq<Step>, limit: nat, m: nat, n: nat, c: nat)
    requires Starts(states, steps, limit) && m <= n < |states| && c < |states[m].calls|
    ensures c < |states[n].calls|
    ensures Settled(states[m].calls[c].slot) ==> states[n].calls[c].slot == states[m].calls[c].slot
    ensures states[m].waiters.None? ==> states[n].waiters.None?
  {
    hide Mapped;
    hide Do;
    if m < n {
      ResolvedForever(states, steps, limit, m, n - 1, c);
      RunKeeps(states, steps, limit, n - 1);
      ResolvedOnce(states[n - 1], steps[n - 1], c);
    }
  }

  /** In every run, a caller awaiting its answer is either registered under its own
      id or has its answer to pick up, so none is stranded. */
  lemma NobodyStranded(states: seq<State>, steps: seq<Step>, limit: nat, n: nat, c: nat)
    requires Starts(states, steps, limit) && n < |states|
    requires c < |states[n].calls| && states[n].calls[c].phase.Waiting?
    ensures Lookup(states[n].waiters, states[n].calls[c].id) == Some(c) || CanAct(states[n], c, Receive)
  {
    RunKeeps(states, steps, limit, n);
  }

  /** From a close on no waiter remains and none can be added: every oneshot has
      been used or dropped, and who tries to register is turned away. */
  lemma {:induction false} DeadForever(states: seq<State>, steps: seq<Step>, limit: nat, m: nat, n: nat, c: nat)
    requires Starts(states, steps, limit) && m <= n < |states| && states[m].waiters.None?
    requires c < |states[n].calls|
    ensures states[n].waiters.None? && !states[n].calls[c].slot.Open?
    ensures states[n].calls[c].phase.Waiting? ==> CanAct(states[n], c, Receive)
    ensures states[n].calls[c].phase.Permitted? ==>
              && DoAct(states[n], c, Act.Register).calls[c].phase == Finished(Closed)
              && DoAct(states[n], c, Act.Register).waiters.None?
  {
    StaysDead(states, steps, limit, m, n);
    RunKeeps(states, steps, limit, n);
  }

  lemma {:induction false} StaysDead(states: seq<State>, steps: seq<Step>, limit: nat, m: nat, n: nat)
    requires Starts(states, steps, limit) && m <= n < |states| && states[m].waiters.None?
    ensures states[n].waiters.None?
  {
    hide Take;
    hide DoAct;
    if m < n {
      StaysDead(states, steps, limit, m, n - 1);
      DeadStep(states[n - 1], steps[n - 1]);
    }
  }

  lemma DeadStep(s: State, step: Step)
    requires s.waiters.None? && Can(s, step)
    ensures Do(s, step).waiters.None?
  {
  }

  /** A task that is gone has closed the table. */
  ghost predicate Announced(s: State) {
    s.writer.Closing? || s.writer.Ended? || s.reader.Ended? ==> s.waiters.None?
  }

  lemma StepAnnounced(s: State, step: Step)
    requires Announced(s) && Can(s, step)
    ensures Announced(Do(s, step))
  {
    hide Take;
    hide DoAct;
    match step
    case By(c, act) => ActTasks(s, c, act);
    case Read =>
      TakenDead(s, s.inbound[0].id, Some(Frame(s.inbound[0].origin)));
      TakeTasks(s, s.inbound[0].id, Some(Frame(s.inbound[0].origin)));
    case _ =>
  }

  lemma TakeTasks(s: State, id: int, d: Option<Delivery>)
    ensures Take(s, id, d).writer == s.writer && Take(s, id, d).reader == s.reader
  {
  }

  lemma ActTasks(s: State, c: nat, act: Act)
    requires c < |s.calls| && CanAct(s, c, act)
    ensures DoAct(s, c, act).writer == s.writer && DoAct(s, c, act).reader == s.reader
    ensures s.waiters.None? ==> DoAct(s, c, act).waiters.None?
  {
    hide Take;
    TakenDead(s, s.calls[c].id, None);
    TakeTasks(s, s.calls[c].id, None);
  }

  /** In every run, once the writer or the reader is gone the connection is dead: no
      request is left waiting for an answer that cannot come. */
  lemma {:induction false} DeadTaskKills(states: seq<State>, steps: seq<Step>, limit: nat, n: nat)
    requires Starts(states, steps, limit) && n < |states|
    ensures states[n].writer.Closing? || states[n].writer.Ended? || states[n].reader.Ended? ==> states[n].waiters.None?
  {
    hide Do;
    hide Can;
    if n > 0 {
      DeadTaskKills(states, steps, limit, n - 1);
      StepAnnounced(states[n - 1], steps[n - 1]);
    }
  }

  /** In every run, whoever closes the connection, it is dead from there on, and every
      caller whose answer is outstanding finds the news of it. */
  lemma CloseTellsEverybody(states: seq<State>, steps: seq<Step>, limit: nat, n: nat, c: nat)
    requires Starts(states, steps, limit) && n < |steps|
    requires steps[n] == Close || steps[n] == WriterCloses || steps[n] == ReaderCloses
    requires c < |states[n].calls|
    ensures states[n + 1].waiters.None? && c < |states[n + 1].calls|
    ensures states[n].calls[c].slot.Open? && (states[n].calls[c].phase.Registered? || states[n].calls[c].phase.Waiting?) ==>
              states[n + 1].calls[c].slot == Sent(ConnectionClosed)
  {
    RunKeeps(states, steps, limit, n);
    DrainedIffOpen(states[n], c);
  }

  /** In every run, how a call ends: refused before it has a permit; out of time waiting
      for the permit or for the answer; closed if the table is dead when it registers or
      the channel is gone when it sends; and otherwise with what its oneshot brings. */
  lemma CallEnds(states: seq<State>, steps: seq<Step>, limit: nat, n: nat, c: nat, act: Act)
    requires Starts(states, steps, limit) && n < |steps| && steps[n] == By(c, act) && c < |states[n].calls|
    ensures c < |states[n + 1].calls|
    ensures var before, after := states[n].calls[c], states[n + 1].calls[c].phase;
            match act
            case Refuse => after == Finished(Refused)
            case AcquireTimeout => after == Finished(TimedOut)
            case Register => after == if states[n].waiters.None? then Finished(Closed) else Phase.Registered
            case EnqueueFails => after == Finished(Closed)
            case Receive =>
              (match before.slot
               case Sent(d) => after == Finished(Got(d))
               case _ => after == Finished(Closed))
            case TakeBack => after == Finished(TimedOut)
            case Cancel => after == Cancelled
            case Allocate => after == Allocated
            case Acquire => after == Permitted
            case Enqueue => after == Waiting
            case Timeout => after == Expired
  {
    hide Take;
    assert states[n + 1] == DoAct(states[n], c, act);
  }

  lemma TakeQueue(s: State, id: int, d: Option<Delivery>)
    ensures Take(s, id, d).queue == s.queue && Take(s, id, d).limit == s.limit
  {
  }

  lemma ActQueue(s: State, c: nat, act: Act)
    requires |s.queue| <= s.limit && c < |s.calls| && CanAct(s, c, act)
    ensures |DoAct(s, c, act).queue| <= DoAct(s, c, act).limit == s.limit
  {
    hide Take;
    TakeQueue(s, s.calls[c].id, None);
  }

  lemma StepQueue(s: State, step: Step)
    requires |s.queue| <= s.limit && Can(s, step)
    ensures |Do(s, step).queue| <= Do(s, step).limit == s.limit
  {
    hide Take;
    hide DoAct;
    match step
    case By(c, act) => ActQueue(s, c, act);
    case Read => TakeQueue(s, s.inbound[0].id, Some(Frame(s.inbound[0].origin)));
    case _ =>
  }

  /** In every run, the command channel never holds more than `max_in_flight` frames. */
  lemma {:induction false} ChannelBounded(states: seq<State>, steps: seq<Step>, limit: nat, n: nat)
    requires Starts(states, steps, limit) && n < |states|
    ensures |states[n].queue| <= limit == states[n].limit
  {
    hide Do;
    hide Can;
    if n > 0 {
      ChannelBounded(states, steps, limit, n - 1);
      StepQueue(states[n - 1], steps[n - 1]);
    }
  }
}
