/** A frame reaches only the call whose request it answers, although ids repeat. */
module ConnectionDelivery {
  import opened Options
  import opened Pending
  import opened Connection
  import opened ConnectionSafety

  // ------------------------------------------------------------------------- numbering

  /** Allocation order is the counter's order, and no two calls share a place in it. */
  ghost predicate Numbered(s: State) {
    && s.counter == Counter(s.issued)
    && (forall c | 0 <= c < |s.calls| ::
          && -1 <= s.calls[c].number < s.issued
          && (s.calls[c].number >= 0 ==> s.calls[c].id == Masked(Counter(s.calls[c].number)))
          && (s.calls[c].number < 0 ==> s.calls[c].phase.Gated? || s.calls[c].phase == Finished(Refused)))
    && (forall c, d | 0 <= c < d < |s.calls| && s.calls[c].number >= 0 :: s.calls[c].number != s.calls[d].number)
  }

  predicate Answering(inbound: seq<Answer>, c: nat) {
    exists i | 0 <= i < |inbound| :: inbound[i].origin == Some(c)
  }

  /** The request is queued, on its way, or its answer is on its way back. */
  predicate InFlight(s: State, c: nat) {
    c in s.queue || c in s.unanswered || Answering(s.inbound, c)
  }

  /** A call has its id, and either its caller is there or its answer may come. */
  predicate Outstanding(s: State, c: nat)
    requires c < |s.calls|
  {
    s.calls[c].number >= 0 && (Live(s.calls[c].phase) || InFlight(s, c))
  }

  /** Fewer than 2^31 requests were issued since any call that is outstanding. */
  ghost predicate Fresh(s: State) {
    forall c | 0 <= c < |s.calls| && Outstanding(s, c) :: s.issued - s.calls[c].number <= 0x8000_0000
  }

  /** Outstanding calls never share an id. */
  lemma OutstandingIds(s: State, c: nat, d: nat)
    requires Numbered(s) && Fresh(s)
    requires c < |s.calls| && d < |s.calls| && c != d && Outstanding(s, c) && Outstanding(s, d)
    ensures s.calls[c].id != s.calls[d].id
  {
    var a, b := s.calls[c].number, s.calls[d].number;
    if a < b {
      DistinctWithinCycle(a, b);
    } else {
      DistinctWithinCycle(b, a);
    }
  }

  // ------------------------------------------------------------- requests in flight

  /** What is in flight was sent by a registered call, under that call's id. */
  ghost predicate Flying(s: State) {
    && (forall c: nat | InFlight(s, c) :: c < |s.calls| && s.calls[c].number >= 0 && !s.calls[c].slot.NoSlot?)
    && (forall a <- s.inbound | a.origin.Some? ::
          a.origin.value < |s.calls| && a.id == s.calls[a.origin.value].id)
  }

  /** The table never lists somebody else under an outstanding call's id. */
  ghost predicate Own(s: State) {
    forall c | 0 <= c < |s.calls| && Outstanding(s, c) && !s.calls[c].slot.NoSlot? ::
      Lookup(s.waiters, s.calls[c].id) in {None, Some(c)}
  }

  /** Frames lie only with the call they answer, and callers return what lies there. */
  ghost predicate Delivered(s: State) {
    forall c | 0 <= c < |s.calls| ::
      && (s.calls[c].slot.Sent? && s.calls[c].slot.delivery.Frame? ==> s.calls[c].slot.delivery.origin in {None, Some(c)})
      && (s.calls[c].phase.Finished? && s.calls[c].phase.outcome.Got? ==> s.calls[c].slot == Sent(s.calls[c].phase.outcome.delivery))
  }

  // ------------------------------------------------------------------ quiet steps

  /** Nothing is allocated, registered or sent; calls only move on and entries
      only leave the table. */
  ghost predicate Quiet(s: State, t: State) {
    && t.counter == s.counter && t.issued == s.issued && |t.calls| == |s.calls|
    && (forall c | 0 <= c < |s.calls| ::
          && t.calls[c].number == s.calls[c].number && t.calls[c].id == s.calls[c].id
          && (Live(t.calls[c].phase) ==> Live(s.calls[c].phase))
          && (t.calls[c].slot.NoSlot? <==> s.calls[c].slot.NoSlot?)
          && (s.calls[c].number < 0 ==> t.calls[c].phase == s.calls[c].phase || t.calls[c].phase == Finished(Refused)))
    && (forall id {:trigger Lookup(t.waiters, id)} :: Lookup(t.waiters, id) in {None, Lookup(s.waiters, id)})
  }

  /** Nothing new is on its way. */
  ghost predicate Drains(s: State, t: State) {
    && (forall c: nat | InFlight(t, c) :: InFlight(s, c))
    && (forall a <- t.inbound | a.origin.Some? :: a in s.inbound || (a.origin.value < |s.calls| && a.id == s.calls[a.origin.value].id))
  }

  lemma QuietKeeps(s: State, t: State)
    requires Numbered(s) && Flying(s) && Own(s) && Quiet(s, t) && Drains(s, t)
    ensures Numbered(t) && Flying(t) && Own(t)
  {
    hide InFlight;
    hide Lookup;
    hide Masked;
    hide Counter;
  }

  lemma TakeQuiet(s: State, id: int, d: Option<Delivery>)
    requires Mapped(s)
    ensures Quiet(s, Take(s, id, d))
    ensures SameTraffic(s, Take(s, id, d))
    ensures forall c | 0 <= c < |s.calls| :: Take(s, id, d).calls[c].phase == s.calls[c].phase
  {
  }

  ghost predicate SameTraffic(s: State, t: State) {
    t.queue == s.queue && t.unanswered == s.unanswered && t.inbound == s.inbound
  }

  lemma SameTrafficDrains(s: State, t: State)
    requires SameTraffic(s, t)
    ensures Drains(s, t)
  {
  }

  lemma CloseQuiet(s: State)
    requires Mapped(s)
    ensures Quiet(s, CloseAll(s)) && SameTraffic(s, CloseAll(s))
  {
    forall c | 0 <= c < |s.calls|
      ensures c in Listed(s.waiters) <==> s.calls[c].slot.Open?
    {
      DrainedIffOpen(s, c);
    }
  }

  lemma ActQuiet(s: State, c: nat, act: Act)
    requires Numbered(s) && Mapped(s) && c < |s.calls| && CanAct(s, c, act)
    requires !act.Allocate? && !act.Register? && !act.Enqueue?
    ensures Quiet(s, DoAct(s, c, act)) && SameTraffic(s, DoAct(s, c, act))
  {
    hide Take;
    hide Mapped;
    hide Masked;
    hide Counter;
    if act.EnqueueFails? || act.TakeBack? {
      TakeQuiet(s, s.calls[c].id, None);
    }
  }

  // ------------------------------------------------------------- steps that add something

  lemma AllocateKeeps(s: State, c: nat)
    requires Numbered(s) && Flying(s) && Own(s) && Mapped(s) && c < |s.calls| && CanAct(s, c, Allocate)
    ensures Numbered(DoAct(s, c, Allocate)) && Flying(DoAct(s, c, Allocate)) && Own(DoAct(s, c, Allocate))
  {
    hide Masked;
    hide Increment;
    var t := DoAct(s, c, Allocate);
    assert t.counter == Counter(t.issued);
    assert forall d: nat | InFlight(t, d) :: InFlight(s, d);
  }

  lemma AppendKeeps(s: State, session: int)
    requires Numbered(s) && Flying(s) && Own(s)
    ensures var t := s.(calls := s.calls + [Call(session, -1, 0, Gated, NoSlot)]);
            Numbered(t) && Flying(t) && Own(t)
  {
    hide Masked;
    hide Counter;
    var t := s.(calls := s.calls + [Call(session, -1, 0, Gated, NoSlot)]);
    assert forall d: nat | InFlight(t, d) :: InFlight(s, d);
  }

  /** A new waiter never displaces, and is never displaced by, an outstanding one. */
  lemma RegisterKeeps(s: State, c: nat)
    requires Numbered(s) && Flying(s) && Own(s) && Mapped(s) && Fresh(s)
    requires c < |s.calls| && CanAct(s, c, Act.Register)
    ensures Numbered(DoAct(s, c, Act.Register)) && Flying(DoAct(s, c, Act.Register)) && Own(DoAct(s, c, Act.Register))
  {
    hide Mapped;
    hide Fresh;
    hide DoRegister;
    hide Masked;
    hide Counter;
    hide InFlight;
    var t := DoRegister(s, c);
    forall d | 0 <= d < |s.calls| && d != c && Outstanding(s, d)
      ensures s.calls[d].id != s.calls[c].id
    {
      OutstandingIds(s, c, d);
    }
    RegisterChanges(s, c);
    SameTrafficDrains(s, t);
  }

  lemma RegisterChanges(s: State, c: nat)
    requires Mapped(s) && c < |s.calls| && s.calls[c].phase.Permitted?
    ensures var t := DoRegister(s, c);
            && t.counter == s.counter && t.issued == s.issued && |t.calls| == |s.calls| && SameTraffic(s, t)
            && (forall d | 0 <= d < |s.calls| ::
                  && t.calls[d].number == s.calls[d].number && t.calls[d].id == s.calls[d].id
                  && (d != c ==> t.calls[d].phase == s.calls[d].phase && (t.calls[d].slot.NoSlot? <==> s.calls[d].slot.NoSlot?)))
            && (s.waiters.None? ==> !Live(t.calls[c].phase) && t.calls[c].slot == s.calls[c].slot)
            && (s.waiters.Some? ==> !t.calls[c].slot.NoSlot? && Lookup(t.waiters, s.calls[c].id) == Some(c))
            && (forall id {:trigger Lookup(t.waiters, id)} ::
                  Lookup(t.waiters, id) in {None, Lookup(s.waiters, id)} || (id == s.calls[c].id && Lookup(t.waiters, id) == Some(c)))
  {
    EarlySlot(s, c);
  }

  lemma EnqueueKeeps(s: State, c: nat)
    requires Numbered(s) && Flying(s) && Own(s) && Mapped(s) && c < |s.calls| && CanAct(s, c, Enqueue)
    ensures Numbered(DoAct(s, c, Enqueue)) && Flying(DoAct(s, c, Enqueue)) && Own(DoAct(s, c, Enqueue))
  {
    hide Masked;
    hide Counter;
    var t := DoAct(s, c, Enqueue);
    assert forall d: nat | InFlight(t, d) :: InFlight(s, d) || d == c;
  }

  lemma ReadDrains(s: State, t: State)
    requires s.inbound != [] && t.queue == s.queue && t.unanswered == s.unanswered && t.inbound == s.inbound[1..]
    ensures Drains(s, t)
  {
    forall c: nat | Answering(t.inbound, c)
      ensures Answering(s.inbound, c)
    {
      var i :| 0 <= i < |t.inbound| && t.inbound[i].origin == Some(c);
      assert s.inbound[i + 1].origin == Some(c);
    }
  }

  lemma RespondDrains(s: State, c: nat)
    requires Can(s, Respond(c))
    ensures Drains(s, Do(s, Respond(c)))
  {
    var t := Do(s, Respond(c));
    forall d: nat | Answering(t.inbound, d)
      ensures Answering(s.inbound, d) || d == c
    {
      var i :| 0 <= i < |t.inbound| && t.inbound[i].origin == Some(d);
    }
  }

  lemma IntrudeDrains(s: State, id: int)
    ensures Drains(s, Do(s, Intrude(id)))
  {
    var t := Do(s, Intrude(id));
    forall d: nat | Answering(t.inbound, d)
      ensures Answering(s.inbound, d)
    {
      var i :| 0 <= i < |t.inbound| && t.inbound[i].origin == Some(d);
    }
  }

  /** Every step keeps the numbering, the flight records and the table's ownership. */
  lemma StepKeeps(s: State, step: Step)
    requires Numbered(s) && Flying(s) && Own(s) && Mapped(s) && Fresh(s) && Can(s, step)
    ensures Numbered(Do(s, step)) && Flying(Do(s, step)) && Own(Do(s, step))
  {
    hide Numbered;
    hide Flying;
    hide Own;
    hide Mapped;
    hide Fresh;
    hide DoAct;
    hide CanAct;
    hide Take;
    hide CloseAll;
    var t := Do(s, step);
    match step
    case Begin => AppendKeeps(s, -1);
    case ReauthCall => AppendKeeps(s, s.exclusive.value);
    case By(c, act) =>
      match act {
        case Allocate => AllocateKeeps(s, c);
        case Register => RegisterKeeps(s, c);
        case Enqueue => EnqueueKeeps(s, c);
        case _ =>
          ActQuiet(s, c, act);
          SameTrafficDrains(s, t);
          QuietKeeps(s, t);
      }
    case Read =>
      TakeQuiet(s, s.inbound[0].id, Some(Frame(s.inbound[0].origin)));
      ReadDrains(s, t);
      QuietKeeps(s, t);
    case WriterCloses =>
      CloseQuiet(s);
      QuietKeeps(s, t);
    case ReaderCloses =>
      CloseQuiet(s);
      QuietKeeps(s, t);
    case Close =>
      CloseQuiet(s);
      QuietKeeps(s, t);
    case Respond(c) =>
      RespondDrains(s, c);
      QuietKeeps(s, t);
    case Intrude(id) =>
      IntrudeDrains(s, id);
      QuietKeeps(s, t);
    case _ => QuietKeeps(s, t);
  }

  // --------------------------------------------------------------------- deliveries

  lemma TakeDelivered(s: State, id: int, d: Option<Delivery>)
    requires Mapped(s) && Delivered(s)
    requires d.Some? ==> d.value.Frame?
    requires d.Some? && d.value.origin.Some? && Lookup(s.waiters, id).Some? ==> d.value.origin == Lookup(s.waiters, id)
    ensures Delivered(Take(s, id, d))
  {
  }

  lemma CloseDelivered(s: State)
    requires Mapped(s) && Delivered(s)
    ensures Delivered(CloseAll(s))
  {
    forall c | 0 <= c < |s.calls|
      ensures c in Listed(s.waiters) <==> s.calls[c].slot.Open?
    {
      DrainedIffOpen(s, c);
    }
  }

  lemma ActDelivered(s: State, c: nat, act: Act)
    requires Mapped(s) && Delivered(s) && c < |s.calls| && CanAct(s, c, act)
    ensures Delivered(DoAct(s, c, act))
  {
    hide Take;
    if act.EnqueueFails? || act.TakeBack? {
      TakeDelivered(s, s.calls[c].id, None);
    }
  }

  /** The frame at the head of the socket finds its own call's waiter or none. */
  lemma HeadFindsOwn(s: State)
    requires Numbered(s) && Flying(s) && Own(s) && s.inbound != [] && s.inbound[0].origin.Some?
    ensures Lookup(s.waiters, s.inbound[0].id) in {None, s.inbound[0].origin}
  {
    var o := s.inbound[0].origin.value;
    assert Answering(s.inbound, o);
    assert InFlight(s, o) && Outstanding(s, o);
  }

  lemma StepDelivered(s: State, step: Step)
    requires Numbered(s) && Flying(s) && Own(s) && Mapped(s) && Delivered(s) && Can(s, step)
    ensures Delivered(Do(s, step))
  {
    hide Numbered;
    hide Flying;
    hide Own;
    hide Mapped;
    hide DoAct;
    hide CanAct;
    hide Take;
    hide CloseAll;
    match step
    case By(c, act) => ActDelivered(s, c, act);
    case Read =>
      if s.inbound[0].origin.Some? {
        HeadFindsOwn(s);
      }
      TakeDelivered(s, s.inbound[0].id, Some(Frame(s.inbound[0].origin)));
    case WriterCloses => CloseDelivered(s);
    case ReaderCloses => CloseDelivered(s);
    case Close => CloseDelivered(s);
    case _ =>
  }

  // ---------------------------------------------------------------------- whole runs

  lemma {:induction false} RunDelivers(states: seq<State>, steps: seq<Step>, limit: nat, n: nat)
    requires Starts(states, steps, limit) && n < |states|
    requires forall m | 0 <= m < n :: Fresh(states[m])
    ensures Mapped(states[n]) && Numbered(states[n]) && Flying(states[n]) && Own(states[n]) && Delivered(states[n])
  {
    if n > 0 {
      RunDelivers(states, steps, limit, n - 1);
      StepMapped(states[n - 1], steps[n - 1]);
      StepKeeps(states[n - 1], steps[n - 1]);
      StepDelivered(states[n - 1], steps[n - 1]);
    }
  }

  /** In every run in which fewer than 2^31 requests are issued while any response
      is outstanding, a caller that returns a frame returns the answer to its own
      request or one that answers none: an answer to a call that was cancelled or
      timed out reaches nobody. */
  lemma FramesReachTheirOwn(states: seq<State>, steps: seq<Step>, limit: nat, n: nat, c: nat, o: nat)
    requires Starts(states, steps, limit) && n < |states|
    requires forall m | 0 <= m < n :: Fresh(states[m])
    requires c < |states[n].calls| && states[n].calls[c].phase == Finished(Got(Frame(Some(o))))
    ensures o == c
  {
    RunDelivers(states, steps, limit, n);
  }

  /** In every run, the answer to a call still registered is handed to that call. */
  lemma AnswersArrive(states: seq<State>, steps: seq<Step>, limit: nat, n: nat, c: nat)
    requires Starts(states, steps, limit) && n < |steps| && steps[n] == Read
    requires forall m | 0 <= m < n :: Fresh(states[m])
    requires states[n].inbound[0].origin == Some(c)
    ensures c < |states[n].calls| && c < |states[n + 1].calls|
    ensures states[n].calls[c].slot.Open? && (states[n].calls[c].phase.Registered? || states[n].calls[c].phase.Waiting?) ==>
              states[n + 1].calls[c].slot == Sent(Frame(Some(c)))
  {
    RunDelivers(states, steps, limit, n);
  }

  /** In every run, a registered caller whose answer is read returns that answer when it
      receives, however long that takes. */
  lemma AnswersReturned(states: seq<State>, steps: seq<Step>, limit: nat, n: nat, m: nat, c: nat)
    requires Starts(states, steps, limit) && n < m < |steps| && steps[n] == Read && steps[m] == By(c, Receive)
    requires forall i | 0 <= i < n :: Fresh(states[i])
    requires states[n].inbound[0].origin == Some(c) && c < |states[n].calls| && states[n].calls[c].slot.Open?
    requires states[n].calls[c].phase.Registered? || states[n].calls[c].phase.Waiting?
    ensures c < |states[m + 1].calls| && states[m + 1].calls[c].phase == Finished(Got(Frame(Some(c))))
  {
    AnswersArrive(states, steps, limit, n, c);
    ResolvedForever(states, steps, limit, n + 1, m, c);
    CallEnds(states, steps, limit, m, c, Receive);
  }

  /** Every frame delivered answers some request, and every answer on its way too. */
  ghost predicate Solicited(s: State) {
    && (forall a <- s.inbound :: a.origin.Some?)
    && (forall c | 0 <= c < |s.calls| && s.calls[c].slot.Sent? && s.calls[c].slot.delivery.Frame? ::
          s.calls[c].slot.delivery.origin.Some?)
  }

  lemma StepSolicited(s: State, step: Step)
    requires Solicited(s) && Can(s, step) && !step.Intrude?
    ensures Solicited(Do(s, step))
  {
    hide Busy;
    match step
    case By(c, act) => ActSolicited(s, c, act);
    case Read =>
      TakeSolicited(s, s.inbound[0].id, Some(Frame(s.inbound[0].origin)));
    case _ =>
  }

  lemma TakeSolicited(s: State, id: int, d: Option<Delivery>)
    requires Solicited(s) && (d.Some? && d.value.Frame? ==> d.value.origin.Some?)
    ensures Solicited(Take(s, id, d))
  {
  }

  lemma ActSolicited(s: State, c: nat, act: Act)
    requires Solicited(s) && c < |s.calls| && CanAct(s, c, act)
    ensures Solicited(DoAct(s, c, act))
  {
    hide Take;
    TakeSolicited(s, s.calls[c].id, None);
  }

  lemma {:induction false} RunSolicited(states: seq<State>, steps: seq<Step>, limit: nat, n: nat)
    requires Starts(states, steps, limit) && n < |states|
    requires forall m | 0 <= m < n :: !steps[m].Intrude?
    ensures Solicited(states[n])
  {
    if n > 0 {
      RunSolicited(states, steps, limit, n - 1);
      StepSolicited(states[n - 1], steps[n - 1]);
    }
  }

  /** With a broker that only answers what it was asked, every frame a caller
      returns is the answer to its own request. */
  lemma HonestBrokerExact(states: seq<State>, steps: seq<Step>, limit: nat, n: nat, c: nat, d: Delivery)
    requires Starts(states, steps, limit) && n < |states|
    requires forall m | 0 <= m < n :: Fresh(states[m]) && !steps[m].Intrude?
    requires c < |states[n].calls| && states[n].calls[c].phase == Finished(Got(d))
    ensures d in {Frame(Some(c)), ConnectionClosed}
  {
    RunDelivers(states, steps, limit, n);
    RunSolicited(states, steps, limit, n);
  }
}
