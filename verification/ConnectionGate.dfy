/** Re-authentication never interleaves with ordinary traffic on the wire. */
module ConnectionGate {
  import opened Options
  import opened Pending
  import opened Connection

  // ---------------------------------------------------------------------- the gate

  /** Every live ordinary call keeps the gate open, and the only live calls while
      a session holds it exclusively are that session's own. */
  ghost predicate Gatekept(s: State) {
    && (s.exclusive.Some? ==> 0 <= s.exclusive.value < s.sessions)
    && forall c | 0 <= c < |s.calls| ::
         && -1 <= s.calls[c].session < s.sessions
         && (Live(s.calls[c].phase) ==>
               s.exclusive == if s.calls[c].session < 0 then None else Some(s.calls[c].session))
  }

  /** No step changes which session a call belongs to, or revives a call. */
  ghost predicate Continues(s: State, t: State) {
    && |s.calls| <= |t.calls|
    && forall c | 0 <= c < |s.calls| ::
         && t.calls[c].session == s.calls[c].session
         && (Live(t.calls[c].phase) ==> Live(s.calls[c].phase))
  }

  ghost predicate SameChannel(s: State, t: State) {
    && t.exclusive == s.exclusive && t.sessions == s.sessions
    && t.log == s.log && t.wire == s.wire && t.queue == s.queue && t.writer == s.writer
  }

  lemma TakeContinues(s: State, id: int, d: Option<Delivery>)
    ensures Continues(s, Take(s, id, d))
    ensures SameChannel(s, Take(s, id, d))
  {
  }

  lemma ActContinues(s: State, c: nat, act: Act)
    requires c < |s.calls| && CanAct(s, c, act)
    ensures Continues(s, DoAct(s, c, act)) && |DoAct(s, c, act).calls| == |s.calls|
    ensures SameChannel(if act.Enqueue? then s.(log := s.log + [c], queue := s.queue + [c]) else s, DoAct(s, c, act))
  {
    hide Take;
    TakeContinues(s, s.calls[c].id, None);
  }

  lemma StepContinues(s: State, step: Step)
    requires Can(s, step)
    ensures Continues(s, Do(s, step))
  {
    hide Take;
    hide DoAct;
    match step
    case By(c, act) => ActContinues(s, c, act);
    case Read => TakeContinues(s, s.inbound[0].id, Some(Frame(s.inbound[0].origin)));
    case _ =>
  }

  lemma ContinuesGatekept(s: State, t: State)
    requires Gatekept(s) && Continues(s, t) && |t.calls| == |s.calls|
    requires t.exclusive == s.exclusive && t.sessions == s.sessions
    ensures Gatekept(t)
  {
  }

  lemma StepGatekept(s: State, step: Step)
    requires Gatekept(s) && Can(s, step)
    ensures Gatekept(Do(s, step))
  {
    hide Take;
    hide DoAct;
    StepContinues(s, step);
    match step
    case By(c, act) =>
      ActContinues(s, c, act);
      ContinuesGatekept(s, Do(s, step));
    case Read =>
      TakeContinues(s, s.inbound[0].id, Some(Frame(s.inbound[0].origin)));
      ContinuesGatekept(s, Do(s, step));
    case _ =>
  }

  // ------------------------------------------------------------------------ the log

  /** The sessions of the frames put into the channel, in order. */
  ghost function Tags(s: State, frames: seq<nat>): (r: seq<int>)
    requires forall i | 0 <= i < |frames| :: frames[i] < |s.calls|
    ensures |r| == |frames| && forall i | 0 <= i < |frames| :: r[i] == s.calls[frames[i]].session
  {
    seq(|frames|, i requires 0 <= i < |frames| => s.calls[frames[i]].session)
  }

  /** Between two frames of one re-authentication there are only its own. */
  ghost predicate Contiguous(tags: seq<int>) {
    forall i, j, k | 0 <= i < j < k < |tags| && tags[i] == tags[k] && tags[i] >= 0 :: tags[j] == tags[i]
  }

  /** Once `session` has sent something, nothing else follows. */
  ghost predicate EndsWith(tags: seq<int>, session: int) {
    forall j, k | 0 <= j < k < |tags| && tags[j] == session :: tags[k] == session
  }

  ghost predicate Logged(s: State) {
    && (forall i | 0 <= i < |s.log| :: s.log[i] < |s.calls|)
    && s.wire <= s.log && (s.writer.Running? ==> s.log == s.wire + s.queue)
    && (forall i | 0 <= i < |s.log| :: Tags(s, s.log)[i] < s.sessions)
    && Contiguous(Tags(s, s.log))
    && (s.exclusive.Some? ==> EndsWith(Tags(s, s.log), s.exclusive.value))
  }

  lemma TagsContinue(s: State, t: State)
    requires Continues(s, t) && forall i | 0 <= i < |s.log| :: s.log[i] < |s.calls|
    ensures Tags(t, s.log) == Tags(s, s.log)
  {
  }

  lemma AppendContiguous(tags: seq<int>, tag: int, exclusive: Option<int>)
    requires Contiguous(tags)
    requires exclusive.Some? ==> EndsWith(tags, exclusive.value)
    requires tag >= 0 ==> exclusive == Some(tag)
    requires tag < 0 ==> exclusive.None?
    ensures Contiguous(tags + [tag])
    ensures exclusive.Some? ==> EndsWith(tags + [tag], exclusive.value)
  {
  }

  lemma EnqueueLogged(s: State, c: nat)
    requires Gatekept(s) && Logged(s) && c < |s.calls| && CanAct(s, c, Enqueue)
    ensures Logged(DoAct(s, c, Enqueue))
  {
    var t := DoAct(s, c, Enqueue);
    ActContinues(s, c, Enqueue);
    TagsContinue(s, t);
    AppendContiguous(Tags(s, s.log), s.calls[c].session, s.exclusive);
    assert Tags(t, t.log) == Tags(s, s.log) + [s.calls[c].session];
  }

  /** Steps that leave the channel's history alone. */
  lemma QuietLogged(s: State, t: State)
    requires Logged(s) && Continues(s, t) && t.log == s.log && t.wire == s.wire
    requires t.exclusive == s.exclusive && t.sessions == s.sessions
    requires t.writer.Running? ==> s.writer.Running? && t.queue == s.queue
    ensures Logged(t)
  {
    TagsContinue(s, t);
  }

  lemma StepLogged(s: State, step: Step)
    requires Gatekept(s) && Logged(s) && Can(s, step)
    ensures Logged(Do(s, step))
  {
    hide Take;
    hide DoAct;
    hide CloseAll;
    var t := Do(s, step);
    StepContinues(s, step);
    TagsContinue(s, t);
    match step
    case By(c, act) =>
      ActContinues(s, c, act);
      if act.Enqueue? {
        EnqueueLogged(s, c);
      } else {
        QuietLogged(s, t);
      }
    case Read =>
      TakeContinues(s, s.inbound[0].id, Some(Frame(s.inbound[0].origin)));
      QuietLogged(s, t);
    case WriterCloses =>
      CloseQuiet(s);
      QuietLogged(s, t);
    case ReaderCloses =>
      CloseQuiet(s);
      QuietLogged(s, t);
    case Close =>
      CloseQuiet(s);
      QuietLogged(s, t);
    case ReauthBegin => assert forall i | 0 <= i < |s.log| :: Tags(s, s.log)[i] != s.sessions;
    case Write =>
      assert s.queue == [s.queue[0]] + s.queue[1..];
      assert s.wire + s.queue == s.wire + [s.queue[0]] + s.queue[1..];
    case _ => QuietOrEnd(s, step);
  }

  lemma CloseQuiet(s: State)
    ensures SameChannel(s, CloseAll(s))
  {
  }

  lemma QuietOrEnd(s: State, step: Step)
    requires Logged(s) && Can(s, step) && Continues(s, Do(s, step))
    requires step.Begin? || step.ReauthCall? || step.ReauthEnd? || step.WriteFails? || step.WriterStops? || step.WriterEnds?
             || step.Respond? || step.Intrude? || step.ReaderStops?
    ensures Logged(Do(s, step))
  {
    TagsContinue(s, Do(s, step));
  }

  // ------------------------------------------------------------------------- whole runs

  lemma {:induction false} RunLogged(states: seq<State>, steps: seq<Step>, limit: nat, n: nat)
    requires Starts(states, steps, limit) && n < |states|
    ensures Gatekept(states[n]) && Logged(states[n])
  {
    if n > 0 {
      RunLogged(states, steps, limit, n - 1);
      StepGatekept(states[n - 1], steps[n - 1]);
      StepLogged(states[n - 1], steps[n - 1]);
    }
  }

  /** In every run, what the writer has put on the socket never has a request of
      anybody else between two of one re-authentication, whatever was cancelled
      or timed out after it was queued. */
  lemma NeverInterleaves(states: seq<State>, steps: seq<Step>, limit: nat, n: nat)
    requires Starts(states, steps, limit) && n < |states|
    ensures forall i | 0 <= i < |states[n].wire| :: states[n].wire[i] < |states[n].calls|
    ensures Contiguous(Tags(states[n], states[n].wire))
  {
    RunLogged(states, steps, limit, n);
    var s := states[n];
    assert forall i | 0 <= i < |s.wire| :: s.wire[i] == s.log[i];
    assert forall i | 0 <= i < |s.wire| :: Tags(s, s.wire)[i] == Tags(s, s.log)[i];
  }

  /** In every run, while a re-authentication holds the gate, every ordinary call has
      returned or was dropped, and so has every call of another session. */
  lemma OthersAreDone(states: seq<State>, steps: seq<Step>, limit: nat, n: nat, c: nat)
    requires Starts(states, steps, limit) && n < |states| && c < |states[n].calls| && states[n].exclusive.Some?
    requires states[n].calls[c].session != states[n].exclusive.value
    ensures states[n].calls[c].phase.Finished? || states[n].calls[c].phase.Cancelled?
  {
    RunLogged(states, steps, limit, n);
  }
}
