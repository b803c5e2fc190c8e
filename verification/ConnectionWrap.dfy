/** The 2^31 bound on correct delivery is exact: one request more, and a late
    answer reaches somebody else. */
module ConnectionWrap {
  import opened Options
  import opened Pending
  import opened Connection

  ghost predicate Reaches(s: State, t: State) {
    exists states, steps :: Run(states, steps) && states[0] == s && states[|steps|] == t
  }

  lemma Standing(s: State)
    ensures Reaches(s, s)
  {
    assert Run([s], []);
  }

  lemma OneStep(s: State, step: Step)
    requires Can(s, step)
    ensures Reaches(s, Do(s, step))
  {
    assert Run([s, Do(s, step)], [step]);
  }

  lemma Joined(r: State, s: State, t: State)
    requires Reaches(r, s) && Reaches(s, t)
    ensures Reaches(r, t)
  {
    hide Can;
    hide Do;
    var states, steps :| Run(states, steps) && states[0] == r && states[|steps|] == s;
    var more, further :| Run(more, further) && more[0] == s && more[|further|] == t;
    Spliced(states, steps, more, further);
  }

  lemma Spliced(states: seq<State>, steps: seq<Step>, more: seq<State>, further: seq<Step>)
    requires Run(states, steps) && Run(more, further) && more[0] == states[|steps|]
    ensures Run(states + more[1..], steps + further)
  {
    hide Can;
    hide Do;
    var whole, all := states + more[1..], steps + further;
    forall n | 0 <= n < |all|
      ensures Can(whole[n], all[n]) && whole[n + 1] == Do(whole[n], all[n])
    {
      if n < |steps| {
        assert whole[n] == states[n] && all[n] == steps[n];
      } else {
        assert whole[n] == more[n - |steps|] && all[n] == further[n - |steps|];
      }
    }
  }

  lemma Then(r: State, s: State, step: Step)
    requires Reaches(r, s) && Can(s, step)
    ensures Reaches(r, Do(s, step))
  {
    hide *;
    OneStep(s, step);
    Joined(r, s, Do(s, step));
  }

  /** The call that just began takes an id. */
  ghost function Started(s: State): (t: State)
    requires s.exclusive.None?
    ensures t == s.(calls := s.calls + [Call(-1, s.issued, Masked(s.counter), Allocated, NoSlot)],
                    issued := s.issued + 1, counter := Increment(s.counter))
    ensures Reaches(s, t)
  {
    hide Reaches;
    var begun := Do(s, Begin);
    OneStep(s, Begin);
    Then(s, begun, By(|s.calls|, Allocate));
    Do(begun, By(|s.calls|, Allocate))
  }

  /** One more call takes an id and fails before it is sent. */
  ghost function Skipped(s: State): (t: State)
    requires s.exclusive.None?
    ensures t == s.(calls := s.calls + [Call(-1, s.issued, Masked(s.counter), Finished(TimedOut), NoSlot)],
                    issued := s.issued + 1, counter := Increment(s.counter))
    ensures Reaches(s, t)
  {
    hide Reaches;
    var c := |s.calls|;
    Then(s, Started(s), By(c, AcquireTimeout));
    Do(Started(s), By(c, AcquireTimeout))
  }

  lemma {:induction false} SkipMany(s: State, k: nat) returns (t: State)
    requires s.exclusive.None? && s.counter == Counter(s.issued)
    ensures Reaches(s, t)
    ensures s.calls <= t.calls && |t.calls| == |s.calls| + k
    ensures t == s.(calls := t.calls, issued := s.issued + k, counter := Counter(s.issued + k))
  {
    hide Reaches;
    hide Masked;
    if k == 0 {
      t := s;
      Standing(s);
    } else {
      var prior := SkipMany(s, k - 1);
      t := Skipped(prior);
      Joined(s, prior, t);
    }
  }

  /** A call goes through with its id to the channel. */
  ghost function Queued(s: State): (t: State)
    requires s.exclusive.None? && s.permits > 0 && s.limit > 0
    requires s.waiters == Some(map[]) && s.queue == [] && s.writer.Running?
    ensures t == s.(calls := s.calls + [Call(-1, s.issued, Masked(s.counter), Waiting, Open)],
                    issued := s.issued + 1, counter := Increment(s.counter), permits := s.permits - 1,
                    waiters := Some(map[Masked(s.counter) := |s.calls|]),
                    queue := [|s.calls|], log := s.log + [|s.calls|])
    ensures Reaches(s, t)
  {
    hide Reaches;
    var c := |s.calls|;
    var begun := Started(s);
    Then(s, begun, By(c, Acquire));
    var permitted := Do(begun, By(c, Acquire));
    Then(s, permitted, By(c, Act.Register));
    var registered := Do(permitted, By(c, Act.Register));
    Then(s, registered, By(c, Enqueue));
    Do(registered, By(c, Enqueue))
  }

  /** The only call there is gives up on its answer. */
  lemma GivesUp(s: State)
    requires |s.calls| == 1 && s.calls[0].phase.Waiting? && s.calls[0].slot.Open?
    requires s.waiters == Some(map[s.calls[0].id := 0])
    ensures Can(s, By(0, Timeout)) && Can(Do(s, By(0, Timeout)), By(0, TakeBack))
    ensures var t := Do(Do(s, By(0, Timeout)), By(0, TakeBack));
            && Reaches(s, t)
            && t == s.(calls := [s.calls[0].(phase := Finished(TimedOut), slot := Dropped)],
                       permits := s.permits + 1, waiters := Some(map[]))
  {
    hide Reaches;
    OneStep(s, By(0, Timeout));
    Then(s, Do(s, By(0, Timeout)), By(0, TakeBack));
  }

  /** The first call has sent its request and given up on it. */
  lemma Abandoned(limit: nat) returns (s: State)
    requires limit > 0
    ensures Reaches(Init(limit), s)
    ensures s == Init(limit).(calls := [Call(-1, 0, Masked(Counter(0)), Finished(TimedOut), Dropped)],
                              issued := 1, counter := Increment(Counter(0)), log := [0], wire := [0], unanswered := {0})
  {
    hide Reaches;
    hide Masked;
    hide Counter;
    hide Increment;
    var start := Init(limit);
    var queued := Queued(start);
    Then(start, queued, Write);
    GivesUp(Do(queued, Write));
    s := Do(Do(Do(queued, Write), By(0, Timeout)), By(0, TakeBack));
    Joined(start, Do(queued, Write), s);
  }

  /** A call whose id is the one the broker still owes an answer under. */
  lemma Confused(s: State) returns (t: State)
    requires s.exclusive.None? && s.calls != [] && s.permits > 0 && s.limit > 0
    requires s.waiters == Some(map[]) && s.queue == [] && s.inbound == [] && s.unanswered == {0}
    requires s.writer.Running? && s.reader.Running?
    requires Masked(s.counter) == s.calls[0].id
    ensures Reaches(s, t) && |t.calls| == |s.calls| + 1 && t.issued == s.issued + 1
    ensures t.calls[|s.calls|].phase == Finished(Got(Frame(Some(0))))
  {
    hide Reaches;
    hide Masked;
    var c := |s.calls|;
    var queued := Queued(s);
    Then(s, queued, Respond(0));
    var answered := Do(queued, Respond(0));
    Then(s, answered, Read);
    var read := Do(answered, Read);
    Then(s, read, By(c, Receive));
    t := Do(read, By(c, Receive));
  }

  /** Some run issues just one request too many while an answer is outstanding, and
      the answer to call 0 is returned by another. */
  lemma OneTooManyMisdelivers(limit: nat)
    requires limit > 0
    ensures exists states: seq<State>, steps: seq<Step> ::
              && Starts(states, steps, limit)
              && states[|steps|].issued == CYCLE + 1 && |states[|steps|].calls| == CYCLE + 1
              && states[|steps|].calls[CYCLE].phase == Finished(Got(Frame(Some(0))))
  {
    var s := Abandoned(limit);
    var later := SkipMany(s, CYCLE - 1);
    Joined(Init(limit), s, later);
    SameAfterCycle(0);
    var t := Confused(later);
    Joined(Init(limit), later, t);
  }
}
