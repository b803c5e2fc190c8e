/** Where a broker cuts its pages does not matter. */
module PageCuts {
  import opened Options
  import opened Counting
  import opened Reask
  import opened Pages

  /** What the broker knows of one topic: one error, or a list of partitions. */
  datatype Topic =
    | Failed(name: string, code: Code)
    | Described(name: string, id: int, internal: bool, partitions: seq<WirePartition>)

  /** What the caller should see of it. */
  ghost function Seen(t: Topic): (string, Outcome<TopicInfo>) {
    match t
    case Failed(name, code) => (name, Err(Coded(code)))
    case Described(name, id, internal, partitions) => (name, Ok(TopicInfo(name, id, internal, Infos(partitions))))
  }

  /** The list nobody cut. */
  ghost function Unpaginated(topics: seq<Topic>): (r: PerItem<string, TopicInfo>)
    ensures |r| == |topics|
  {
    seq(|topics|, i requires 0 <= i < |topics| => Seen(topics[i]))
  }

  /** The partitions of consecutive entries, put together. */
  ghost function Joined(parts: seq<Part>): seq<WirePartition> {
    if parts == [] then [] else Joined(parts[..|parts| - 1]) + parts[|parts| - 1].partitions
  }

  /** The entry is about this topic; one without a name is about the empty name. */
  ghost predicate Names(p: Part, name: string) {
    p.wireName == Some(name) || (p.wireName == None && name == "")
  }

  /** `parts` are entries that together tell of `t`: its one error, or its partition
      list cut anywhere, empty pieces allowed. */
  ghost predicate Tells(t: Topic, parts: seq<Part>) {
    && parts != [] && (forall p <- parts :: Names(p, t.name))
    && match t
       case Failed(_, code) => |parts| == 1 && parts[0].error == Some(code)
       case Described(_, id, internal, partitions) =>
         && parts[0].id == id && parts[0].internal == internal
         && (forall p <- parts :: p.error.None?) && Joined(parts) == partitions
  }

  /** `flat` tells of the topics one after the other. */
  ghost predicate Cut(topics: seq<Topic>, flat: seq<Part>) {
    if topics == [] then flat == []
    else exists k | 0 <= k < |flat| :: Cut(topics[..|topics| - 1], flat[..k]) && Tells(topics[|topics| - 1], flat[k..])
  }

  ghost predicate Distinct(topics: seq<Topic>) {
    forall i, j | 0 <= i < j < |topics| :: topics[i].name != topics[j].name
  }

  // ------------------------------------------------------------------ what is gathered

  ghost function NamesOf(topics: seq<Topic>): (r: seq<string>)
    ensures |r| == |topics|
  {
    seq(|topics|, i requires 0 <= i < |topics| => topics[i].name)
  }

  ghost function Errors(topics: seq<Topic>): PerItem<string, TopicInfo> {
    if topics == [] then []
    else
      var last := topics[|topics| - 1];
      Errors(topics[..|topics| - 1]) + if last.Failed? then [Seen(last)] else []
  }

  ghost predicate Gathers(topics: seq<Topic>, g: Gathered) {
    && g.order == NamesOf(topics) && g.merged == Errors(topics)
    && Holds(topics, g.partial)
  }

  /** The map holds exactly the topics that were described. */
  ghost predicate Holds(topics: seq<Topic>, partial: map<string, TopicInfo>) {
    && (forall i | 0 <= i < |topics| && topics[i].Described? :: topics[i].name in partial && Ok(partial[topics[i].name]) == Seen(topics[i]).1)
    && (forall name <- partial :: exists i :: 0 <= i < |topics| && topics[i].Described? && topics[i].name == name)
  }

  lemma InfosAppend(a: seq<WirePartition>, b: seq<WirePartition>)
    ensures Infos(a + b) == Infos(a) + Infos(b)
  {
  }

  /** The pieces of one new topic end up as that topic. */
  lemma {:induction false} AbsorbPieces(g: Gathered, parts: seq<Part>, name: string)
    requires parts != [] && name !in g.partial
    requires forall p <- parts :: NameOf(p) == name && p.error.None?
    ensures AbsorbAll(g, parts)
         == g.(order := g.order + [name],
               partial := g.partial[name := TopicInfo(name, parts[0].id, parts[0].internal, Infos(Joined(parts)))])
  {
    var init, last := parts[..|parts| - 1], parts[|parts| - 1];
    if init == [] {
      assert AbsorbAll(g, init) == g;
      assert Joined(init) == [] && Joined(parts) == last.partitions;
    } else {
      AbsorbPieces(g, init, name);
      InfosAppend(Joined(init), last.partitions);
    }
  }

  lemma AbsorbTopic(topics: seq<Topic>, g: Gathered, t: Topic, parts: seq<Part>)
    requires Gathers(topics, g) && Distinct(topics + [t]) && Tells(t, parts)
    ensures Gathers(topics + [t], AbsorbAll(g, parts))
  {
    var more := topics + [t];
    assert more[..|topics|] == topics && more[|topics|] == t;
    assert NamesOf(more) == NamesOf(topics) + [t.name];
    assert forall i | 0 <= i < |topics| :: more[i] == topics[i] && topics[i].name != t.name;
    assert t.name !in g.partial;
    if t.Failed? {
      assert parts[0] in parts && AbsorbAll(g, parts[..0]) == g;
      assert AbsorbAll(g, parts) == Absorb(g, parts[0]);
      FailedHolds(topics, g.partial, t);
    } else {
      AbsorbPieces(g, parts, t.name);
      DescribedHolds(topics, g.partial, t);
    }
  }

  lemma FailedHolds(topics: seq<Topic>, partial: map<string, TopicInfo>, t: Topic)
    requires Holds(topics, partial) && t.Failed?
    ensures Holds(topics + [t], partial)
  {
    forall name <- partial
      ensures exists i :: 0 <= i < |topics + [t]| && (topics + [t])[i].Described? && (topics + [t])[i].name == name
    {
      var i :| 0 <= i < |topics| && topics[i].Described? && topics[i].name == name;
      assert (topics + [t])[i] == topics[i];
    }
  }

  lemma DescribedHolds(topics: seq<Topic>, partial: map<string, TopicInfo>, t: Topic)
    requires Holds(topics, partial) && t.Described? && Distinct(topics + [t])
    ensures Holds(topics + [t], partial[t.name := Seen(t).1.value])
  {
    var more, held := topics + [t], partial[t.name := Seen(t).1.value];
    assert forall i | 0 <= i < |topics| :: more[i] == topics[i] && more[i].name != more[|topics|].name;
    forall name <- held
      ensures exists i :: 0 <= i < |more| && more[i].Described? && more[i].name == name
    {
      if name == t.name {
        assert more[|topics|] == t;
      } else {
        var i :| 0 <= i < |topics| && topics[i].Described? && topics[i].name == name;
        assert more[i] == topics[i];
      }
    }
  }

  lemma AbsorbNone()
    ensures Gathers([], AbsorbAll(NOTHING, []))
  {
  }

  lemma {:induction false} AbsorbCut(topics: seq<Topic>, flat: seq<Part>)
    requires Cut(topics, flat) && Distinct(topics)
    ensures Gathers(topics, AbsorbAll(NOTHING, flat))
  {
    hide AbsorbAll;
    hide Gathers;
    hide Tells;
    if topics == [] {
      AbsorbNone();
    } else {
      var init, last := topics[..|topics| - 1], topics[|topics| - 1];
      var k :| 0 <= k < |flat| && Cut(init, flat[..k]) && Tells(last, flat[k..]);
      AbsorbCut(init, flat[..k]);
      assert topics == init + [last] && flat == flat[..k] + flat[k..];
      AbsorbAppend(NOTHING, flat[..k], flat[k..]);
      AbsorbTopic(init, AbsorbAll(NOTHING, flat[..k]), last, flat[k..]);
    }
  }

  // -------------------------------------------------------------------- what is emitted

  /** The errors still to be emitted, in whatever order removals left them. */
  ghost predicate Remain(topics: seq<Topic>, merged: PerItem<string, TopicInfo>) {
    multiset(merged) == multiset(Errors(topics))
  }

  lemma {:induction false} ErrorsMembers(topics: seq<Topic>, e: (string, Outcome<TopicInfo>))
    ensures e in Errors(topics) <==> exists i :: 0 <= i < |topics| && topics[i].Failed? && Seen(topics[i]) == e
  {
    if topics != [] {
      var init, last := topics[..|topics| - 1], topics[|topics| - 1];
      ErrorsMembers(init, e);
      if e in Errors(init) {
        var i :| 0 <= i < |init| && init[i].Failed? && Seen(init[i]) == e;
        assert topics[i] == init[i];
      }
      if i :| 0 <= i < |topics| && topics[i].Failed? && Seen(topics[i]) == e {
        if i < |init| {
          assert init[i] == topics[i];
        }
      }
    }
  }

  lemma {:induction false} ErrorsTail(topics: seq<Topic>)
    requires topics != []
    ensures Errors(topics) == (if topics[0].Failed? then [Seen(topics[0])] else []) + Errors(topics[1..])
  {
    var last := |topics| - 1;
    if last > 0 {
      ErrorsTail(topics[..last]);
      assert topics[..last][1..] == topics[1..][..last - 1];
    }
  }

  /** The entry found by name is the topic's own. */
  lemma FindsOwn(topics: seq<Topic>, merged: PerItem<string, TopicInfo>)
    requires topics != [] && Distinct(topics) && topics[0].Failed? && Remain(topics, merged)
    ensures Position(merged, topics[0].name).Some?
    ensures merged[Position(merged, topics[0].name).value] == Seen(topics[0])
  {
    var own := Seen(topics[0]);
    ErrorsMembers(topics, own);
    assert own in multiset(merged);
    var at :| 0 <= at < |merged| && merged[at] == own;
    var i := Position(merged, topics[0].name).value;
    assert merged[i] in multiset(merged);
    ErrorsMembers(topics, merged[i]);
    var j :| 0 <= j < |topics| && topics[j].Failed? && Seen(topics[j]) == merged[i];
    assert j == 0;
  }

  lemma RemainTail(topics: seq<Topic>, merged: PerItem<string, TopicInfo>) returns (i: nat)
    requires topics != [] && Distinct(topics) && topics[0].Failed? && Remain(topics, merged)
    ensures Position(merged, topics[0].name) == Some(i) && i < |merged| && merged[i] == Seen(topics[0])
    ensures Remain(topics[1..], SwapRemoved(merged, i))
  {
    hide Position;
    FindsOwn(topics, merged);
    i := Position(merged, topics[0].name).value;
    ErrorsTail(topics);
    assert multiset(Errors(topics)) == multiset{Seen(topics[0])} + multiset(Errors(topics[1..]));
    Cancel(multiset(SwapRemoved(merged, i)), multiset(Errors(topics[1..])), Seen(topics[0]));
    Cancel(multiset(Errors(topics[1..])), multiset(SwapRemoved(merged, i)), Seen(topics[0]));
  }

  lemma UnpaginatedTail(topics: seq<Topic>)
    requires topics != []
    ensures NamesOf(topics) == [topics[0].name] + NamesOf(topics[1..])
    ensures Unpaginated(topics) == [Seen(topics[0])] + Unpaginated(topics[1..])
    ensures Distinct(topics) ==> Distinct(topics[1..])
  {
    assert forall i | 0 <= i < |topics| - 1 :: topics[1..][i] == topics[i + 1];
  }

  lemma {:induction false} EmitAllTopics(topics: seq<Topic>, partial: map<string, TopicInfo>, merged: PerItem<string, TopicInfo>)
    requires Distinct(topics) && Holds(topics, partial) && Remain(topics, merged)
    ensures Emit(NamesOf(topics), partial, merged) == Unpaginated(topics)
  {
    hide Position;
    hide SwapRemoved;
    hide Remain;
    hide Distinct;
    hide Holds;
    hide NamesOf;
    hide Unpaginated;
    if topics == [] {
      Empty();
    } else {
      var first, rest := topics[0], topics[1..];
      UnpaginatedTail(topics);
      HoldsHead(topics, partial);
      HoldsTail(topics, partial);
      if first.Failed? {
        var i := RemainTail(topics, merged);
        EmitAllTopics(rest, partial, SwapRemoved(merged, i));
      } else {
        RemainSame(topics, merged);
        EmitAllTopics(rest, partial - {first.name}, merged);
      }
    }
  }

  lemma Empty()
    ensures NamesOf([]) == [] && Unpaginated([]) == []
  {
  }

  lemma RemainSame(topics: seq<Topic>, merged: PerItem<string, TopicInfo>)
    requires topics != [] && topics[0].Described? && Remain(topics, merged)
    ensures Remain(topics[1..], merged)
  {
    ErrorsTail(topics);
  }

  lemma HoldsHead(topics: seq<Topic>, partial: map<string, TopicInfo>)
    requires topics != [] && Distinct(topics) && Holds(topics, partial)
    ensures topics[0].Failed? ==> topics[0].name !in partial
    ensures topics[0].Described? ==> topics[0].name in partial && (topics[0].name, Ok(partial[topics[0].name])) == Seen(topics[0])
  {
  }

  lemma HoldsTail(topics: seq<Topic>, partial: map<string, TopicInfo>)
    requires topics != [] && Distinct(topics) && Holds(topics, partial)
    ensures Holds(topics[1..], if topics[0].Failed? then partial else partial - {topics[0].name})
  {
    var rest, left := topics[1..], if topics[0].Failed? then partial else partial - {topics[0].name};
    forall name <- left
      ensures exists i :: 0 <= i < |rest| && rest[i].Described? && rest[i].name == name
    {
      var i :| 0 <= i < |topics| && topics[i].Described? && topics[i].name == name;
      assert rest[i - 1] == topics[i];
    }
  }

  /** A partition as the caller sees it: its own number, epoch, replicas, in-sync and
      offline replicas and error, and its leader unless that is negative. */
  ghost predicate Shows(p: WirePartition, info: PartitionInfo) {
    && info.partition == p.index && info.epoch == p.epoch && info.error == p.error
    && info.replicas == p.replicas && info.isr == p.isr && info.offline == p.offline
    && (if p.leader >= 0 then info.leader == Some(p.leader) else info.leader == None)
  }

  /** A topic as the caller sees it. */
  ghost predicate ShowsTopic(t: Topic, e: (string, Outcome<TopicInfo>)) {
    && e.0 == t.name
    && match t
       case Failed(_, code) => e.1 == Err(Coded(code))
       case Described(name, id, internal, partitions) =>
         && e.1.Ok? && e.1.value.name == name && e.1.value.id == id && e.1.value.internal == internal
         && |e.1.value.partitions| == |partitions|
         && forall i | 0 <= i < |partitions| :: Shows(partitions[i], e.1.value.partitions[i])
  }

  /** The uncut list shows every topic, in order, as the broker knows it. */
  lemma UnpaginatedShows(topics: seq<Topic>, j: nat)
    requires j < |topics|
    ensures |Unpaginated(topics)| == |topics| && ShowsTopic(topics[j], Unpaginated(topics)[j])
  {
  }

  /** For every way to cut an ordered list of distinct topics into entries, and the
      entries into pages, the merged result is the list nobody cut: same topics in
      the same order, every partition once and in order. */
  lemma CutsDoNotMatter(topics: seq<Topic>, pages: seq<Response>)
    requires Distinct(topics) && Cut(topics, Flat(pages))
    ensures Merged(Flat(pages)) == Unpaginated(topics)
    ensures |Merged(Flat(pages))| == |topics|
    ensures forall j | 0 <= j < |topics| :: ShowsTopic(topics[j], Merged(Flat(pages))[j])
  {
    hide ShowsTopic;
    hide Unpaginated;
    forall j | 0 <= j < |topics| ensures ShowsTopic(topics[j], Unpaginated(topics)[j]) {
      UnpaginatedShows(topics, j);
    }
    AbsorbCut(topics, Flat(pages));
    var g := AbsorbAll(NOTHING, Flat(pages));
    EmitAllTopics(topics, g.partial, g.merged);
  }

  /** The whole call: whatever pages the brokers cut an ordered list of distinct topics
      into, the caller gets the list nobody cut, and nothing when a request fails. */
  method DescribeTopics(brokers: Brokers, ghost topics: seq<Topic>, ghost pages: seq<Response>, ghost complete: bool)
    returns (out: Option<PerItem<string, TopicInfo>>)
    requires Follows(brokers, 0, None, pages, complete)
    requires complete ==> Distinct(topics) && Cut(topics, Flat(pages))
    ensures out == if complete then Some(Unpaginated(topics)) else None
    ensures complete ==>
              && |out.value| == |topics|
              && forall j | 0 <= j < |topics| :: ShowsTopic(topics[j], out.value[j])
  {
    hide ShowsTopic;
    hide Unpaginated;
    out := DescribePaginated(brokers, pages, complete);
    if complete {
      CutsDoNotMatter(topics, pages);
    }
  }
}
