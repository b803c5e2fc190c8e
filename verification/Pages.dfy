/** `describe_topics_paginated`: following the cursor and merging the pages. */
module Pages {
  import opened Options
  import opened Counting
  import opened Reask

  datatype Cursor = Cursor(topic: string, partition: int)

  datatype WirePartition = WirePartition(index: int, error: Option<Code>, leader: int, epoch: int, replicas: seq<int>, isr: seq<int>, offline: seq<int>)

  /** One topic's entry in one response. */
  datatype Part = Part(wireName: Option<string>, error: Option<Code>, id: int, internal: bool, partitions: seq<WirePartition>)

  datatype Response = Response(topics: seq<Part>, next: Option<Cursor>)

  datatype PartitionInfo = PartitionInfo(partition: int, leader: Option<int>, epoch: int, replicas: seq<int>, isr: seq<int>, offline: seq<int>, error: Option<Code>)

  datatype TopicInfo = TopicInfo(name: string, id: int, internal: bool, partitions: seq<PartitionInfo>)

  function NameOf(p: Part): string {
    if p.wireName.Some? then p.wireName.value else ""
  }

  function Info(p: WirePartition): PartitionInfo {
    PartitionInfo(p.index, if p.leader >= 0 then Some(p.leader) else None, p.epoch, p.replicas, p.isr, p.offline, p.error)
  }

  function Infos(ps: seq<WirePartition>): (r: seq<PartitionInfo>)
    ensures |r| == |ps|
  {
    seq(|ps|, i requires 0 <= i < |ps| => Info(ps[i]))
  }

  // -------------------------------------------------------------------- absorbing pages

  /** What has been gathered so far. */
  datatype Gathered = Gathered(partial: map<string, TopicInfo>, order: seq<string>, merged: PerItem<string, TopicInfo>)

  const NOTHING := Gathered(map[], [], [])

  function Absorb(g: Gathered, p: Part): Gathered {
    var name := NameOf(p);
    if p.error.Some? then
      g.(order := if name in g.order then g.order else g.order + [name],
         merged := g.merged + [(name, Err(Coded(p.error.value)))])
    else if name in g.partial then
      g.(partial := g.partial[name := g.partial[name].(partitions := g.partial[name].partitions + Infos(p.partitions))])
    else
      g.(order := g.order + [name], partial := g.partial[name := TopicInfo(name, p.id, p.internal, Infos(p.partitions))])
  }

  function AbsorbAll(g: Gathered, parts: seq<Part>): Gathered {
    if parts == [] then g else Absorb(AbsorbAll(g, parts[..|parts| - 1]), parts[|parts| - 1])
  }

  lemma {:induction false} AbsorbAppend(g: Gathered, a: seq<Part>, b: seq<Part>)
    ensures AbsorbAll(g, a + b) == AbsorbAll(AbsorbAll(g, a), b)
  {
    if b == [] {
      assert a + b == a;
    } else {
      assert (a + b)[..|a + b| - 1] == a + b[..|b| - 1];
      AbsorbAppend(g, a, b[..|b| - 1]);
    }
  }

  // --------------------------------------------------------------------- the final pass

  predicate At<T>(s: PerItem<string, T>, name: string, i: nat) {
    i < |s| && s[i].0 == name && forall j | 0 <= j < i :: s[j].0 != name
  }

  /** `iter().position` by name. */
  function Position<T>(s: PerItem<string, T>, name: string): (r: Option<nat>)
    ensures r.Some? ==> At(s, name, r.value)
    ensures r.None? ==> forall i | 0 <= i < |s| :: s[i].0 != name
  {
    if s == [] then None
    else
      var before := Position(s[..|s| - 1], name);
      if before.Some? then before
      else if s[|s| - 1].0 == name then Some(|s| - 1)
      else None
  }

  /** `swap_remove`: the last element fills the hole. */
  function SwapRemoved<E>(s: seq<E>, i: nat): (r: seq<E>)
    requires i < |s|
    ensures |r| == |s| - 1
    ensures multiset(s) == multiset(r) + multiset{s[i]}
  {
    var last := s[|s| - 1];
    assert s == s[..|s| - 1] + [last];
    if i == |s| - 1 then s[..i] else s[..|s| - 1][i := last]
  }

  function Emit(order: seq<string>, partial: map<string, TopicInfo>, merged: PerItem<string, TopicInfo>): PerItem<string, TopicInfo> {
    if order == [] then []
    else
      var name := order[0];
      if name in partial then [(name, Ok(partial[name]))] + Emit(order[1..], partial - {name}, merged)
      else
        match Position(merged, name)
        case Some(i) => [merged[i]] + Emit(order[1..], partial, SwapRemoved(merged, i))
        case None => Emit(order[1..], partial, merged)
  }

  function Merged(parts: seq<Part>): PerItem<string, TopicInfo> {
    var g := AbsorbAll(NOTHING, parts);
    Emit(g.order, g.partial, g.merged)
  }

  // --------------------------------------------------------------------------- the loop

  /** The brokers: what the n-th request, carrying this cursor, is answered with, or
      nothing when it fails. */
  type Brokers = (nat, Option<Cursor>) -> Option<Response>

  /** The pages a run of the cursor yields, from the n-th request on, and whether it
      got to the end or a request failed. */
  ghost predicate Follows(brokers: Brokers, n: nat, cursor: Option<Cursor>, pages: seq<Response>, complete: bool)
    decreases |pages|
  {
    match brokers(n, cursor)
    case None => pages == [] && !complete
    case Some(page) =>
      && pages != [] && pages[0] == page
      && (if page.next.None? then |pages| == 1 && complete
          else Follows(brokers, n + 1, page.next, pages[1..], complete))
  }

  /** The topic entries of all pages, in order of arrival. */
  ghost function Flat(pages: seq<Response>): seq<Part> {
    if pages == [] then [] else pages[0].topics + Flat(pages[1..])
  }

  method AbsorbPage(g: Gathered, topics: seq<Part>) returns (r: Gathered)
    ensures r == AbsorbAll(g, topics)
  {
    var partial, order, merged := g.partial, g.order, g.merged;
    for i := 0 to |topics|
      invariant Gathered(partial, order, merged) == AbsorbAll(g, topics[..i])
    {
      assert topics[..i + 1][..i] == topics[..i];
      var name := NameOf(topics[i]);
      if topics[i].error.Some? {
        if name !in order {
          order := order + [name];
        }
        merged := merged + [(name, Err(Coded(topics[i].error.value)))];
      } else {
        var partitions := Infos(topics[i].partitions);
        if name in partial {
          var existing := partial[name];
          partial := partial[name := existing.(partitions := existing.partitions + partitions)];
        } else {
          order := order + [name];
          partial := partial[name := TopicInfo(name, topics[i].id, topics[i].internal, partitions)];
        }
      }
    }
    assert topics[..|topics|] == topics;
    r := Gathered(partial, order, merged);
  }

  /** `describe_topics_paginated`, against brokers that at some point send no further
      cursor or fail. */
  method DescribePaginated(brokers: Brokers, ghost pages: seq<Response>, ghost complete: bool) returns (out: Option<PerItem<string, TopicInfo>>)
    requires Follows(brokers, 0, None, pages, complete)
    ensures out == if complete then Some(Merged(Flat(pages))) else None
  {
    hide Absorb;
    hide AbsorbAll;
    hide Emit;
    var g := NOTHING;
    var cursor := None;
    var n := 0;
    ghost var rest := pages;
    while true
      invariant Follows(brokers, n, cursor, rest, complete)
      invariant AbsorbAll(g, Flat(rest)) == AbsorbAll(NOTHING, Flat(pages))
      decreases |rest|
    {
      var response := brokers(n, cursor);
      if response.None? {
        return None;
      }
      var page := response.value;
      assert Flat(rest) == page.topics + Flat(rest[1..]);
      AbsorbAppend(g, page.topics, Flat(rest[1..]));
      g := AbsorbPage(g, page.topics);
      if page.next.None? {
        assert rest[1..] == [] && Flat(rest[1..]) == [];
        AbsorbNothing(g);
        break;
      }
      cursor := page.next;
      n := n + 1;
      rest := rest[1..];
    }
    var emitted := EmitAll(g);
    out := Some(emitted);
  }

  lemma AbsorbNothing(g: Gathered)
    ensures AbsorbAll(g, []) == g
  {
  }

  /** The pass over the names in order of first mention. */
  method EmitAll(g: Gathered) returns (out: PerItem<string, TopicInfo>)
    ensures out == Emit(g.order, g.partial, g.merged)
  {
    hide Position;
    hide SwapRemoved;
    out := [];
    var partial, merged := g.partial, g.merged;
    for i := 0 to |g.order|
      invariant out + Emit(g.order[i..], partial, merged) == Emit(g.order, g.partial, g.merged)
    {
      var name := g.order[i];
      assert g.order[i..][1..] == g.order[i + 1..];
      if name in partial {
        Associates(out, [(name, Ok(partial[name]))], Emit(g.order[i + 1..], partial - {name}, merged));
        out := out + [(name, Ok(partial[name]))];
        partial := partial - {name};
      } else {
        var position := Position(merged, name);
        if position.Some? {
          var at := position.value;
          Associates(out, [merged[at]], Emit(g.order[i + 1..], partial, SwapRemoved(merged, at)));
          out := out + [merged[at]];
          merged := SwapRemoved(merged, at);
        }
      }
    }
  }
}
