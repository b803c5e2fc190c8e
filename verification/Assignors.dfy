/** `assign`: the dispatch over the three assignors, and what all of them share. */
module Assignors {
  import opened Group
  import opened Assignment
  import Range = RangeAssignor
  import RoundRobin = RoundRobinAssignor
  import Sticky
  import StickyAssignor

  const ROUND_ROBIN := "roundrobin"
  const COOPERATIVE_STICKY := "cooperative-sticky"

  /** What the named protocol hands out; an unknown name means `range`. */
  ghost predicate Answers(protocol: string, members: seq<Member>, counts: Counts, out: Assignments) {
    if protocol == "roundrobin" then
      if members == [] then out == map[]
      else Keyed(out, SortById(members), RoundRobin.DealtAll(SortById(members), RoundRobin.Laid(counts)))
    else if protocol == "cooperative-sticky" then
      Keyed(out, SortById(members), StickyAssignor.Topics(Sticky.Round(SortById(members), counts)))
    else
      out.Keys == Range.Ids(members) && forall id <- out :: out[id] == Range.RangeFor(members, counts, id)
  }

  method Assign(protocol: string, members: seq<Member>, counts: Counts) returns (out: Assignments)
    requires DistinctIds(members) && Range.FitsI32(counts)
    ensures Answers(protocol, members, counts, out)
  {
    if protocol == ROUND_ROBIN {
      out := RoundRobin.AssignRoundRobin(members, counts);
    } else if protocol == COOPERATIVE_STICKY {
      out := StickyAssignor.AssignCooperativeSticky(members, counts);
    } else {
      out := Range.AssignRange(members, counts);
    }
  }

  /** Two leaders given the same members in different orders reach the same
      answer, whatever the protocol. */
  lemma MemberOrderIrrelevant(protocol: string, a: seq<Member>, b: seq<Member>, counts: Counts, x: Assignments, y: Assignments)
    requires DistinctIds(a) && multiset(a) == multiset(b)
    requires Answers(protocol, a, counts, x) && Answers(protocol, b, counts, y)
    ensures x == y
  {
    hide Keyed;
    hide SortById;
    hide Sticky.Round;
    hide StickyAssignor.Topics;
    hide RoundRobin.DealtAll;
    hide RoundRobin.Laid;
    hide Range.RangeFor;
    SameElements(a, b);
    SortPermuted(a, b);
    var ms := SortById(a);
    if protocol == ROUND_ROBIN {
      if a != [] {
        KeyedUnique(x, y, ms, RoundRobin.DealtAll(ms, RoundRobin.Laid(counts)));
      }
    } else if protocol == COOPERATIVE_STICKY {
      KeyedUnique(x, y, ms, StickyAssignor.Topics(Sticky.Round(ms, counts)));
    } else {
      assert Range.Ids(a) == Range.Ids(b);
      forall id <- x ensures x[id] == y[id] {
        Range.RangePermuted(a, b, counts, id);
      }
    }
  }
}
