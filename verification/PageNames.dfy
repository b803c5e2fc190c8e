/** What the merge makes of any entries at all, name by name: also of a topic that is
    mentioned again and again, in pieces apart, or both failing and described. */
module PageNames {
  import opened Options
  import opened Counting
  import opened Reask
  import opened Pages
  import opened PageCuts

  // --------------------------------------------------------------------- the entries

  /** The pieces that describe the topic, in order of arrival. */
  ghost function Pieces(parts: seq<Part>, name: string): seq<Part> {
    if parts == [] then []
    else
      var last := parts[|parts| - 1];
      Pieces(parts[..|parts| - 1], name) + if Names(last, name) && last.error.None? then [last] else []
  }

  /** How many entries fail the topic. */
  ghost function Failures(parts: seq<Part>, name: string): nat {
    if parts == [] then 0
    else
      var last := parts[|parts| - 1];
      Failures(parts[..|parts| - 1], name) + if Names(last, name) && last.error.Some? then 1 else 0
  }

  /** Some entry fails the topic with this code. */
  ghost predicate FailsWith(parts: seq<Part>, name: string, code: Code) {
    exists i :: 0 <= i < |parts| && Names(parts[i], name) && parts[i].error == Some(code)
  }

  /** The topic was failed before it was first described. */
  ghost predicate FailedFirst(parts: seq<Part>, name: string) {
    exists i :: 0 <= i < |parts| && Names(parts[i], name) && parts[i].error.Some? && Pieces(parts[..i], name) == []
  }

  // ------------------------------------------------------------------ what is gathered

  ghost function Mentions(order: seq<string>, name: string): nat {
    multiset(order)[name]
  }

  ghost function ErrorsOf(merged: PerItem<string, TopicInfo>, name: string): nat {
    multiset(Keys(merged))[name]
  }

  /** The description gathered of one name. */
  ghost predicate KnowsInfo(g: Gathered, parts: seq<Part>, name: string) {
    var pieces := Pieces(parts, name);
    && (name in g.partial <==> pieces != [])
    && (pieces != [] ==> g.partial[name] == TopicInfo(name, pieces[0].id, pieces[0].internal, Infos(Joined(pieces))))
  }

  /** The errors gathered of it. */
  ghost predicate KnowsErrors(g: Gathered, parts: seq<Part>, name: string) {
    && ErrorsOf(g.merged, name) == Failures(parts, name)
    && (forall o :: (name, o) in g.merged ==> o.Err? && o.error.Coded? && FailsWith(parts, name, o.error.code))
  }

  /** How often it is listed: once for its description, and once for its errors unless
      they came after that. */
  ghost predicate KnowsOrder(g: Gathered, parts: seq<Part>, name: string) {
    var described := Pieces(parts, name) != [];
    Mentions(g.order, name)
    == (if described then 1 else 0) + (if Failures(parts, name) > 0 && (!described || FailedFirst(parts, name)) then 1 else 0)
  }

  ghost predicate Knows(g: Gathered, parts: seq<Part>, name: string) {
    KnowsInfo(g, parts, name) && KnowsErrors(g, parts, name) && KnowsOrder(g, parts, name)
  }

  lemma NameIs(p: Part, name: string)
    ensures Names(p, name) <==> NameOf(p) == name
  {
  }

  lemma FailedFirstLast(parts: seq<Part>, p: Part, name: string)
    ensures FailedFirst(parts + [p], name) <==> FailedFirst(parts, name) || (Names(p, name) && p.error.Some? && Pieces(parts, name) == [])
  {
    hide Pieces;
    hide Names;
    var all := parts + [p];
    assert all[..|parts|] == parts;
    forall i | 0 <= i < |parts| ensures all[i] == parts[i] && all[..i] == parts[..i] {
    }
    if FailedFirst(parts, name) {
      var i :| 0 <= i < |parts| && Names(parts[i], name) && parts[i].error.Some? && Pieces(parts[..i], name) == [];
      assert all[i] == parts[i];
    }
    if Names(p, name) && p.error.Some? && Pieces(parts, name) == [] {
      assert all[|parts|] == p;
    }
  }

  lemma FailsWithLast(parts: seq<Part>, p: Part, name: string, code: Code)
    ensures FailsWith(parts + [p], name, code) <==> FailsWith(parts, name, code) || (Names(p, name) && p.error == Some(code))
  {
    hide Names;
    var all := parts + [p];
    if FailsWith(parts, name, code) {
      var i :| 0 <= i < |parts| && Names(parts[i], name) && parts[i].error == Some(code);
      assert all[i] == parts[i];
    }
    if Names(p, name) && p.error == Some(code) {
      assert all[|parts|] == p;
    }
  }

  /** Without a piece, every failure came first. */
  lemma {:induction false} FailuresFirst(parts: seq<Part>, name: string)
    ensures FailedFirst(parts, name) ==> Failures(parts, name) > 0
    ensures Pieces(parts, name) == [] && Failures(parts, name) > 0 ==> FailedFirst(parts, name)
  {
    hide Names;
    if parts != [] {
      var init, last := parts[..|parts| - 1], parts[|parts| - 1];
      FailuresFirst(init, name);
      FailedFirstLast(init, last, name);
      assert parts == init + [last];
    }
  }

  lemma JoinedLast(pieces: seq<Part>, p: Part)
    ensures Infos(Joined(pieces + [p])) == Infos(Joined(pieces)) + Infos(p.partitions)
  {
    assert (pieces + [p])[..|pieces|] == pieces;
    InfosAppend(Joined(pieces), p.partitions);
  }

  lemma PiecesLast(parts: seq<Part>, p: Part, name: string)
    ensures Pieces(parts + [p], name) == Pieces(parts, name) + if Names(p, name) && p.error.None? then [p] else []
    ensures Failures(parts + [p], name) == Failures(parts, name) + if Names(p, name) && p.error.Some? then 1 else 0
  {
    assert (parts + [p])[..|parts|] == parts;
  }

  lemma ErrorsOfLast(merged: PerItem<string, TopicInfo>, e: (string, Outcome<TopicInfo>), name: string)
    ensures ErrorsOf(merged + [e], name) == ErrorsOf(merged, name) + if e.0 == name then 1 else 0
  {
    assert Keys(merged + [e]) == Keys(merged) + [e.0];
    CountAppend(Keys(merged), [e.0], name);
  }

  lemma InfoPiece(g: Gathered, parts: seq<Part>, p: Part, name: string)
    requires KnowsInfo(g, parts, name) && NameOf(p) == name && p.error.None? && Names(p, name)
    ensures KnowsInfo(Absorb(g, p), parts + [p], name)
  {
    hide Pieces;
    hide Joined;
    hide Infos;
    hide Names;
    PiecesLast(parts, p, name);
    var pieces := Pieces(parts, name);
    var more := Pieces(parts + [p], name);
    assert more == pieces + [p];
    JoinedLast(pieces, p);
    NoPieces(p);
    if pieces == [] {
      assert more[0] == p;
    } else {
      assert more[0] == pieces[0];
    }
  }

  lemma InfoOther(g: Gathered, parts: seq<Part>, p: Part, name: string)
    requires KnowsInfo(g, parts, name) && (NameOf(p) != name || p.error.Some?) && (Names(p, name) ==> p.error.Some?)
    ensures KnowsInfo(Absorb(g, p), parts + [p], name)
  {
    hide Pieces;
    hide Joined;
    hide Infos;
    hide Names;
    PiecesLast(parts, p, name);
    assert Pieces(parts + [p], name) == Pieces(parts, name);
  }

  lemma InfoStep(g: Gathered, parts: seq<Part>, p: Part, name: string)
    requires KnowsInfo(g, parts, name)
    ensures KnowsInfo(Absorb(g, p), parts + [p], name)
  {
    hide KnowsInfo;
    hide Absorb;
    NameIs(p, name);
    if Names(p, name) && p.error.None? {
      InfoPiece(g, parts, p, name);
    } else {
      InfoOther(g, parts, p, name);
    }
  }

  lemma ErrorsStep(g: Gathered, parts: seq<Part>, p: Part, name: string)
    requires KnowsErrors(g, parts, name)
    ensures KnowsErrors(Absorb(g, p), parts + [p], name)
  {
    hide Pieces;
    hide Failures;
    hide FailsWith;
    hide ErrorsOf;
    hide Infos;
    NameIs(p, name);
    PiecesLast(parts, p, name);
    forall code: Code ensures FailsWith(parts + [p], name, code) <==> FailsWith(parts, name, code) || (Names(p, name) && p.error == Some(code)) {
      FailsWithLast(parts, p, name, code);
    }
    if p.error.Some? {
      ErrorsOfLast(g.merged, (NameOf(p), Err(Coded(p.error.value))), name);
    }
  }

  lemma OrderStep(g: Gathered, parts: seq<Part>, p: Part, name: string)
    requires Knows(g, parts, name)
    ensures KnowsOrder(Absorb(g, p), parts + [p], name)
  {
    hide Pieces;
    hide Failures;
    hide FailedFirst;
    hide KnowsErrors;
    hide Infos;
    hide Joined;
    NameIs(p, name);
    PiecesLast(parts, p, name);
    FailedFirstLast(parts, p, name);
    FailuresFirst(parts, name);
    CountAppend(g.order, [NameOf(p)], name);
    assert name in g.order <==> name in multiset(g.order);
  }

  lemma KnowsStep(g: Gathered, parts: seq<Part>, p: Part, name: string)
    requires Knows(g, parts, name)
    ensures Knows(Absorb(g, p), parts + [p], name)
  {
    hide KnowsInfo;
    hide KnowsErrors;
    hide KnowsOrder;
    hide Absorb;
    InfoStep(g, parts, p, name);
    ErrorsStep(g, parts, p, name);
    OrderStep(g, parts, p, name);
  }

  lemma NoPieces(p: Part)
    ensures Infos(Joined([])) == [] && [] + Infos(p.partitions) == Infos(p.partitions)
  {
  }

  lemma {:induction false} KnowsAll(parts: seq<Part>, name: string)
    ensures Knows(AbsorbAll(NOTHING, parts), parts, name)
  {
    hide Absorb;
    hide Knows;
    if parts == [] {
      KnowsNothing(name);
    } else {
      var init, last := parts[..|parts| - 1], parts[|parts| - 1];
      KnowsAll(init, name);
      assert parts == init + [last];
      KnowsStep(AbsorbAll(NOTHING, init), init, last, name);
    }
  }

  lemma KnowsNothing(name: string)
    ensures Knows(AbsorbAll(NOTHING, []), [], name)
  {
  }

  // ------------------------------------------------------------------- what is emitted

  ghost function EntriesOf(s: PerItem<string, TopicInfo>, name: string): PerItem<string, TopicInfo> {
    if s == [] then [] else (if s[0].0 == name then [s[0]] else []) + EntriesOf(s[1..], name)
  }

  lemma EntriesFirst(e: (string, Outcome<TopicInfo>), rest: PerItem<string, TopicInfo>, name: string)
    ensures EntriesOf([e] + rest, name) == (if e.0 == name then [e] else []) + EntriesOf(rest, name)
  {
    assert ([e] + rest)[1..] == rest;
  }

  lemma SwapRemovedErrors(merged: PerItem<string, TopicInfo>, i: nat, name: string)
    requires i < |merged|
    ensures ErrorsOf(SwapRemoved(merged, i), name) == ErrorsOf(merged, name) - if merged[i].0 == name then 1 else 0
    ensures forall e :: e in SwapRemoved(merged, i) ==> e in merged
  {
    var r, last := SwapRemoved(merged, i), |merged| - 1;
    var keys := Keys(merged);
    CountLast(keys, name);
    assert keys[..last] == Keys(merged[..last]);
    if i < last {
      assert Keys(r) == Keys(merged[..last])[i := merged[last].0];
    } else {
      assert Keys(r) == Keys(merged[..last]);
    }
    forall e | e in r ensures e in merged {
      assert e in multiset(r) && e in multiset(merged);
    }
  }

  lemma ErrorsFound(merged: PerItem<string, TopicInfo>, name: string)
    ensures ErrorsOf(merged, name) > 0 <==> Position(merged, name).Some?
  {
    hide Position;
    if Position(merged, name).Some? {
      var i := Position(merged, name).value;
      assert Keys(merged)[i] == name;
    } else {
      assert forall i | 0 <= i < |merged| :: Keys(merged)[i] != name;
      assert name !in Keys(merged);
    }
  }

  /** As many errors of the name as it is still mentioned, each of them gathered. */
  ghost predicate Errs(s: PerItem<string, TopicInfo>, merged: PerItem<string, TopicInfo>) {
    forall e <- s :: e in merged
  }

  /** The name, once its description is out or if it has none. */
  lemma {:induction false} EmitsErrors(order: seq<string>, partial: map<string, TopicInfo>, merged: PerItem<string, TopicInfo>, name: string)
    requires name !in partial && Mentions(order, name) <= ErrorsOf(merged, name)
    ensures var out := EntriesOf(Emit(order, partial, merged), name);
            |out| == Mentions(order, name) && Errs(out, merged)
  {
    hide Position;
    hide SwapRemoved;
    hide ErrorsOf;
    if order != [] {
      var first, rest := order[0], order[1..];
      assert order == [first] + rest;
      CountAppend([first], rest, name);
      if first in partial {
        EmitsErrors(rest, partial - {first}, merged, name);
        EntriesFirst((first, Ok(partial[first])), Emit(rest, partial - {first}, merged), name);
      } else {
        ErrorsFound(merged, first);
        var at := Position(merged, first);
        if at.Some? {
          SwapRemovedErrors(merged, at.value, name);
          EmitsErrors(rest, partial, SwapRemoved(merged, at.value), name);
          EntriesFirst(merged[at.value], Emit(rest, partial, SwapRemoved(merged, at.value)), name);
        } else {
          EmitsErrors(rest, partial, merged, name);
        }
      }
    }
  }

  /** The name, while its description is not out. */
  lemma {:induction false} EmitsInfo(order: seq<string>, partial: map<string, TopicInfo>, merged: PerItem<string, TopicInfo>, name: string)
    requires name in partial && 1 <= Mentions(order, name) <= 1 + ErrorsOf(merged, name)
    ensures var out := EntriesOf(Emit(order, partial, merged), name);
            |out| == Mentions(order, name) && out[0] == (name, Ok(partial[name])) && Errs(out[1..], merged)
  {
    hide Position;
    hide SwapRemoved;
    hide ErrorsOf;
    var first, rest := order[0], order[1..];
    assert order == [first] + rest;
    CountAppend([first], rest, name);
    if first == name {
      EmitsErrors(rest, partial - {name}, merged, name);
      EntriesFirst((name, Ok(partial[name])), Emit(rest, partial - {name}, merged), name);
    } else if first in partial {
      EmitsInfo(rest, partial - {first}, merged, name);
      EntriesFirst((first, Ok(partial[first])), Emit(rest, partial - {first}, merged), name);
    } else {
      var at := Position(merged, first);
      if at.Some? {
        SwapRemovedErrors(merged, at.value, name);
        EmitsInfo(rest, partial, SwapRemoved(merged, at.value), name);
        EntriesFirst(merged[at.value], Emit(rest, partial, SwapRemoved(merged, at.value)), name);
      } else {
        EmitsInfo(rest, partial, merged, name);
      }
    }
  }

  /** What the caller sees of a name, whatever entries came: nothing if it was never
      mentioned; its description, all pieces in order of arrival, if there is one, and
      after it one of its errors only if the first of them came before; and otherwise one
      of its errors, however many there were. */
  lemma MergedOf(parts: seq<Part>, name: string)
    ensures var out, pieces := EntriesOf(Merged(parts), name), Pieces(parts, name);
            && (pieces == [] && Failures(parts, name) == 0 ==> out == [])
            && (pieces == [] && Failures(parts, name) > 0 ==> |out| == 1)
            && (pieces != [] ==>
                  && |out| == (if FailedFirst(parts, name) then 2 else 1)
                  && out[0] == (name, Ok(TopicInfo(name, pieces[0].id, pieces[0].internal, Infos(Joined(pieces))))))
            && forall e <- (if pieces != [] then out[1..] else out) ::
                 e.0 == name && e.1.Err? && e.1.error.Coded? && FailsWith(parts, name, e.1.error.code)
  {
    hide AbsorbAll;
    hide Emit;
    hide Pieces;
    hide Failures;
    hide FailsWith;
    hide FailedFirst;
    hide ErrorsOf;
    hide Mentions;
    hide Joined;
    hide Infos;
    KnowsAll(parts, name);
    FailuresFirst(parts, name);
    var g := AbsorbAll(NOTHING, parts);
    EntriesNamed(Merged(parts), name);
    if Pieces(parts, name) != [] {
      EmitsInfo(g.order, g.partial, g.merged, name);
    } else {
      EmitsErrors(g.order, g.partial, g.merged, name);
    }
  }

  lemma {:induction false} EntriesNamed(s: PerItem<string, TopicInfo>, name: string)
    ensures forall e <- EntriesOf(s, name) :: e.0 == name
  {
    if s != [] {
      EntriesNamed(s[1..], name);
    }
  }
}
