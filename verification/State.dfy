/** Capability values, ordered deltas and the snapshot they accumulate into.

    Floats are reals, so equality of values is decidable and reflexive. */
module State {
  import opened Wrappers

  datatype StateValue =
    | Bool(on: bool)
    | Int(i: int)
    | Float(x: real)
    | Str(s: string)
    | Enum(name: string)
    | List(items: seq<StateValue>)
    | Map(entries: map<string, StateValue>)
    | Null

  type Entry = (string, StateValue)
  type Changes = seq<Entry>
  type Values = map<string, StateValue>

  datatype Priority = Front | Back

  // ---------------------------------------------------------------------
  // What the operations mean

  function GetIn(entries: Changes, id: string): Option<StateValue> {
    if entries == [] then None
    else if entries[0].0 == id then Some(entries[0].1)
    else GetIn(entries[1..], id)
  }

  /** Replaces the value of the first entry under `id`, or appends one. */
  function SetIn(entries: Changes, id: string, value: StateValue): Changes {
    if entries == [] then [(id, value)]
    else if entries[0].0 == id then [(id, value)] + entries[1..]
    else [entries[0]] + SetIn(entries[1..], id, value)
  }

  function MergeIn(entries: Changes, other: Changes): Changes
    decreases |other|
  {
    if other == [] then entries
    else SetIn(MergeIn(entries, other[..|other| - 1]), other[|other| - 1].0, other[|other| - 1].1)
  }

  function Ids(entries: Changes): seq<string> {
    seq(|entries|, i requires 0 <= i < |entries| => entries[i].0)
  }

  predicate Unique(ids: seq<string>) {
    forall i, j :: 0 <= i < j < |ids| ==> ids[i] != ids[j]
  }

  /** Each id once, where it first appears. */
  function FirstOccurrences(ids: seq<string>): seq<string> {
    if ids == [] then []
    else
      var before := FirstOccurrences(ids[..|ids| - 1]);
      if ids[|ids| - 1] in before then before else before + [ids[|ids| - 1]]
  }

  /** The entries whose id is, or is not, listed, in their order. */
  function Part(entries: Changes, ids: seq<string>, listed: bool): Changes {
    if entries == [] then []
    else
      var before := Part(entries[..|entries| - 1], ids, listed);
      if (entries[|entries| - 1].0 in ids) == listed then before + [entries[|entries| - 1]] else before
  }

  function Prioritised(entries: Changes, ids: seq<string>, position: Priority): Changes {
    if position == Front then Part(entries, ids, true) + Part(entries, ids, false)
    else Part(entries, ids, false) + Part(entries, ids, true)
  }

  function ValueOf(values: Values, id: string): Option<StateValue> {
    if id in values then Some(values[id]) else None
  }

  /** A snapshot after a delta: the entries written in order. */
  function Applied(values: Values, changes: Changes): Values {
    if changes == [] then values
    else Applied(values, changes[..|changes| - 1])[changes[|changes| - 1].0 := changes[|changes| - 1].1]
  }

  /** The ids reported as changed, in the delta's order. */
  function Updated(values: Values, changes: Changes): seq<string> {
    if changes == [] then []
    else
      var before, last := changes[..|changes| - 1], changes[|changes| - 1];
      Updated(values, before)
      + if ValueOf(Applied(values, before), last.0) != Some(last.1) then [last.0] else []
  }

  // ---------------------------------------------------------------------
  // The source's mutable objects

  /** An ordered set of capability changes. */
  class StateChanges {
    var entries: Changes

    constructor ()
      ensures entries == []
    {
      entries := [];
    }

    method Set(id: string, value: StateValue)
      modifies this
      ensures entries == SetIn(old(entries), id, value)
    {
      for i := 0 to |entries|
        invariant entries == old(entries)
        invariant forall k :: 0 <= k < i ==> entries[k].0 != id
      {
        if entries[i].0 == id {
          SetAt(entries, i, id, value);
          entries := entries[i := (id, value)];
          return;
        }
      }
      SetAt(entries, |entries|, id, value);
      entries := entries + [(id, value)];
    }

    method Get(id: string) returns (value: Option<StateValue>)
      ensures value == GetIn(entries, id)
    {
      for i := 0 to |entries|
        invariant GetIn(entries, id) == GetIn(entries[i..], id)
      {
        assert entries[i..][0] == entries[i] && entries[i..][1..] == entries[i + 1..];
        if entries[i].0 == id {
          return Some(entries[i].1);
        }
      }
      return None;
    }

    method Merge(other: Changes)
      modifies this
      ensures entries == MergeIn(old(entries), other)
    {
      for i := 0 to |other|
        invariant entries == MergeIn(old(entries), other[..i])
      {
        assert other[..i + 1][..i] == other[..i];
        Set(other[i].0, other[i].1);
      }
      assert other[..|other|] == other;
    }

    method Prioritise(ids: seq<string>, position: Priority)
      modifies this
      ensures entries == Prioritised(old(entries), ids, position)
    {
      var listed: Changes, rest: Changes := [], [];
      for i := 0 to |entries|
        invariant entries == old(entries)
        invariant listed == Part(entries[..i], ids, true)
        invariant rest == Part(entries[..i], ids, false)
      {
        assert entries[..i + 1][..i] == entries[..i];
        if entries[i].0 in ids {
          listed := listed + [entries[i]];
        } else {
          rest := rest + [entries[i]];
        }
      }
      assert entries[..|entries|] == entries;
      entries := if position == Front then listed + rest else rest + listed;
    }
  }

  /** A full view of a device's last known values. */
  class StateSnapshot {
    var values: Values

    constructor ()
      ensures values == map[]
    {
      values := map[];
    }

    method Apply(changes: Changes) returns (updated: seq<string>)
      modifies this
      ensures values == Applied(old(values), changes)
      ensures updated == Updated(old(values), changes)
    {
      updated := [];
      for i := 0 to |changes|
        invariant values == Applied(old(values), changes[..i])
        invariant updated == Updated(old(values), changes[..i])
      {
        assert changes[..i + 1][..i] == changes[..i];
        var (id, value) := changes[i];
        if ValueOf(values, id) != Some(value) {
          values := values[id := value];
          updated := updated + [id];
        }
      }
      assert changes[..|changes|] == changes;
    }
  }

  lemma {:induction false} SetAt(entries: Changes, i: nat, id: string, value: StateValue)
    requires i <= |entries| && (forall k :: 0 <= k < i ==> entries[k].0 != id)
    requires i < |entries| ==> entries[i].0 == id
    ensures SetIn(entries, id, value) ==
            if i < |entries| then entries[i := (id, value)] else entries + [(id, value)]
  {
    if i > 0 {
      SetAt(entries[1..], i - 1, id, value);
      assert entries == [entries[0]] + entries[1..];
    }
  }

  // ---------------------------------------------------------------------
  // Ordered-map laws

  lemma {:induction false} GetAfterSet(entries: Changes, id: string, value: StateValue, other: string)
    ensures GetIn(SetIn(entries, id, value), other) == if other == id then Some(value) else GetIn(entries, other)
  {
    if entries != [] {
      GetAfterSet(entries[1..], id, value, other);
      if entries[0].0 == id {
        assert SetIn(entries, id, value)[1..] == entries[1..];
      } else {
        assert SetIn(entries, id, value)[1..] == SetIn(entries[1..], id, value);
      }
    }
  }

  /** Setting keeps an existing id where it is and puts a new one last. */
  lemma {:induction false} IdsAfterSet(entries: Changes, id: string, value: StateValue)
    ensures Ids(SetIn(entries, id, value)) == if id in Ids(entries) then Ids(entries) else Ids(entries) + [id]
  {
    if entries == [] {
      assert Ids(SetIn(entries, id, value)) == [id];
    } else {
      var first, rest := entries[0], entries[1..];
      assert entries == [first] + rest;
      IdsCons(first, rest);
      if first.0 == id {
        IdsCons((id, value), rest);
      } else {
        IdsAfterSet(rest, id, value);
        IdsCons(first, SetIn(rest, id, value));
      }
    }
  }

  lemma IdsCons(first: (string, StateValue), rest: Changes)
    ensures Ids([first] + rest) == [first.0] + Ids(rest)
  {
  }

  lemma {:induction false} FirstOccurrencesUnique(ids: seq<string>)
    ensures Unique(FirstOccurrences(ids))
    ensures forall id :: id in FirstOccurrences(ids) <==> id in ids
  {
    if ids != [] {
      var before := ids[..|ids| - 1];
      FirstOccurrencesUnique(before);
      assert ids == before + [ids[|ids| - 1]];
    }
  }

  /** Whatever was set, and in whatever order, each id appears once, at the place
      it was first inserted. */
  lemma {:induction false} BuiltInFirstInsertionOrder(sets: Changes)
    ensures Ids(MergeIn([], sets)) == FirstOccurrences(Ids(sets))
    ensures Unique(Ids(MergeIn([], sets)))
  {
    FirstOccurrencesUnique(Ids(sets));
    if sets == [] {
      assert Ids(sets) == [];
    } else {
      var before, last := sets[..|sets| - 1], sets[|sets| - 1];
      BuiltInFirstInsertionOrder(before);
      IdsAfterSet(MergeIn([], before), last.0, last.1);
      assert Ids(sets)[..|sets| - 1] == Ids(before);
    }
  }

  /** After a merge each id has the newest value given for it. */
  lemma {:induction false} GetAfterMerge(a: Changes, b: Changes, id: string)
    requires Unique(Ids(b))
    ensures GetIn(MergeIn(a, b), id) == if GetIn(b, id).Some? then GetIn(b, id) else GetIn(a, id)
    decreases |b|
  {
    if b != [] {
      var before, last := b[..|b| - 1], b[|b| - 1];
      assert Ids(before) == Ids(b)[..|b| - 1];
      GetAfterMerge(a, before, id);
      GetAfterSet(MergeIn(a, before), last.0, last.1, id);
      assert b == before + [last];
      GetOfAppended(before, last, id);
      if last.0 == id {
        assert Ids(b)[|b| - 1] == id;
        GetIsMember(before, id);
      }
    }
  }

  lemma {:induction false} GetOfAppended(entries: Changes, last: Entry, id: string)
    ensures GetIn(entries + [last], id) ==
            if GetIn(entries, id).Some? then GetIn(entries, id) else if last.0 == id then Some(last.1) else None
  {
    if entries != [] {
      assert (entries + [last])[1..] == entries[1..] + [last];
      GetOfAppended(entries[1..], last, id);
    }
  }

  lemma IdsOfLast(changes: Changes)
    requires changes != []
    ensures var before, last := changes[..|changes| - 1], changes[|changes| - 1];
            Ids(changes) == Ids(before) + [last.0] &&
            (Unique(Ids(changes)) <==> Unique(Ids(before)) && last.0 !in Ids(before))
  {
    var before, last := changes[..|changes| - 1], changes[|changes| - 1];
    assert Ids(changes) == Ids(before) + [last.0];
    assert Ids(changes)[|changes| - 1] == last.0;
    assert forall i :: 0 <= i < |before| ==> Ids(changes)[i] == Ids(before)[i];
  }

  lemma {:induction false} GetIsMember(entries: Changes, id: string)
    ensures GetIn(entries, id).Some? <==> id in Ids(entries)
  {
    if entries != [] {
      GetIsMember(entries[1..], id);
      assert Ids(entries) == [entries[0].0] + Ids(entries[1..]);
    }
  }

  /** A delta with unique ids changes exactly its ids, to its values. */
  lemma {:induction false} AppliedIs(values: Values, changes: Changes, id: string)
    requires Unique(Ids(changes))
    ensures ValueOf(Applied(values, changes), id) ==
            if GetIn(changes, id).Some? then GetIn(changes, id) else ValueOf(values, id)
    decreases |changes|
  {
    if changes != [] {
      var before, last := changes[..|changes| - 1], changes[|changes| - 1];
      assert Ids(before) == Ids(changes)[..|changes| - 1];
      AppliedIs(values, before, id);
      assert changes == before + [last];
      GetOfAppended(before, last, id);
      if last.0 == id {
        assert Ids(changes)[|changes| - 1] == id;
        GetIsMember(before, id);
      }
    }
  }

  /** Applying a merged delta is applying one delta after the other. */
  lemma MergeThenApply(values: Values, a: Changes, b: Changes)
    requires Unique(Ids(a)) && Unique(Ids(b))
    ensures Unique(Ids(MergeIn(a, b)))
    ensures Applied(values, MergeIn(a, b)) == Applied(Applied(values, a), b)
  {
    MergeKeepsUnique(a, b);
    var merged, stepped := Applied(values, MergeIn(a, b)), Applied(Applied(values, a), b);
    forall id
      ensures ValueOf(merged, id) == ValueOf(stepped, id)
    {
      AppliedIs(values, MergeIn(a, b), id);
      AppliedIs(Applied(values, a), b, id);
      AppliedIs(values, a, id);
      GetAfterMerge(a, b, id);
    }
    SameValues(merged, stepped);
  }

  lemma SameValues(m: Values, n: Values)
    requires forall id :: ValueOf(m, id) == ValueOf(n, id)
    ensures m == n
  {
    assert forall id :: id in m ==> ValueOf(m, id) == ValueOf(n, id);
    assert forall id :: id in n ==> ValueOf(m, id) == ValueOf(n, id);
  }

  lemma {:induction false} MergeKeepsUnique(a: Changes, b: Changes)
    requires Unique(Ids(a))
    ensures Unique(Ids(MergeIn(a, b)))
    decreases |b|
  {
    if b != [] {
      MergeKeepsUnique(a, b[..|b| - 1]);
      IdsAfterSet(MergeIn(a, b[..|b| - 1]), b[|b| - 1].0, b[|b| - 1].1);
    }
  }

  /** The ids returned are exactly those whose value is now different, each once
      and in the delta's order. */
  lemma {:induction false} UpdatedIsExact(values: Values, changes: Changes)
    requires Unique(Ids(changes))
    ensures forall id :: id in Updated(values, changes) <==> ValueOf(Applied(values, changes), id) != ValueOf(values, id)
    ensures Unique(Updated(values, changes))
    ensures forall id :: id in Updated(values, changes) ==> id in Ids(changes)
    decreases |changes|
  {
    if changes != [] {
      var before, last := changes[..|changes| - 1], changes[|changes| - 1];
      IdsOfLast(changes);
      UpdatedIsExact(values, before);
      AppliedIs(values, before, last.0);
      GetIsMember(before, last.0);
    }
  }

  // ---------------------------------------------------------------------
  // Prioritising

  lemma {:induction false} PartMembers(entries: Changes, ids: seq<string>, listed: bool)
    ensures forall e :: e in Part(entries, ids, listed) ==> (e.0 in ids) == listed
    ensures multiset(Part(entries, ids, true) + Part(entries, ids, false)) == multiset(entries)
  {
    if entries != [] {
      var before, last := entries[..|entries| - 1], entries[|entries| - 1];
      PartMembers(before, ids, listed);
      assert entries == before + [last];
    }
  }

  /** Taking a part of a whole that is already of that part changes nothing. */
  lemma {:induction false} PartOfPart(entries: Changes, ids: seq<string>, listed: bool)
    requires forall e :: e in entries ==> (e.0 in ids) == listed
    ensures Part(entries, ids, listed) == entries && Part(entries, ids, !listed) == []
  {
    if entries != [] {
      var before, last := entries[..|entries| - 1], entries[|entries| - 1];
      assert entries == before + [last];
      PartOfPart(before, ids, listed);
    }
  }

  lemma {:induction false} PartOfAppended(a: Changes, b: Changes, ids: seq<string>, listed: bool)
    ensures Part(a + b, ids, listed) == Part(a, ids, listed) + Part(b, ids, listed)
    decreases |b|
  {
    if b == [] {
      assert a + b == a;
    } else {
      assert (a + b)[..|a + b| - 1] == a + b[..|b| - 1];
      PartOfAppended(a, b[..|b| - 1], ids, listed);
    }
  }

  /** Prioritising is a stable permutation: each side keeps its own order, so
      doing it again changes nothing. */
  lemma PrioritiseIsStable(entries: Changes, ids: seq<string>, position: Priority)
    ensures multiset(Prioritised(entries, ids, position)) == multiset(entries)
    ensures forall listed :: Part(Prioritised(entries, ids, position), ids, listed) == Part(entries, ids, listed)
    ensures Prioritised(Prioritised(entries, ids, position), ids, position) == Prioritised(entries, ids, position)
  {
    PrioritisedMembers(entries, ids, position);
    forall listed
      ensures Part(Prioritised(entries, ids, position), ids, listed) == Part(entries, ids, listed)
    {
      PartOfPrioritised(entries, ids, position, listed);
    }
  }

  lemma PrioritisedMembers(entries: Changes, ids: seq<string>, position: Priority)
    ensures multiset(Prioritised(entries, ids, position)) == multiset(entries)
  {
    var yes, no := Part(entries, ids, true), Part(entries, ids, false);
    PartMembers(entries, ids, true);
    assert multiset(no + yes) == multiset(no) + multiset(yes) == multiset(yes + no);
  }

  lemma PartOfPrioritised(entries: Changes, ids: seq<string>, position: Priority, listed: bool)
    ensures Part(Prioritised(entries, ids, position), ids, listed) == Part(entries, ids, listed)
  {
    var mine, other := Part(entries, ids, listed), Part(entries, ids, !listed);
    PartMembers(entries, ids, listed);
    PartMembers(entries, ids, !listed);
    PartOfPart(mine, ids, listed);
    PartOfPart(other, ids, !listed);
    PartOfAppended(mine, other, ids, listed);
    PartOfAppended(other, mine, ids, listed);
    assert mine + [] == mine == [] + mine;
  }

  lemma {:induction false} GetFromPart(entries: Changes, ids: seq<string>, id: string)
    ensures GetIn(Part(entries, ids, id in ids), id) == GetIn(entries, id)
    ensures GetIn(Part(entries, ids, id !in ids), id) == None
  {
    if entries != [] {
      var before, last := entries[..|entries| - 1], entries[|entries| - 1];
      GetFromPart(before, ids, id);
      assert entries == before + [last];
      GetOfAppended(before, last, id);
      GetOfAppended(Part(before, ids, id in ids), last, id);
      GetOfAppended(Part(before, ids, id !in ids), last, id);
    }
  }

  lemma {:induction false} GetOfJoined(a: Changes, b: Changes, id: string)
    ensures GetIn(a + b, id) == if GetIn(a, id).Some? then GetIn(a, id) else GetIn(b, id)
  {
    if a == [] {
      assert a + b == b;
    } else {
      assert (a + b)[1..] == a[1..] + b;
      GetOfJoined(a[1..], b, id);
    }
  }

  /** No lookup can tell that a delta was reordered. */
  lemma PrioritiseKeepsGet(entries: Changes, ids: seq<string>, position: Priority, id: string)
    ensures GetIn(Prioritised(entries, ids, position), id) == GetIn(entries, id)
  {
    GetFromPart(entries, ids, id);
    GetOfJoined(Part(entries, ids, true), Part(entries, ids, false), id);
    GetOfJoined(Part(entries, ids, false), Part(entries, ids, true), id);
  }
}
