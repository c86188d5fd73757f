/** The device table, indexed by permanent and by short address. */
module Inventory {
  import opened Wrappers
  import opened Words

  /** A device as the table holds it: the two addresses, and whatever else travels with it. */
  datatype Entry<T> = Entry(ieee: u64, nwk: u16, payload: T)

  datatype Table<T> = Table(devices: map<u64, Entry<T>>, byNwk: map<u16, u64>)

  datatype Op<T> = Insert(entry: Entry<T>) | SetNwk(ieee: u64, nwk: u16) | Remove(ieee: u64)

  function Inserted<T>(t: Table<T>, entry: Entry<T>): Table<T> {
    var cleared := if entry.ieee in t.devices then t.byNwk - {t.devices[entry.ieee].nwk} else t.byNwk;
    Table(t.devices[entry.ieee := entry], cleared[entry.nwk := entry.ieee])
  }

  function Readdressed<T>(t: Table<T>, ieee: u64, nwk: u16): Table<T> {
    if ieee !in t.devices || t.devices[ieee].nwk == nwk then t
    else
      var entry := t.devices[ieee];
      Table(t.devices[ieee := entry.(nwk := nwk)], (t.byNwk - {entry.nwk})[nwk := ieee])
  }

  function Removed<T>(t: Table<T>, ieee: u64): Table<T> {
    if ieee !in t.devices then t else Table(t.devices - {ieee}, t.byNwk - {t.devices[ieee].nwk})
  }

  function After<T>(t: Table<T>, op: Op<T>): Table<T> {
    match op
    case Insert(entry) => Inserted(t, entry)
    case SetNwk(ieee, nwk) => Readdressed(t, ieee, nwk)
    case Remove(ieee) => Removed(t, ieee)
  }

  function Run<T>(ops: seq<Op<T>>): Table<T> {
    if ops == [] then Table(map[], map[]) else After(Run(ops[..|ops| - 1]), ops[|ops| - 1])
  }

  class Inventory<T> {
    var devices: map<u64, Entry<T>>
    var byNwk: map<u16, u64>

    function View(): Table<T>
      reads this
    {
      Table(devices, byNwk)
    }

    constructor ()
      ensures View() == Table(map[], map[])
    {
      devices, byNwk := map[], map[];
    }

    /** Resolves a short address to a permanent one. */
    method Resolve(nwk: u16) returns (ieee: Option<u64>)
      ensures ieee == if nwk in byNwk then Some(byNwk[nwk]) else None
    {
      ieee := if nwk in byNwk then Some(byNwk[nwk]) else None;
    }

    method InsertEntry(entry: Entry<T>)
      modifies this
      ensures View() == Inserted(old(View()), entry)
    {
      if entry.ieee in devices {
        byNwk := byNwk - {devices[entry.ieee].nwk};
      }
      byNwk := byNwk[entry.nwk := entry.ieee];
      devices := devices[entry.ieee := entry];
    }

    /** Records a new short address; returns the previous one when it really changed. */
    method SetAddress(ieee: u64, nwk: u16) returns (previous: Option<u16>)
      modifies this
      ensures View() == Readdressed(old(View()), ieee, nwk)
      ensures previous == if ieee in old(devices) && old(devices)[ieee].nwk != nwk then Some(old(devices)[ieee].nwk) else None
    {
      if ieee !in devices {
        return None;
      }
      var entry := devices[ieee];
      if entry.nwk == nwk {
        return None;
      }
      devices := devices[ieee := entry.(nwk := nwk)];
      byNwk := byNwk - {entry.nwk};
      byNwk := byNwk[nwk := ieee];
      previous := Some(entry.nwk);
    }

    method RemoveDevice(ieee: u64) returns (removed: Option<Entry<T>>)
      modifies this
      ensures View() == Removed(old(View()), ieee)
      ensures removed == if ieee in old(devices) then Some(old(devices)[ieee]) else None
    {
      if ieee !in devices {
        return None;
      }
      removed := Some(devices[ieee]);
      byNwk := byNwk - {devices[ieee].nwk};
      devices := devices - {ieee};
    }
  }

  // ---------------------------------------------------------------------
  // Every run

  /** Each reverse entry points at a stored device whose current short address is
      that very key; so no device has two. */
  ghost predicate Sound<T>(t: Table<T>) {
    && (forall ieee :: ieee in t.devices ==> t.devices[ieee].ieee == ieee)
    && forall nwk :: nwk in t.byNwk ==> t.byNwk[nwk] in t.devices && t.devices[t.byNwk[nwk]].nwk == nwk
  }

  /** The reverse index is exactly the inverse of the table. */
  ghost predicate Inverse<T>(t: Table<T>) {
    && Sound(t)
    && forall ieee :: ieee in t.devices ==> t.devices[ieee].nwk in t.byNwk && t.byNwk[t.devices[ieee].nwk] == ieee
  }

  /** The short address an operation claims, if it does, is held by no other device. */
  ghost predicate ClaimsFree<T>(t: Table<T>, op: Op<T>) {
    match op
    case Insert(entry) => FreeFor(t, entry.ieee, entry.nwk)
    case SetNwk(ieee, nwk) => ieee in t.devices ==> FreeFor(t, ieee, nwk)
    case Remove(_) => true
  }

  ghost predicate FreeFor<T>(t: Table<T>, ieee: u64, nwk: u16) {
    forall other :: other in t.devices && other != ieee ==> t.devices[other].nwk != nwk
  }

  /** After any run, no frame is attributed to a device that does not have its
      short address, and no device has two reverse entries. */
  lemma {:induction false} AlwaysSound<T>(ops: seq<Op<T>>)
    ensures Sound(Run(ops))
    ensures forall a, b :: a in Run(ops).byNwk && b in Run(ops).byNwk && Run(ops).byNwk[a] == Run(ops).byNwk[b] ==> a == b
  {
    if ops != [] {
      AlwaysSound(ops[..|ops| - 1]);
    }
  }

  /** From an exact index, one operation leaves it exact if and only if the short
      address it claims was free of other devices. */
  lemma ExactStep<T>(t: Table<T>, op: Op<T>)
    requires Inverse(t)
    ensures Inverse(After(t, op)) <==> ClaimsFree(t, op)
  {
    var u := After(t, op);
    match op
    case Insert(entry) =>
      if !FreeFor(t, entry.ieee, entry.nwk) {
        var other :| other in t.devices && other != entry.ieee && t.devices[other].nwk == entry.nwk;
        assert other in u.devices && u.byNwk[u.devices[other].nwk] == entry.ieee;
      }
    case SetNwk(ieee, nwk) =>
      if ieee in t.devices && !FreeFor(t, ieee, nwk) {
        var other :| other in t.devices && other != ieee && t.devices[other].nwk == nwk;
        assert t.byNwk[nwk] == other;
        assert other in u.devices && u.byNwk[u.devices[other].nwk] == ieee;
      }
    case Remove(_) =>
  }

  /** When every claimed address was free when it was claimed, the reverse index
      is exactly the inverse of the table, however long the run. */
  lemma {:induction false} ExactRun<T>(ops: seq<Op<T>>)
    requires forall i :: 0 <= i < |ops| ==> ClaimsFree(Run(ops[..i]), ops[i])
    ensures Inverse(Run(ops))
  {
    if ops != [] {
      var before := ops[..|ops| - 1];
      forall i | 0 <= i < |before|
        ensures ClaimsFree(Run(before[..i]), before[i])
      {
        assert before[..i] == ops[..i];
      }
      ExactRun(before);
      ExactStep(Run(before), ops[|ops| - 1]);
    }
  }

  ghost predicate AlwaysExact<T>(ops: seq<Op<T>>) { forall k :: 0 <= k <= |ops| ==> Inverse(Run(ops[..k])) }

  ghost predicate AlwaysFree<T>(ops: seq<Op<T>>) { forall i :: 0 <= i < |ops| ==> ClaimsFree(Run(ops[..i]), ops[i]) }

  /** The reverse index is the exact inverse throughout a run if and only if every
      claimed address was free when it was claimed. */
  lemma ExactThroughout<T>(ops: seq<Op<T>>)
    ensures AlwaysExact(ops) <==> AlwaysFree(ops)
  {
    if AlwaysExact(ops) {
      forall i | 0 <= i < |ops|
        ensures ClaimsFree(Run(ops[..i]), ops[i])
      {
        assert ops[..i + 1][..i] == ops[..i];
        assert Inverse(Run(ops[..i])) && Inverse(Run(ops[..i + 1]));
        ExactStep(Run(ops[..i]), ops[i]);
      }
    }
    if AlwaysFree(ops) {
      forall k | 0 <= k <= |ops|
        ensures Inverse(Run(ops[..k]))
      {
        assert forall i :: 0 <= i < k ==> ops[..k][..i] == ops[..i];
        ExactRun(ops[..k]);
      }
    }
  }

  /** Without that, a departing device takes another's entry with it: the device
      that last claimed the address still holds it, and cannot be resolved. */
  lemma DepartureErasesAnother<T>(x: T)
    ensures var run: seq<Op<T>> := [Insert(Entry(1, 7, x)), Insert(Entry(2, 7, x)), Remove(1)];
            && 7 in Run(run[..2]).byNwk && Run(run[..2]).byNwk[7] == 2
            && 2 in Run(run).devices && Run(run).devices[2].nwk == 7 && 7 !in Run(run).byNwk
  {
    var run: seq<Op<T>> := [Insert(Entry(1, 7, x)), Insert(Entry(2, 7, x)), Remove(1)];
    assert run[..2] == [Insert(Entry(1, 7, x)), Insert(Entry(2, 7, x))];
    assert run[..2][..1] == [Insert(Entry(1, 7, x))];
    assert run[..2][..1][..0] == [];
    assert Run(run[..2][..1]) == Inserted(Table(map[], map[]), Entry(1, 7, x));
    assert Run(run[..2]) == Inserted(Run(run[..2][..1]), Entry(2, 7, x));
  }
}
