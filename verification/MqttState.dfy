/** The MQTT layer's accumulated state: every state change is published as the
    device's whole known state. */
module MqttState {
  import opened Wrappers
  import opened Words
  import opened State

  datatype Json =
    | JNull
    | JBool(b: bool)
    | JInt(i: int)
    | JNumber(x: real)
    | JString(s: string)
    | JArray(items: seq<Json>)
    | JObject(fields: map<string, Json>)

  type Fields = map<string, Json>

  const EXACT_LIMIT := 9_007_199_254_740_992.0

  /** How a boolean capability is spelled, where a bare boolean is not published. */
  function BooleanRendering(capability: string): Option<(string, string)> {
    if capability == "state" then Some(("ON", "OFF"))
    else if capability == "child_lock" then Some(("LOCK", "UNLOCK"))
    else if capability == "window_open" then Some(("OPEN", "CLOSE"))
    else None
  }

  /** A float as an integer, when it is exactly one and every float that size is. */
  function Integral(x: real): Option<int> {
    if x == x.Floor as real && -EXACT_LIMIT <= x <= EXACT_LIMIT then Some(x.Floor) else None
  }

  function ToJson(value: StateValue): Json {
    match value
    case Bool(b) => JBool(b)
    case Int(i) => JInt(i)
    case Float(x) => if Integral(x).Some? then JInt(Integral(x).value) else JNumber(x)
    case Str(s) => JString(s)
    case Enum(s) => JString(s)
    case List(items) => JArray(seq(|items|, i requires 0 <= i < |items| => ToJson(items[i])))
    case Map(entries) => JObject(map k | k in entries :: ToJson(entries[k]))
    case Null => JNull
  }

  function Rendered(name: string, value: StateValue): Json {
    if value.Bool? && BooleanRendering(name).Some? then
      JString(if value.on then BooleanRendering(name).value.0 else BooleanRendering(name).value.1)
    else ToJson(value)
  }

  function AppliedTo(fields: Fields, changes: Changes): Fields {
    if changes == [] then fields
    else
      var last := changes[|changes| - 1];
      AppliedTo(fields, changes[..|changes| - 1])[last.0 := Rendered(last.0, last.1)]
  }

  class DeviceState {
    var fields: Fields

    constructor ()
      ensures fields == map[]
    {
      fields := map[];
    }

    method Apply(changes: Changes) returns (payload: Json)
      modifies this
      ensures fields == AppliedTo(old(fields), changes)
      ensures payload == JObject(fields)
    {
      for i := 0 to |changes|
        invariant fields == AppliedTo(old(fields), changes[..i])
      {
        assert changes[..i + 1][..i] == changes[..i];
        var (name, value) := changes[i];
        fields := fields[name := Rendered(name, value)];
      }
      assert changes[..|changes|] == changes;
      payload := JObject(fields);
    }
  }

  /** What every device is known to have published. */
  function FieldsOf(devices: map<u64, Fields>, ieee: u64): Fields {
    if ieee in devices then devices[ieee] else map[]
  }

  /** The store as a map from device to its fields. */
  class StateStore {
    var devices: map<u64, Fields>

    constructor ()
      ensures devices == map[]
    {
      devices := map[];
    }

    /** What a state change becomes: the whole state of that device. */
    method Translate(ieee: u64, changes: Changes) returns (payload: Json)
      modifies this
      ensures devices == old(devices)[ieee := AppliedTo(FieldsOf(old(devices), ieee), changes)]
      ensures payload == JObject(FieldsOf(devices, ieee))
    {
      var device := new DeviceState();
      device.fields := FieldsOf(devices, ieee);
      payload := device.Apply(changes);
      devices := devices[ieee := device.fields];
    }
  }

  // ---------------------------------------------------------------------
  // The published state mirrors the core snapshot

  /** Every known value, rendered. */
  function Rendering(values: Values): Fields {
    map id | id in values :: Rendered(id, values[id])
  }

  /** Accumulating renderings is rendering the accumulation. */
  lemma {:induction false} MirrorsDelta(values: Values, changes: Changes)
    ensures AppliedTo(Rendering(values), changes) == Rendering(Applied(values, changes))
    decreases |changes|
  {
    if changes != [] {
      MirrorsDelta(values, changes[..|changes| - 1]);
    }
  }

  /** The entries of a delta whose id is listed. */
  function Only(changes: Changes, ids: seq<string>): Changes { Part(changes, ids, true) }

  lemma {:induction false} PartKeepsUnique(changes: Changes, ids: seq<string>, listed: bool)
    requires Unique(Ids(changes))
    ensures Unique(Ids(Part(changes, ids, listed)))
    ensures forall id :: id in Ids(Part(changes, ids, listed)) ==> id in Ids(changes)
    decreases |changes|
  {
    if changes != [] {
      var before, last := changes[..|changes| - 1], changes[|changes| - 1];
      IdsOfLast(changes);
      PartKeepsUnique(before, ids, listed);
      var part := Part(before, ids, listed);
      assert (part + [last])[..|part|] == part;
      IdsOfLast(part + [last]);
    }
  }

  /** Nothing is lost by publishing only what `Apply` reported as changed. */
  lemma ChangedIdsSuffice(values: Values, changes: Changes)
    requires Unique(Ids(changes))
    ensures Applied(values, Only(changes, Updated(values, changes))) == Applied(values, changes)
    ensures AppliedTo(Rendering(values), Only(changes, Updated(values, changes))) == Rendering(Applied(values, changes))
  {
    var ids := Updated(values, changes);
    var only := Only(changes, ids);
    PartKeepsUnique(changes, ids, true);
    UpdatedIsExact(values, changes);
    forall id
      ensures ValueOf(Applied(values, only), id) == ValueOf(Applied(values, changes), id)
    {
      AppliedIs(values, only, id);
      AppliedIs(values, changes, id);
      GetFromPart(changes, ids, id);
    }
    SameValues(Applied(values, only), Applied(values, changes));
    MirrorsDelta(values, only);
  }

  /** One state change of one device, whole or cut down to its changed ids. */
  datatype Delta = Delta(ieee: u64, changes: Changes, changedOnly: bool)

  function SnapshotOf(core: map<u64, Values>, ieee: u64): Values {
    if ieee in core then core[ieee] else map[]
  }

  function CoreAfter(run: seq<Delta>): map<u64, Values> {
    if run == [] then map[]
    else
      var before, d := CoreAfter(run[..|run| - 1]), run[|run| - 1];
      before[d.ieee := Applied(SnapshotOf(before, d.ieee), d.changes)]
  }

  function MqttAfter(run: seq<Delta>): map<u64, Fields> {
    if run == [] then map[]
    else
      var before, d := MqttAfter(run[..|run| - 1]), run[|run| - 1];
      var known := SnapshotOf(CoreAfter(run[..|run| - 1]), d.ieee);
      var sent := if d.changedOnly then Only(d.changes, Updated(known, d.changes)) else d.changes;
      before[d.ieee := AppliedTo(FieldsOf(before, d.ieee), sent)]
  }

  /** After any run of deltas to any devices, each published state is the
      rendering, id by id, of that device's own snapshot and nothing else. */
  lemma {:induction false} StoreMirrorsCore(run: seq<Delta>)
    requires forall i :: 0 <= i < |run| ==> Unique(Ids(run[i].changes))
    ensures MqttAfter(run).Keys == CoreAfter(run).Keys
    ensures forall d :: FieldsOf(MqttAfter(run), d) == Rendering(SnapshotOf(CoreAfter(run), d))
  {
    if run == [] {
      assert Rendering(map[]) == map[];
    } else {
      var before, last := run[..|run| - 1], run[|run| - 1];
      StoreMirrorsCore(before);
      var known := SnapshotOf(CoreAfter(before), last.ieee);
      MirrorsDelta(known, last.changes);
      ChangedIdsSuffice(known, last.changes);
      forall d
        ensures FieldsOf(MqttAfter(run), d) == Rendering(SnapshotOf(CoreAfter(run), d))
      {
        assert FieldsOf(MqttAfter(before), d) == Rendering(SnapshotOf(CoreAfter(before), d));
      }
    }
  }
}
