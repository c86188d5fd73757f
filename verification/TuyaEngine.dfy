/** The Tuya datapoint engine: one table turns reported datapoints into
    capability values and commands into datapoints.

    Scaled floats are reals. A definition is its datapoint table. */
module TuyaEngine {
  import opened Wrappers
  import opened Words
  import W = TuyaWire
  import S = State
  import Schedule

  datatype NumericSpec = NumericSpec(divisor: i64, offset: i64)

  datatype Kind =
    | KBool(inverted: bool)
    | KValue(spec: NumericSpec)
    | KEnum(names: seq<(i64, string)>)
    | KBitmap(bits: seq<(byte, string)>)
    | KString
    | KRaw
    | KBehavior(behavior: string)

  datatype Access = Report | ReportAndSet | WriteOnly

  datatype TuyaDatapoint = TuyaDatapoint(dp: byte, name: string, kind: Kind, access: Access)

  type Table = seq<TuyaDatapoint>

  datatype Command =
    | SetOn(on: bool)
    | SetBrightness(level: byte)
    | SetPosition(percent: byte)
    | SetPreset(preset: string)
    | SetTargetTemperature(degrees: real)
    | Open
    | Close
    | Stop
    | Lock
    | Unlock
    | Other

  datatype Intent = WantBool(on: bool) | WantNumber(n: i64) | WantNamed(name: string)

  /** A named behaviour: what it makes of a datapoint and of a command, `None`
      when it is not its concern. */
  datatype Behavior = Behavior(
    decode: (Table, W.Datapoint, string) -> Option<S.Changes>,
    encode: (Table, Command) -> Option<seq<W.Datapoint>>)

  type Behaviors = map<string, Behavior>

  // ---------------------------------------------------------------------
  // Numbers

  const I64_MAX := 0x7fff_ffff_ffff_ffff

  /** The nearest 64-bit number, which is what saturating arithmetic gives. */
  function Clamp(x: int): i64 {
    if x > I64_MAX then I64_MAX else if x < -I64_MAX - 1 then -I64_MAX - 1 else x
  }

  function Divisor(spec: NumericSpec): (d: i64)
    ensures d != 0
  {
    if spec.divisor == 0 then 1 else spec.divisor
  }

  function Apply(spec: NumericSpec, raw: i64): real {
    raw as real / Divisor(spec) as real + spec.offset as real
  }

  function RoundToI64(x: real): i64 {
    Clamp(if x >= 0.0 then (x + 0.5).Floor else -((-x + 0.5).Floor))
  }

  /** The raw value for a number: both steps saturate, then it has to fit 32 bits. */
  function RawNumber(spec: NumericSpec, n: i64): Option<i32> {
    var raw := Clamp(Clamp(n - spec.offset) * Divisor(spec));
    if -0x8000_0000 <= raw < 0x8000_0000 then Some(raw) else None
  }

  // ---------------------------------------------------------------------
  // The table

  function FindDp(table: Table, dp: byte): Option<TuyaDatapoint> {
    if table == [] then None else if table[0].dp == dp then Some(table[0]) else FindDp(table[1..], dp)
  }

  function FindName(table: Table, name: string): Option<TuyaDatapoint> {
    if table == [] then None else if table[0].name == name then Some(table[0]) else FindName(table[1..], name)
  }

  function NameOfRaw(names: seq<(i64, string)>, raw: int): Option<string> {
    if names == [] then None else if names[0].0 == raw then Some(names[0].1) else NameOfRaw(names[1..], raw)
  }

  function RawOfName(names: seq<(i64, string)>, name: string): Option<i64> {
    if names == [] then None else if names[0].1 == name then Some(names[0].0) else RawOfName(names[1..], name)
  }

  function LowerAscii(c: char): char {
    if 'A' <= c <= 'Z' then (c as int + 32) as char else c
  }

  predicate EqIgnoreCase(a: string, b: string) {
    |a| == |b| && forall i :: 0 <= i < |a| ==> LowerAscii(a[i]) == LowerAscii(b[i])
  }

  function OnOff(on: bool): string { if on then "ON" else "OFF" }

  function RawOfOnOff(names: seq<(i64, string)>, on: bool): Option<i64> {
    if names == [] then None
    else if EqIgnoreCase(names[0].1, OnOff(on)) then Some(names[0].0)
    else RawOfOnOff(names[1..], on)
  }

  function Pow2(n: nat): (p: nat)
    ensures p > 0
  {
    if n == 0 then 1 else 2 * Pow2(n - 1)
  }

  function SetBits(bits: seq<(byte, string)>, value: u32): seq<S.StateValue> {
    if bits == [] then []
    else
      (if value / Pow2(bits[0].0 % 32) % 2 == 1 then [S.Str(bits[0].1)] else []) + SetBits(bits[1..], value)
  }

  /** One datapoint's converter; nothing when the type contradicts the table. */
  function Convert(entry: TuyaDatapoint, value: W.Value): Option<S.StateValue> {
    match (entry.kind, value)
    case (KBool(inverted), Bool(on)) => Some(S.Bool(on != inverted))
    case (KBool(inverted), Enum(v)) => Some(S.Bool((v != 0) != inverted))
    case (KBool(inverted), Number(v)) => Some(S.Bool((v != 0) != inverted))
    case (KValue(spec), Number(raw)) => Some(S.Float(Apply(spec, raw)))
    case (KValue(spec), Bitmap(raw)) => Some(S.Float(Apply(spec, raw)))
    case (KEnum(names), Bool(on)) =>
      var named := NameOfRaw(names, if on then 1 else 0);
      Some(if named.Some? then S.Enum(named.value) else S.Bool(on))
    case (KEnum(names), Enum(raw)) =>
      var named := NameOfRaw(names, raw);
      Some(if named.Some? then S.Enum(named.value) else S.Int(raw))
    case (KBitmap(bits), Bitmap(value)) => Some(S.List(SetBits(bits, value)))
    case (KString, Str(text)) => Some(S.Str(text))
    case (KRaw, Raw(bytes)) => Some(S.List(seq(|bytes|, i requires 0 <= i < |bytes| => S.Int(bytes[i]))))
    case _ => None
  }

  /** What one datapoint contributes to a delta. */
  function Contribution(table: Table, behaviors: Behaviors, point: W.Datapoint): S.Changes {
    match FindDp(table, point.dp)
    case None => []
    case Some(entry) =>
      if entry.kind.KBehavior? then
        if entry.kind.behavior !in behaviors then []
        else
          match behaviors[entry.kind.behavior].decode(table, point, entry.name)
          case None => []
          case Some(delegated) => delegated
      else
        match Convert(entry, point.value)
        case None => []
        case Some(value) => [(entry.name, value)]
  }

  function StateOf(table: Table, behaviors: Behaviors, points: seq<W.Datapoint>): S.Changes {
    if points == [] then []
    else
      S.MergeIn(StateOf(table, behaviors, points[..|points| - 1]),
                Contribution(table, behaviors, points[|points| - 1]))
  }

  method DatapointsToState(table: Table, behaviors: Behaviors, points: seq<W.Datapoint>)
    returns (changes: S.StateChanges)
    ensures fresh(changes) && changes.entries == StateOf(table, behaviors, points)
  {
    changes := new S.StateChanges();
    for i := 0 to |points|
      invariant fresh(changes) && changes.entries == StateOf(table, behaviors, points[..i])
    {
      assert points[..i + 1][..i] == points[..i];
      ghost var before := changes.entries;
      assert S.MergeIn(before, []) == before;
      var entry := FindDp(table, points[i].dp);
      if entry.None? {
        continue;
      }
      if entry.value.kind.KBehavior? {
        if entry.value.kind.behavior in behaviors {
          var outcome := behaviors[entry.value.kind.behavior].decode(table, points[i], entry.value.name);
          if outcome.Some? {
            changes.Merge(outcome.value);
          }
        }
        continue;
      }
      var value := Convert(entry.value, points[i].value);
      if value.Some? {
        changes.Set(entry.value.name, value.value);
        assert [(entry.value.name, value.value)][..0] == [];
        assert S.MergeIn(before, [(entry.value.name, value.value)]) == S.SetIn(before, entry.value.name, value.value);
      }
    }
    assert points[..|points|] == points;
  }

  /** The capability a command addresses, and the value it asks for. */
  function IntentOf(command: Command): Option<(string, Intent)> {
    match command
    case SetOn(on) => Some(("state", WantBool(on)))
    case SetBrightness(level) => Some(("brightness", WantNumber(level)))
    case SetPosition(percent) => Some(("position", WantNumber(percent)))
    case SetPreset(name) => Some(("preset", WantNamed(name)))
    case SetTargetTemperature(degrees) => Some(("current_heating_setpoint", WantNumber(RoundToI64(degrees))))
    case Open => Some(("state", WantNamed("OPEN")))
    case Close => Some(("state", WantNamed("CLOSE")))
    case Stop => Some(("state", WantNamed("STOP")))
    case Lock => Some(("lock", WantBool(true)))
    case Unlock => Some(("lock", WantBool(false)))
    case Other => None
  }

  function AsByte(raw: i64): Option<byte> { if 0 <= raw < 0x100 then Some(raw) else None }

  function EncodeIntent(entry: TuyaDatapoint, intent: Intent): Option<W.Value> {
    match (entry.kind, intent)
    case (KBool(inverted), WantBool(on)) => Some(W.Bool(on != inverted))
    case (KValue(spec), WantNumber(n)) =>
      var raw := RawNumber(spec, n);
      if raw.Some? then Some(W.Number(raw.value)) else None
    case (KEnum(names), WantNamed(name)) => EnumOf(RawOfName(names, name))
    case (KEnum(names), WantBool(on)) => EnumOf(RawOfOnOff(names, on))
    case (KString, WantNamed(name)) => Some(W.Str(name))
    case _ => None
  }

  function EnumOf(raw: Option<i64>): Option<W.Value> {
    if raw.Some? && AsByte(raw.value).Some? then Some(W.Enum(AsByte(raw.value).value)) else None
  }

  /** Lowers a command to a datapoint through the table, or refuses. */
  function CommandToDatapoint(table: Table, command: Command): Option<W.Datapoint> {
    match IntentOf(command)
    case None => None
    case Some((capability, intent)) =>
      match FindName(table, capability)
      case None => None
      case Some(entry) =>
        if entry.access == Report then None
        else
          match EncodeIntent(entry, intent)
          case None => None
          case Some(value) => Some(W.Datapoint(entry.dp, value))
  }

  /** Whether entry `i` names a registered behaviour that claims the command. */
  predicate Claims(table: Table, behaviors: Behaviors, command: Command, i: nat)
    requires i < |table|
  {
    && table[i].kind.KBehavior? && table[i].kind.behavior in behaviors
    && behaviors[table[i].kind.behavior].encode(table, command).Some?
  }

  /** Lowers a command through the first behaviour the table names that claims it. */
  method CommandViaBehavior(table: Table, behaviors: Behaviors, command: Command)
    returns (points: Option<seq<W.Datapoint>>)
    ensures points == None <==> forall i :: 0 <= i < |table| ==> !Claims(table, behaviors, command, i)
    ensures points.Some? ==>
              exists i :: 0 <= i < |table| && Claims(table, behaviors, command, i) &&
                          (forall j :: 0 <= j < i ==> !Claims(table, behaviors, command, j)) &&
                          points == behaviors[table[i].kind.behavior].encode(table, command)
  {
    for i := 0 to |table|
      invariant forall j :: 0 <= j < i ==> !Claims(table, behaviors, command, j)
    {
      if table[i].kind.KBehavior? && table[i].kind.behavior in behaviors {
        var outcome := behaviors[table[i].kind.behavior].encode(table, command);
        if outcome.Some? {
          assert Claims(table, behaviors, command, i);
          return outcome;
        }
      }
    }
    return None;
  }

  // ---------------------------------------------------------------------
  // The behaviour this build ships

  const SCHEDULE := "tuya:thermostat-schedule"

  function FindSchedule(table: Table): Option<TuyaDatapoint> {
    if table == [] then None
    else if table[0].kind == KBehavior(SCHEDULE) then Some(table[0])
    else FindSchedule(table[1..])
  }

  function DecodeSchedulePoint(table: Table, point: W.Datapoint, capability: string): Option<S.Changes> {
    match FindDp(table, point.dp)
    case None => None
    case Some(entry) =>
      if entry.kind != KBehavior(SCHEDULE) || !point.value.Raw? then None
      else
        match Schedule.DecodeText(point.value.bytes)
        case None => Some([])
        case Some(text) => Some([(capability, S.Str(text))])
  }

  function EncodeScheduleCommand(table: Table, command: Command): Option<seq<W.Datapoint>> {
    if !command.SetPreset? then None
    else
      match FindSchedule(table)
      case None => None
      case Some(entry) =>
        match Schedule.ScheduleDay(entry.name)
        case None => None
        case Some(day) =>
          match Schedule.EncodeText(day, command.preset)
          case None => Some([])
          case Some(bytes) => Some([W.Datapoint(entry.dp, W.Raw(bytes))])
  }

  function Builtins(): Behaviors {
    map[SCHEDULE := Behavior((t, p, c) => DecodeSchedulePoint(t, p, c), (t, c) => EncodeScheduleCommand(t, c))]
  }

  // ---------------------------------------------------------------------
  // Read back

  /** Distinct datapoint numbers, and distinct raw values in each name table. */
  predicate Unambiguous(table: Table) {
    && (forall i, j :: 0 <= i < j < |table| ==> table[i].dp != table[j].dp)
    && forall i :: 0 <= i < |table| && table[i].kind.KEnum? ==> DistinctRaws(table[i].kind.names)
  }

  predicate DistinctRaws(names: seq<(i64, string)>) {
    forall i, j :: 0 <= i < j < |names| ==> names[i].0 != names[j].0
  }

  /** Whether a capability value is what a command asked for. */
  predicate Means(value: S.StateValue, intent: Intent) {
    match intent
    case WantBool(on) => value == S.Bool(on) || (value.Enum? && EqIgnoreCase(value.name, OnOff(on)))
    case WantNumber(n) => value == S.Float(n as real)
    case WantNamed(name) => value == S.Enum(name) || value == S.Str(name)
  }

  lemma MulAtLeast(a: int, b: int)
    requires a >= 0 && b >= 1
    ensures a * b >= a
  {
    assert a * (b - 1) >= 0;
  }

  /** Multiplying by a non-zero integer never shrinks. */
  lemma MulGrows(x: int, d: int)
    requires d != 0
    ensures x >= 0 ==> x * d >= x || x * d <= -x
    ensures x <= 0 ==> x * d >= -x || x * d <= x
  {
    var a, b := if x >= 0 then x else -x, if d >= 1 then d else -d;
    MulAtLeast(a, b);
    assert x * d == a * b || x * d == -(a * b);
  }

  /** A number is accepted exactly when the unbounded product fits 32 bits: the
      saturating subtraction and multiplication never show in what is sent. */
  lemma NumberIsExact(spec: NumericSpec, n: i64)
    ensures var exact := (n - spec.offset) * Divisor(spec);
            RawNumber(spec, n) == if -0x8000_0000 <= exact < 0x8000_0000 then Some(exact as i32) else None
    ensures RawNumber(spec, n).Some? ==> Apply(spec, RawNumber(spec, n).value) == n as real
  {
    var difference, d := n - spec.offset, Divisor(spec);
    MulGrows(difference, d);
    MulGrows(Clamp(difference), d);
    if RawNumber(spec, n).Some? {
      RealQuotient(difference, d);
    }
  }

  lemma RealQuotient(x: int, d: int)
    requires d != 0
    ensures (x * d) as real / d as real == x as real
  {
    assert (x * d) as real == x as real * d as real;
  }

  lemma {:induction false} FindNameFinds(table: Table, name: string)
    ensures FindName(table, name).Some? ==> FindName(table, name).value in table && FindName(table, name).value.name == name
  {
    if table != [] {
      FindNameFinds(table[1..], name);
    }
  }

  lemma {:induction false} FindDpFinds(table: Table, i: nat)
    requires i < |table| && forall j :: 0 <= j < i ==> table[j].dp != table[i].dp
    ensures FindDp(table, table[i].dp) == Some(table[i])
  {
    if i > 0 {
      FindDpFinds(table[1..], i - 1);
    }
  }

  lemma {:induction false} NameReadsBack(names: seq<(i64, string)>, raw: i64, i: nat)
    requires DistinctRaws(names) && i < |names| && names[i].0 == raw
    ensures NameOfRaw(names, raw) == Some(names[i].1)
  {
    if i > 0 {
      NameReadsBack(names[1..], raw, i - 1);
    }
  }

  lemma {:induction false} RawOfNameAt(names: seq<(i64, string)>, name: string) returns (i: nat)
    requires RawOfName(names, name).Some?
    ensures i < |names| && names[i] == (RawOfName(names, name).value, name)
  {
    if names[0].1 == name {
      i := 0;
    } else {
      var j := RawOfNameAt(names[1..], name);
      i := j + 1;
    }
  }

  lemma {:induction false} RawOfOnOffAt(names: seq<(i64, string)>, on: bool) returns (i: nat)
    requires RawOfOnOff(names, on).Some?
    ensures i < |names| && names[i].0 == RawOfOnOff(names, on).value && EqIgnoreCase(names[i].1, OnOff(on))
  {
    if EqIgnoreCase(names[0].1, OnOff(on)) {
      i := 0;
    } else {
      var j := RawOfOnOffAt(names[1..], on);
      i := j + 1;
    }
  }

  lemma {:induction false} NameOfListed(names: seq<(i64, string)>, i: nat)
    requires i < |names|
    ensures NameOfRaw(names, names[i].0).Some?
  {
    if i > 0 {
      NameOfListed(names[1..], i - 1);
    }
  }

  /** Whether the raw value sent still stands for the intent: for a named value, the
      first name the table lists for it has to mean what was asked. */
  predicate StillMeans(entry: TuyaDatapoint, value: W.Value, intent: Intent) {
    entry.kind.KEnum? ==>
      value.Enum? && var name := NameOfRaw(entry.kind.names, value.choice);
      name.Some? && Means(S.Enum(name.value), intent)
  }

  /** What the converter makes of an encoded intent is the intent, exactly when the
      raw value still means it. */
  lemma ConvertUndoesEncode(entry: TuyaDatapoint, intent: Intent)
    requires EncodeIntent(entry, intent).Some?
    ensures !entry.kind.KBehavior?
    ensures var sent := EncodeIntent(entry, intent).value;
            var value := Convert(entry, sent);
            value.Some? && (Means(value.value, intent) <==> StillMeans(entry, sent, intent))
  {
    match (entry.kind, intent)
    case (KValue(spec), WantNumber(n)) => NumberIsExact(spec, n);
    case (KEnum(names), WantNamed(name)) =>
      var i := RawOfNameAt(names, name);
      NameOfListed(names, i);
    case (KEnum(names), WantBool(on)) =>
      var i := RawOfOnOffAt(names, on);
      NameOfListed(names, i);
    case _ =>
  }

  lemma DistinctStillMeans(entry: TuyaDatapoint, intent: Intent)
    requires EncodeIntent(entry, intent).Some?
    requires entry.kind.KEnum? ==> DistinctRaws(entry.kind.names)
    ensures StillMeans(entry, EncodeIntent(entry, intent).value, intent)
  {
    match (entry.kind, intent)
    case (KEnum(names), WantNamed(name)) =>
      var i := RawOfNameAt(names, name);
      NameReadsBack(names, names[i].0, i);
    case (KEnum(names), WantBool(on)) =>
      var i := RawOfOnOffAt(names, on);
      NameReadsBack(names, names[i].0, i);
    case _ =>
  }

  /** The table entry a command is lowered through. */
  function EntryOf(table: Table, command: Command): TuyaDatapoint
    requires CommandToDatapoint(table, command).Some?
  {
    FindName(table, IntentOf(command).value.0).value
  }

  /** Whether a delta is exactly the change a command asked for. */
  predicate IsChangeAsked(state: S.Changes, command: Command)
    requires IntentOf(command).Some?
  {
    |state| == 1 && state[0].0 == IntentOf(command).value.0 && Means(state[0].1, IntentOf(command).value.1)
  }

  /** Whether the table reports what a command sends: the datapoint number finds the
      entry the command went through, and the raw value still means the intent. */
  predicate Reports(table: Table, command: Command)
    requires CommandToDatapoint(table, command).Some?
  {
    var entry, point := EntryOf(table, command), CommandToDatapoint(table, command).value;
    FindDp(table, entry.dp) == Some(entry) && StillMeans(entry, point.value, IntentOf(command).value.1)
  }

  /** Behaviours that report only under the capability they were handed. */
  ghost predicate KeepToTheirOwn(behaviors: Behaviors) {
    forall name, table, point, capability :: name in behaviors ==>
      var changes := behaviors[name].decode(table, point, capability);
      changes.Some? ==> forall i :: 0 <= i < |changes.value| ==> changes.value[i].0 == capability
  }

  lemma BuiltinsKeepToTheirOwn()
    ensures KeepToTheirOwn(map[]) && KeepToTheirOwn(Builtins())
  {
  }

  lemma ContributionIs(table: Table, behaviors: Behaviors, command: Command)
    requires CommandToDatapoint(table, command).Some?
    requires FindDp(table, EntryOf(table, command).dp) == Some(EntryOf(table, command))
    ensures var point := CommandToDatapoint(table, command).value;
            var entry := EntryOf(table, command);
            Convert(entry, point.value).Some? && !entry.kind.KBehavior? &&
            StateOf(table, behaviors, [point]) == [(entry.name, Convert(entry, point.value).value)]
  {
    ConvertUndoesEncode(EntryOf(table, command), IntentOf(command).value.1);
    SinglePoint(table, behaviors, CommandToDatapoint(table, command).value);
  }

  lemma {:induction false} DpFoundEarlier(table: Table, name: string)
    requires FindName(table, name).Some?
    ensures var entry := FindName(table, name).value;
            var found := FindDp(table, entry.dp);
            found.Some? && (found.value == entry || found.value.name != name)
  {
    if table[0].name != name {
      DpFoundEarlier(table[1..], name);
    }
  }

  lemma ContributesItsName(table: Table, behaviors: Behaviors, point: W.Datapoint, name: string)
    requires KeepToTheirOwn(behaviors)
    requires FindDp(table, point.dp).Some? && FindDp(table, point.dp).value.name != name
    ensures var state := StateOf(table, behaviors, [point]);
            forall i :: 0 <= i < |state| ==> state[i].0 != name
  {
    var c := Contribution(table, behaviors, point);
    assert [point][..0] == [] && StateOf(table, behaviors, []) == [];
    S.BuiltInFirstInsertionOrder(c);
    S.FirstOccurrencesUnique(S.Ids(c));
    var state := StateOf(table, behaviors, [point]);
    assert state == S.MergeIn([], c);
    forall i | 0 <= i < |state|
      ensures state[i].0 != name
    {
      assert S.Ids(state)[i] == state[i].0;
      assert state[i].0 in S.Ids(c);
    }
  }

  /** Exactly which commands read back: for every table, a command it accepts is
      reported as the change asked for, and nothing else, if and only if its
      datapoint number leads back to its entry and its raw value still means it. */
  lemma ReadsBackExactly(table: Table, behaviors: Behaviors, command: Command)
    requires CommandToDatapoint(table, command).Some? && KeepToTheirOwn(behaviors)
    ensures IsChangeAsked(StateOf(table, behaviors, [CommandToDatapoint(table, command).value]), command)
            <==> Reports(table, command)
  {
    var point := CommandToDatapoint(table, command).value;
    var (capability, intent) := IntentOf(command).value;
    var entry := EntryOf(table, command);
    FindNameFinds(table, capability);
    DpFoundEarlier(table, capability);
    ConvertUndoesEncode(entry, intent);
    if FindDp(table, entry.dp) == Some(entry) {
      ContributionIs(table, behaviors, command);
    } else {
      ContributesItsName(table, behaviors, point, capability);
    }
  }

  /** With distinct numbers and distinct raw values every command reads back. */
  lemma UnambiguousReports(table: Table, command: Command)
    requires Unambiguous(table) && CommandToDatapoint(table, command).Some?
    ensures Reports(table, command)
  {
    var entry := EntryOf(table, command);
    FindNameFinds(table, IntentOf(command).value.0);
    var i :| 0 <= i < |table| && table[i] == entry;
    FindDpFinds(table, i);
    DistinctStillMeans(entry, IntentOf(command).value.1);
  }

  /** A command the table accepts, sent over the wire and reported back, reads as
      exactly one change: the capability addressed, with the value asked for. */
  lemma CommandReadsBack(table: Table, behaviors: Behaviors, command: Command, sequence: u16, repair: W.Repair)
    requires CommandToDatapoint(table, command).Some? && Reports(table, command)
    requires W.Fits(CommandToDatapoint(table, command).value.value)
    ensures var point := CommandToDatapoint(table, command).value;
            && W.DecodeBytes(W.EncodeBytes(sequence, [point]), repair) == Ok((sequence, [point]))
            && IsChangeAsked(StateOf(table, behaviors, [point]), command)
  {
    var point := CommandToDatapoint(table, command).value;
    FindNameFinds(table, IntentOf(command).value.0);
    ConvertUndoesEncode(EntryOf(table, command), IntentOf(command).value.1);
    ContributionIs(table, behaviors, command);
    W.EncodedDecodes(sequence, [point], repair);
  }

  /** A setpoint is rounded to a whole number before the table scales it, so it
      reads back as the temperature asked for exactly when that is a whole one. */
  lemma SetpointReadsBack(table: Table, behaviors: Behaviors, degrees: real, sequence: u16, repair: W.Repair)
    requires CommandToDatapoint(table, SetTargetTemperature(degrees)).Some?
    requires Reports(table, SetTargetTemperature(degrees))
    ensures var point := CommandToDatapoint(table, SetTargetTemperature(degrees)).value;
            StateOf(table, behaviors, [point]) == [("current_heating_setpoint", S.Float(degrees))] <==>
            degrees == degrees.Floor as real && -I64_MAX - 1 <= degrees.Floor <= I64_MAX
  {
    CommandReadsBack(table, behaviors, SetTargetTemperature(degrees), sequence, repair);
    WholeRounds(degrees);
  }

  lemma WholeRounds(x: real)
    ensures RoundToI64(x) as real == x <==> x == x.Floor as real && -I64_MAX - 1 <= x.Floor <= I64_MAX
  {
    if x == x.Floor as real {
      assert (x + 0.5).Floor == x.Floor;
      assert (-x + 0.5).Floor == -x.Floor;
    }
  }

  lemma SinglePoint(table: Table, behaviors: Behaviors, point: W.Datapoint)
    requires |Contribution(table, behaviors, point)| <= 1
    ensures StateOf(table, behaviors, [point]) == Contribution(table, behaviors, point)
  {
    var c := Contribution(table, behaviors, point);
    assert [point][..0] == [];
    if |c| == 1 {
      assert c[..0] == [];
      assert S.MergeIn([], c) == S.SetIn([], c[0].0, c[0].1);
    }
  }

  /** An earlier entry with the same number takes the report, under its own name. */
  lemma DuplicateNumberMisreads(before: TuyaDatapoint, state: TuyaDatapoint, on: bool)
    requires before.dp == state.dp && before.name != "state" && before.kind.KBool?
    requires state.name == "state" && state.kind.KBool? && state.access != Report
    ensures var table := [before, state];
            var point := CommandToDatapoint(table, SetOn(on));
            point.Some? && !Reports(table, SetOn(on)) &&
            StateOf(table, map[], [point.value]) == [(before.name, Convert(before, point.value.value).value)]
  {
    var table := [before, state];
    assert table[1..] == [state];
    assert FindName(table, "state") == FindName(table[1..], "state");
    SinglePoint(table, map[], CommandToDatapoint(table, SetOn(on)).value);
  }

  /** So does an earlier name for the same raw value. */
  lemma DuplicateRawMisreads(dp: byte, raw: byte, first: string, second: string)
    requires first != second
    ensures var table := [TuyaDatapoint(dp, "preset", KEnum([(raw, first), (raw, second)]), ReportAndSet)];
            CommandToDatapoint(table, SetPreset(second)) == Some(W.Datapoint(dp, W.Enum(raw))) &&
            StateOf(table, map[], [W.Datapoint(dp, W.Enum(raw))]) == [("preset", S.Enum(first))]
  {
    var names: seq<(i64, string)> := [(raw, first), (raw, second)];
    var table := [TuyaDatapoint(dp, "preset", KEnum(names), ReportAndSet)];
    assert names[1..] == [(raw, second)];
    assert RawOfName(names, second) == RawOfName(names[1..], second) == Some(raw);
    SinglePoint(table, map[], W.Datapoint(dp, W.Enum(raw)));
  }

  lemma {:induction false} FindScheduleAt(table: Table) returns (i: nat)
    requires FindSchedule(table).Some?
    ensures i < |table| && table[i] == FindSchedule(table).value && table[i].kind == KBehavior(SCHEDULE)
  {
    if table[0].kind == KBehavior(SCHEDULE) {
      i := 0;
    } else {
      var j := FindScheduleAt(table[1..]);
      i := j + 1;
    }
  }

  /** Whether a delta is one schedule text, under a name, that packs to given bytes. */
  predicate IsSchedule(state: S.Changes, name: string, day: byte, bytes: seq<byte>) {
    |state| == 1 && state[0].0 == name && state[0].1.Str? && Schedule.EncodeText(day, state[0].1.s) == Some(bytes)
  }

  /** A schedule sent through the shipped behaviour is reported back under the
      schedule's own capability, as text of the same schedule, if and only if its
      datapoint number leads back to its entry. */
  lemma ScheduleReadsBack(table: Table, text: string, point: W.Datapoint)
    requires EncodeScheduleCommand(table, SetPreset(text)) == Some([point])
    ensures var entry := FindSchedule(table).value;
            IsSchedule(StateOf(table, Builtins(), [point]), entry.name,
                       Schedule.ScheduleDay(entry.name).value, point.value.bytes)
            <==> FindDp(table, entry.dp) == Some(entry)
  {
    var entry := FindSchedule(table).value;
    DpFindsSchedule(table);
    if FindDp(table, entry.dp) == Some(entry) {
      ScheduleContributes(table, text, point);
    } else {
      OtherContributes(table, point);
    }
  }

  lemma ScheduleContributes(table: Table, text: string, point: W.Datapoint)
    requires EncodeScheduleCommand(table, SetPreset(text)) == Some([point])
    requires FindDp(table, point.dp) == FindSchedule(table)
    ensures var entry := FindSchedule(table).value;
            IsSchedule(StateOf(table, Builtins(), [point]), entry.name,
                       Schedule.ScheduleDay(entry.name).value, point.value.bytes)
  {
    var entry := FindSchedule(table).value;
    var i := FindScheduleAt(table);
    Schedule.TextRoundTrip(Schedule.ScheduleDay(entry.name).value, text);
    SinglePoint(table, Builtins(), point);
  }

  lemma OtherContributes(table: Table, point: W.Datapoint)
    requires point.value.Raw?
    requires FindDp(table, point.dp).Some? && FindDp(table, point.dp).value.kind != KBehavior(SCHEDULE)
    ensures var state := StateOf(table, Builtins(), [point]); forall i :: 0 <= i < |state| ==> !state[i].1.Str?
  {
    SinglePoint(table, Builtins(), point);
  }

  lemma {:induction false} DpFindsSchedule(table: Table)
    requires FindSchedule(table).Some?
    ensures var entry := FindSchedule(table).value;
            var found := FindDp(table, entry.dp);
            found.Some? && (found.value == entry || found.value.kind != KBehavior(SCHEDULE))
  {
    if table[0].kind != KBehavior(SCHEDULE) {
      DpFindsSchedule(table[1..]);
    }
  }

  /** And the wire carries it unchanged when it fits the length field. */
  lemma ScheduleCrossesTheWire(table: Table, text: string, point: W.Datapoint, sequence: u16, repair: W.Repair)
    requires EncodeScheduleCommand(table, SetPreset(text)) == Some([point])
    ensures W.DecodeBytes(W.EncodeBytes(sequence, [point]), repair) == Ok((sequence, [point])) <==> W.Fits(point.value)
  {
    W.EncodedDecodes(sequence, [point], repair);
  }
}
