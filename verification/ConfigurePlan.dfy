/** What joining a device does to it: the bindings and attribute reporting a
    definition asks for, and how the reports it then sends are understood. */
module ConfigurePlan {
  import opened Wrappers
  import opened Words
  import Codec
  import opened ZclTypes
  import Wire = ZclReporting
  import Tuya = TuyaEngine

  type NumericSpec = Tuya.NumericSpec

  /** One helper of a definition. Those that imply no source carry no fields here. */
  datatype Extend =
    | Light(brightness: bool)
    | Identify
    | OnOff
    | Battery(voltage: bool)
    | DeviceEndpoints
    | ElectricityMeter
    | Temperature(spec: NumericSpec)
    | Humidity(spec: NumericSpec)
    | Illuminance(spec: NumericSpec)
    | SoilMoisture(spec: NumericSpec)
    | Co2(spec: NumericSpec)
    | Occupancy
    | IasZoneAlarm
    | Numeric(name: string, cluster: u16, attribute: u16, spec: NumericSpec)
    | Binary(name: string, cluster: u16, attribute: u16, valueOn: i64)
    | EnumLookup(name: string, cluster: u16, attribute: u16, values: seq<(i64, string)>)
    | WindowCovering(lift: bool, tilt: bool)
    | Lock
    | TuyaBase
    | CommandsOnOff
    | CommandsLevelCtrl
    | ForcePowerSource
    | AddCustomCluster
    | Unsupported

  /** How a raw attribute value becomes a reading. */
  datatype Shape = Scaled(spec: NumericSpec) | Flagged(on: i64) | Named(values: seq<(i64, string)>)

  /** Where one capability's value comes from on the wire. */
  datatype Source = Source(capability: string, cluster: u16, attribute: u16, ty: ZclType, value: Shape)

  datatype Reporting = Reporting(attribute: u16, minInterval: u16, maxInterval: u16, minChange: u64)

  datatype Binding = Binding(endpoint: byte, cluster: u16, reporting: seq<Reporting>)

  datatype Definition = Definition(extend: seq<Extend>, bindings: seq<Binding>)

  datatype Endpoint = Endpoint(id: byte, inputs: seq<u16>)

  datatype Step = Step(
    endpoint: byte,
    cluster: u16,
    attribute: Option<u16>,
    attributeType: Option<ZclType>,
    minInterval: u16,
    maxInterval: u16,
    minChange: u64)

  type Key = (byte, u16, Option<u16>)

  const DEFAULT_MIN_INTERVAL: u16 := 10
  const DEFAULT_MAX_INTERVAL: u16 := 3600

  // ---------------------------------------------------------------------
  // Sources

  function ScaledSource(capability: string, cluster: u16, attribute: u16, ty: ZclType, divisor: i64): Source {
    Source(capability, cluster, attribute, ty, Scaled(Tuya.NumericSpec(divisor, 0)))
  }

  function FlagSource(capability: string, cluster: u16, ty: ZclType): Source {
    Source(capability, cluster, 0x0000, ty, Flagged(1))
  }

  /** The sources a helper implies without stating them. */
  function WellKnown(extend: Extend): Option<seq<Source>> {
    match extend
    case Temperature(_) => Some([ScaledSource("temperature", 0x0402, 0x0000, Int(2), 100)])
    case Humidity(_) => Some([ScaledSource("humidity", 0x0405, 0x0000, Uint(2), 100)])
    case SoilMoisture(_) => Some([ScaledSource("soil_moisture", 0x0408, 0x0000, Uint(2), 100)])
    case Co2(_) => Some([ScaledSource("co2", 0x040d, 0x0000, Single, 1)])
    case Illuminance(_) => Some([ScaledSource("illuminance", 0x0400, 0x0000, Uint(2), 1)])
    case Battery(voltage) =>
      Some([ScaledSource("battery", 0x0001, 0x0021, Uint(1), 2)]
           + if voltage then [ScaledSource("voltage", 0x0001, 0x0020, Uint(1), 10)] else [])
    case Occupancy => Some([FlagSource("occupancy", 0x0406, Bitmap(1))])
    case WindowCovering(lift, tilt) =>
      Some((if lift then [ScaledSource("position", 0x0102, 0x0008, Uint(1), 1)] else [])
           + if tilt then [ScaledSource("tilt", 0x0102, 0x0009, Uint(1), 1)] else [])
    case Lock => Some([Source("lock", 0x0101, 0x0000, Enum8, Flagged(1))])
    case OnOff => Some([FlagSource("state", 0x0006, Boolean)])
    case Light(brightness) =>
      Some([FlagSource("state", 0x0006, Boolean)]
           + if brightness then [ScaledSource("brightness", 0x0008, 0x0000, Uint(1), 1)] else [])
    case _ => None
  }

  function SourcesOf(extend: Extend): seq<Source> {
    match WellKnown(extend)
    case Some(implied) => implied
    case None =>
      match extend
      case Numeric(name, cluster, attribute, spec) => [Source(name, cluster, attribute, Int(2), Scaled(spec))]
      case Binary(name, cluster, attribute, on) => [Source(name, cluster, attribute, Boolean, Flagged(on))]
      case EnumLookup(name, cluster, attribute, values) => [Source(name, cluster, attribute, Enum8, Named(values))]
      case _ => []
  }

  function Sources(extend: seq<Extend>): seq<Source> {
    if extend == [] then [] else Sources(extend[..|extend| - 1]) + SourcesOf(extend[|extend| - 1])
  }

  method CollectSources(extend: seq<Extend>) returns (out: seq<Source>)
    ensures out == Sources(extend)
  {
    out := [];
    for i := 0 to |extend|
      invariant out == Sources(extend[..i])
    {
      assert extend[..i + 1][..i] == extend[..i];
      match WellKnown(extend[i])
      case Some(implied) => out := out + implied;
      case None =>
        match extend[i]
        case Numeric(name, cluster, attribute, spec) =>
          out := out + [Source(name, cluster, attribute, Int(2), Scaled(spec))];
        case Binary(name, cluster, attribute, on) =>
          out := out + [Source(name, cluster, attribute, Boolean, Flagged(on))];
        case EnumLookup(name, cluster, attribute, values) =>
          out := out + [Source(name, cluster, attribute, Enum8, Named(values))];
        case _ =>
    }
    assert extend[..|extend|] == extend;
  }

  /** The first source fed by an attribute, which is the one every reader uses. */
  function FirstSource(sources: seq<Source>, cluster: u16, attribute: u16): (r: Option<Source>)
    ensures r.Some? <==> exists i :: 0 <= i < |sources| && sources[i].cluster == cluster && sources[i].attribute == attribute
    ensures r.Some? ==> r.value in sources && r.value.cluster == cluster && r.value.attribute == attribute
  {
    if sources == [] then None
    else if sources[0].cluster == cluster && sources[0].attribute == attribute then Some(sources[0])
    else
      var rest := FirstSource(sources[1..], cluster, attribute);
      assert sources == [sources[0]] + sources[1..];
      rest
  }

  function TypeAt(sources: seq<Source>, cluster: u16, attribute: u16): Option<ZclType> {
    match FirstSource(sources, cluster, attribute)
    case None => None
    case Some(source) => Some(source.ty)
  }

  lemma {:induction false} FirstIsFirst(sources: seq<Source>, i: nat)
    requires i < |sources|
    requires forall j :: 0 <= j < i ==> sources[j].cluster != sources[i].cluster || sources[j].attribute != sources[i].attribute
    ensures FirstSource(sources, sources[i].cluster, sources[i].attribute) == Some(sources[i])
  {
    if i > 0 {
      assert sources[1..][i - 1] == sources[i];
      assert forall j :: 0 <= j < i - 1 ==> sources[1..][j] == sources[j + 1];
      FirstIsFirst(sources[1..], i - 1);
    }
  }

  // ---------------------------------------------------------------------
  // The plan

  predicate HasEndpoint(endpoints: seq<Endpoint>, id: byte) { exists e :: e in endpoints && e.id == id }

  predicate Hosts(endpoints: seq<Endpoint>, cluster: u16) { exists e :: e in endpoints && cluster in e.inputs }

  /** A device that has not listed its endpoints may have any. */
  predicate CanBind(endpoints: seq<Endpoint>, binding: Binding) {
    endpoints == [] || HasEndpoint(endpoints, binding.endpoint)
  }

  /** The first endpoint hosting a cluster, else endpoint 1. */
  function EndpointFor(endpoints: seq<Endpoint>, cluster: u16): byte {
    if endpoints == [] then 1
    else if cluster in endpoints[0].inputs then endpoints[0].id
    else EndpointFor(endpoints[1..], cluster)
  }

  function KeyOfStep(step: Step): Key { (step.endpoint, step.cluster, step.attribute) }

  function KeysOf(steps: seq<Step>): set<Key> { set step <- steps :: KeyOfStep(step) }

  function KeyFor(endpoints: seq<Endpoint>, source: Source): Key {
    (EndpointFor(endpoints, source.cluster), source.cluster, Some(source.attribute))
  }

  function BareStep(binding: Binding): Step {
    Step(binding.endpoint, binding.cluster, None, None, 0, 0, 0)
  }

  function StatedStep(binding: Binding, sources: seq<Source>, r: Reporting): Step {
    Step(binding.endpoint, binding.cluster, Some(r.attribute),
         TypeAt(sources, binding.cluster, r.attribute), r.minInterval, r.maxInterval, r.minChange)
  }

  function ImpliedStep(endpoints: seq<Endpoint>, source: Source): Step {
    Step(EndpointFor(endpoints, source.cluster), source.cluster, Some(source.attribute), Some(source.ty),
         DEFAULT_MIN_INTERVAL, DEFAULT_MAX_INTERVAL, 0)
  }

  function StatedSteps(binding: Binding, sources: seq<Source>, reporting: seq<Reporting>): seq<Step> {
    if reporting == [] then []
    else
      StatedSteps(binding, sources, reporting[..|reporting| - 1])
      + [StatedStep(binding, sources, reporting[|reporting| - 1])]
  }

  function BindingSteps(binding: Binding, sources: seq<Source>): seq<Step> {
    if binding.reporting == [] then [BareStep(binding)] else StatedSteps(binding, sources, binding.reporting)
  }

  /** The explicit bindings the device can host, flattened in order. */
  function Explicit(bindings: seq<Binding>, endpoints: seq<Endpoint>, sources: seq<Source>): seq<Step> {
    if bindings == [] then []
    else
      var last := bindings[|bindings| - 1];
      Explicit(bindings[..|bindings| - 1], endpoints, sources)
      + if CanBind(endpoints, last) then BindingSteps(last, sources) else []
  }

  /** Whether source `i` asks for something nobody before it asked for. */
  predicate Fresh(sources: seq<Source>, endpoints: seq<Endpoint>, taken: set<Key>, i: nat)
    requires i < |sources|
  {
    KeyFor(endpoints, sources[i]) !in taken &&
    forall j :: 0 <= j < i ==> KeyFor(endpoints, sources[j]) != KeyFor(endpoints, sources[i])
  }

  /** A step for each source that asks for something new. */
  function Implied(sources: seq<Source>, endpoints: seq<Endpoint>, taken: set<Key>): seq<Step> {
    if sources == [] then []
    else
      var last := |sources| - 1;
      Implied(sources[..last], endpoints, taken)
      + if Fresh(sources, endpoints, taken, last) then [ImpliedStep(endpoints, sources[last])] else []
  }

  function ExplicitOf(d: Definition, endpoints: seq<Endpoint>): seq<Step> {
    Explicit(d.bindings, endpoints, Sources(d.extend))
  }

  function ImpliedOf(d: Definition, endpoints: seq<Endpoint>): seq<Step> {
    Implied(Sources(d.extend), endpoints, KeysOf(ExplicitOf(d, endpoints)))
  }

  function PlanOf(d: Definition, endpoints: seq<Endpoint>): seq<Step> {
    ExplicitOf(d, endpoints) + ImpliedOf(d, endpoints)
  }

  /** Builds the plan: bindings first, so that a stated interval wins over a
      default, then whatever the capabilities imply beyond them. */
  method Build(d: Definition, endpoints: seq<Endpoint>) returns (steps: seq<Step>)
    ensures steps == PlanOf(d, endpoints)
  {
    var sources := CollectSources(d.extend);
    steps := [];
    for i := 0 to |d.bindings|
      invariant steps == Explicit(d.bindings[..i], endpoints, sources)
    {
      assert d.bindings[..i + 1][..i] == d.bindings[..i];
      if endpoints != [] && !HasEndpoint(endpoints, d.bindings[i].endpoint) {
        continue;
      }
      var more := StepsFor(d.bindings[i], sources);
      steps := steps + more;
    }
    assert d.bindings[..|d.bindings|] == d.bindings;
    var implied := ImplyBeyond(sources, endpoints, KeysOf(steps));
    steps := steps + implied;
  }

  method StepsFor(binding: Binding, sources: seq<Source>) returns (steps: seq<Step>)
    ensures steps == BindingSteps(binding, sources)
  {
    if binding.reporting == [] {
      return [BareStep(binding)];
    }
    steps := [];
    for k := 0 to |binding.reporting|
      invariant steps == StatedSteps(binding, sources, binding.reporting[..k])
    {
      assert binding.reporting[..k + 1][..k] == binding.reporting[..k];
      steps := steps + [StatedStep(binding, sources, binding.reporting[k])];
    }
    assert binding.reporting[..|binding.reporting|] == binding.reporting;
  }

  method ImplyBeyond(sources: seq<Source>, endpoints: seq<Endpoint>, taken: set<Key>) returns (steps: seq<Step>)
    ensures steps == Implied(sources, endpoints, taken)
  {
    steps := [];
    var seen := taken;
    for i := 0 to |sources|
      invariant steps == Implied(sources[..i], endpoints, taken)
      invariant forall key :: key in seen <==> key in taken || exists j :: 0 <= j < i && KeyFor(endpoints, sources[j]) == key
    {
      assert sources[..i + 1][..i] == sources[..i];
      var key := KeyFor(endpoints, sources[i]);
      assert key in seen <==> !Fresh(sources[..i + 1], endpoints, taken, i);
      if key !in seen {
        steps := steps + [ImpliedStep(endpoints, sources[i])];
      }
      seen := seen + {key};
    }
    assert sources[..|sources|] == sources;
  }

  // ---------------------------------------------------------------------
  // What a plan is

  /** Explicit steps are exactly the hostable bindings, with their own intervals. */
  lemma {:induction false} ExplicitExactly(bindings: seq<Binding>, endpoints: seq<Endpoint>, sources: seq<Source>, step: Step)
    ensures step in Explicit(bindings, endpoints, sources) <==>
            exists b :: b in bindings && CanBind(endpoints, b) &&
                        ((b.reporting == [] && step == BareStep(b)) ||
                         exists r :: r in b.reporting && step == StatedStep(b, sources, r))
  {
    if bindings != [] {
      var before, last := bindings[..|bindings| - 1], bindings[|bindings| - 1];
      assert bindings == before + [last];
      ExplicitExactly(before, endpoints, sources, step);
      StatedExactly(last, sources, last.reporting, step);
      assert step in Explicit(bindings, endpoints, sources) <==>
             step in Explicit(before, endpoints, sources) ||
             (CanBind(endpoints, last) && step in BindingSteps(last, sources));
    }
  }

  lemma {:induction false} StatedExactly(b: Binding, sources: seq<Source>, reporting: seq<Reporting>, step: Step)
    ensures step in StatedSteps(b, sources, reporting) <==>
            exists r :: r in reporting && step == StatedStep(b, sources, r)
  {
    if reporting != [] {
      var before, last := reporting[..|reporting| - 1], reporting[|reporting| - 1];
      assert reporting == before + [last];
      StatedExactly(b, sources, before, step);
    }
  }

  /** Implied steps are exactly the sources that ask for something new. */
  lemma {:induction false} ImpliedExactly(sources: seq<Source>, endpoints: seq<Endpoint>, taken: set<Key>, step: Step)
    ensures step in Implied(sources, endpoints, taken) <==>
            exists i :: 0 <= i < |sources| && Fresh(sources, endpoints, taken, i) && step == ImpliedStep(endpoints, sources[i])
  {
    if sources != [] {
      var last := |sources| - 1;
      var before := sources[..last];
      ImpliedExactly(before, endpoints, taken, step);
      assert forall i :: 0 <= i < last ==> before[i] == sources[i] &&
                                           Fresh(before, endpoints, taken, i) == Fresh(sources, endpoints, taken, i);
    }
  }

  /** Implied keys are new to the explicit ones and to each other, and every
      source's key is asked for by somebody. */
  lemma {:induction false} ImpliedKeys(sources: seq<Source>, endpoints: seq<Endpoint>, taken: set<Key>)
    ensures var implied := Implied(sources, endpoints, taken);
            (forall i :: 0 <= i < |implied| ==> KeyOfStep(implied[i]) !in taken) &&
            (forall i, j :: 0 <= i < j < |implied| ==> KeyOfStep(implied[i]) != KeyOfStep(implied[j])) &&
            taken + KeysOf(implied) == taken + set i | 0 <= i < |sources| :: KeyFor(endpoints, sources[i])
  {
    if sources != [] {
      var last := |sources| - 1;
      var before := sources[..last];
      ImpliedKeys(before, endpoints, taken);
      var earlier, implied := Implied(before, endpoints, taken), Implied(sources, endpoints, taken);
      var key := KeyFor(endpoints, sources[last]);
      var keys := set i | 0 <= i < last :: KeyFor(endpoints, before[i]);
      assert (set i | 0 <= i < |sources| :: KeyFor(endpoints, sources[i])) == keys + {key};
      assert Fresh(sources, endpoints, taken, last) <==> key !in taken + keys;
      if Fresh(sources, endpoints, taken, last) {
        KeysOfSnoc(earlier, ImpliedStep(endpoints, sources[last]));
      }
    }
  }

  lemma KeysOfSnoc(steps: seq<Step>, step: Step)
    ensures KeysOf(steps + [step]) == KeysOf(steps) + {KeyOfStep(step)}
  {
    assert forall s :: s in steps + [step] <==> s in steps || s == step;
  }

  /** Every source a definition implies is asked for, at the endpoint chosen for
      its cluster, and no implied step repeats another step. */
  lemma PlanCovers(d: Definition, endpoints: seq<Endpoint>, source: Source)
    requires source in Sources(d.extend)
    ensures exists step :: step in PlanOf(d, endpoints) && KeyOfStep(step) == KeyFor(endpoints, source)
  {
    var sources, explicit := Sources(d.extend), ExplicitOf(d, endpoints);
    ImpliedKeys(sources, endpoints, KeysOf(explicit));
    var i :| 0 <= i < |sources| && sources[i] == source;
    var key := KeyFor(endpoints, sources[i]);
    assert key in set j | 0 <= j < |sources| :: KeyFor(endpoints, sources[j]);
    HasKey(explicit, ImpliedOf(d, endpoints), key);
  }

  lemma HasKey(a: seq<Step>, b: seq<Step>, key: Key)
    requires key in KeysOf(a) + KeysOf(b)
    ensures exists step :: step in a + b && KeyOfStep(step) == key
  {
    var step :| (step in a || step in b) && KeyOfStep(step) == key;
    assert step in a + b;
  }

  /** The endpoint chosen for a cluster hosts it exactly when some endpoint does.
      Otherwise it is endpoint 1, whether or not the device has one: explicit
      bindings are checked against the device's endpoints, implied steps are not. */
  lemma {:induction false} EndpointForHosts(endpoints: seq<Endpoint>, cluster: u16)
    ensures (exists e :: e in endpoints && e.id == EndpointFor(endpoints, cluster) && cluster in e.inputs)
            <==> Hosts(endpoints, cluster)
    ensures !Hosts(endpoints, cluster) ==> EndpointFor(endpoints, cluster) == 1
    ensures HasEndpoint(endpoints, EndpointFor(endpoints, cluster)) <==> Hosts(endpoints, cluster) || HasEndpoint(endpoints, 1)
  {
    if endpoints != [] {
      assert endpoints == [endpoints[0]] + endpoints[1..];
      EndpointForHosts(endpoints[1..], cluster);
    }
  }

  lemma FallbackMayBeMissing(cluster: u16)
    ensures var endpoints := [Endpoint(2, [])];
            !HasEndpoint(endpoints, EndpointFor(endpoints, cluster))
  {
    EndpointForHosts([Endpoint(2, [])], cluster);
  }

  /** Whatever asked for a step, its wire type is the one the inbound side reads
      that attribute with. */
  lemma TypesAgree(d: Definition, endpoints: seq<Endpoint>, step: Step)
    requires step in PlanOf(d, endpoints) && step.attribute.Some?
    ensures step.attributeType == TypeAt(Sources(d.extend), step.cluster, step.attribute.value)
  {
    var sources, explicit := Sources(d.extend), ExplicitOf(d, endpoints);
    if step in explicit {
      ExplicitExactly(d.bindings, endpoints, sources, step);
    } else {
      ImpliedExactly(sources, endpoints, KeysOf(explicit), step);
      var i :| 0 <= i < |sources| && Fresh(sources, endpoints, KeysOf(explicit), i) && step == ImpliedStep(endpoints, sources[i]);
      assert forall j :: 0 <= j < i ==> KeyFor(endpoints, sources[j]) != KeyFor(endpoints, sources[i]);
      FirstIsFirst(sources, i);
    }
  }

  // ---------------------------------------------------------------------
  // Carrying the plan out

  /** The wire type reporting is configured with: the plan's, else the registry's. */
  function TypeFor(step: Step, registered: Option<ZclType>): Option<ZclType> {
    if step.attributeType.Some? then step.attributeType else registered
  }

  /** The reporting record sent for a step that names an attribute. */
  function RecordOf(step: Step, ty: ZclType): Wire.ReportRecord
    requires step.attribute.Some?
  {
    Wire.ReportRecord(step.attribute.value, ty, step.minInterval, step.maxInterval, step.minChange)
  }

  /** Types a helper implies: all have a discriminator, and none is a time or unknown. */
  predicate Implicit(ty: ZclType) { WireType(ty) && !ty.Time? && !ty.Unknown? }

  lemma TypesOf(extend: Extend)
    ensures forall i :: 0 <= i < |SourcesOf(extend)| ==>
                          Implicit(SourcesOf(extend)[i].ty) && SourcesOf(extend)[i].ty.Single? == extend.Co2?
    ensures extend.Co2? ==> |SourcesOf(extend)| == 1
  {
  }

  lemma SourcesSnoc(extend: seq<Extend>, s: Source)
    requires extend != []
    ensures s in Sources(extend) <==> s in Sources(extend[..|extend| - 1]) || s in SourcesOf(extend[|extend| - 1])
  {
  }

  /** A source has the single-precision type exactly when carbon dioxide implies it. */
  lemma {:induction false} SinglesAreCo2(extend: seq<Extend>)
    ensures forall s :: s in Sources(extend) ==> Implicit(s.ty)
    ensures (exists s :: s in Sources(extend) && s.ty.Single?) <==> exists e :: e in extend && e.Co2?
  {
    if extend != [] {
      var before, last := extend[..|extend| - 1], extend[|extend| - 1];
      assert extend == before + [last];
      SinglesAreCo2(before);
      TypesOf(last);
      assert last.Co2? ==> SourcesOf(last)[0] in SourcesOf(last);
      forall s
        ensures s in Sources(extend) <==> s in Sources(before) || s in SourcesOf(last)
      {
        SourcesSnoc(extend, s);
      }
    }
  }

  /** Any step of a plan, explicit or implied, can be sent exactly when its wire type
      is not single precision or a time, and a device that follows the standard then
      configures what the step says exactly when the record is readable: for types the
      plan carries, when the minimum change fits the attribute. */
  lemma StepIsConfigured(d: Definition, endpoints: seq<Endpoint>, step: Step, registered: Option<ZclType>)
    requires step in PlanOf(d, endpoints) && step.attribute.Some? && TypeFor(step, registered).Some?
    ensures var record := RecordOf(step, TypeFor(step, registered).value);
            var bytes := Wire.RecordsBytes([record]);
            (bytes.Ok? <==> !record.ty.Single? && !record.ty.Time?) &&
            (bytes.Ok? ==> (Wire.Parse(bytes.value) == Some([Wire.Asked(record)]) <==> Wire.Readable(record))) &&
            (bytes.Ok? && step.attributeType.Some? ==> (Wire.Readable(record) <==> Wire.ChangeFits(record)))
  {
    var record := RecordOf(step, TypeFor(step, registered).value);
    Wire.SucceedsExactly([record]);
    assert [record][0] == record;
    if Wire.RecordsBytes([record]).Ok? {
      Wire.OneRecord(record);
      if step.attributeType.Some? {
        TypeIsImplicit(d, endpoints, step);
        Wire.WireWidthAgrees(record);
      }
    }
  }

  lemma TypeIsImplicit(d: Definition, endpoints: seq<Endpoint>, step: Step)
    requires step in PlanOf(d, endpoints) && step.attribute.Some? && step.attributeType.Some?
    ensures Implicit(step.attributeType.value)
  {
    TypesAgree(d, endpoints, step);
    SinglesAreCo2(d.extend);
    assert FirstSource(Sources(d.extend), step.cluster, step.attribute.value).value in Sources(d.extend);
  }

  /** An implied step carries its type and no minimum change, so it is configured
      whenever it can be sent: exactly when its type is not single precision. */
  lemma ImpliedIsConfigured(d: Definition, endpoints: seq<Endpoint>, step: Step)
    requires step in ImpliedOf(d, endpoints)
    ensures step.attribute.Some? && step.attributeType.Some?
    ensures var record := RecordOf(step, step.attributeType.value);
            var bytes := Wire.RecordsBytes([record]);
            (bytes.Ok? <==> !record.ty.Single?) &&
            (bytes.Ok? ==> Wire.Parse(bytes.value) == Some([Wire.Asked(record)]))
  {
    ImpliedExactly(Sources(d.extend), endpoints, KeysOf(ExplicitOf(d, endpoints)), step);
    StepIsConfigured(d, endpoints, step, None);
    TypeIsImplicit(d, endpoints, step);
    ZeroFits(RecordOf(step, step.attributeType.value));
  }

  lemma ZeroFits(record: Wire.ReportRecord)
    requires record.minChange == 0 && WireType(record.ty)
    ensures Wire.ChangeFits(record)
  {
    if record.ty.Int? {
      var n: nat := record.ty.width;
      Pow256Monotone(1, n);
      Pow256Values();
    }
  }

  // ---------------------------------------------------------------------
  // Understanding the reports

  datatype Reading = NoReading | Number(x: real) | Flag(on: bool) | Name(name: string)

  function AsUint(value: ZclValue): Option<u64> {
    match value
    case UintValue(n) => Some(n)
    case Bits(n) => Some(n)
    case Enum(n) => Some(n)
    case Bool(b) => Some(if b then 1 else 0)
    case _ => None
  }

  function AsInt(value: ZclValue): Option<i64> {
    match value
    case IntValue(x) => Some(x)
    case UintValue(n) => Some(if n < TWO_TO_63 then n else n - TWO_TO_64)
    case _ => None
  }

  function NarrowUint(value: ZclValue): Option<i64> {
    match AsUint(value)
    case Some(n) => if n < TWO_TO_63 then Some(n) else None
    case None => None
  }

  function OrElse<T>(first: Option<T>, second: Option<T>): Option<T> {
    if first.Some? then first else second
  }

  /** The first name listed for a raw value. */
  function NameOf(values: seq<(i64, string)>, raw: i64): (r: Option<string>)
    ensures r.Some? <==> exists i :: 0 <= i < |values| && values[i].0 == raw
  {
    if values == [] then None
    else if values[0].0 == raw then Some(values[0].1)
    else
      assert values == [values[0]] + values[1..];
      NameOf(values[1..], raw)
  }

  function ReadShape(shape: Shape, value: ZclValue): Option<Reading> {
    match shape
    case Scaled(spec) =>
      (match OrElse(AsInt(value), NarrowUint(value))
       case Some(raw) => Some(Number(Tuya.Apply(spec, raw)))
       case None => None)
    case Flagged(on) =>
      (match OrElse(NarrowUint(value), AsInt(value))
       case Some(raw) => Some(Flag(raw == on))
       case None => None)
    case Named(values) =>
      (match OrElse(NarrowUint(value), AsInt(value))
       case Some(raw) =>
         (match NameOf(values, raw)
          case Some(name) => Some(Name(name))
          case None => None)
       case None => None)
  }

  /** A reported attribute as a capability and its reading, if anything models it. */
  function ReportToState(sources: seq<Source>, cluster: u16, attribute: u16, value: ZclValue): Option<(string, Reading)> {
    match FirstSource(sources, cluster, attribute)
    case None => None
    case Some(source) =>
      if value.Invalid? then Some((source.capability, NoReading))
      else
        match ReadShape(source.value, value)
        case None => None
        case Some(reading) => Some((source.capability, reading))
  }

  /** How the wire type and the shape of every source go together. */
  predicate ShapeMatches(source: Source) {
    match source.value
    case Scaled(_) => source.ty == Int(2) || source.ty == Uint(1) || source.ty == Uint(2) || source.ty == Single
    case Flagged(_) => source.ty == Boolean || source.ty == Enum8 || source.ty == Bitmap(1)
    case Named(_) => source.ty == Enum8
  }

  lemma ShapesOf(extend: Extend)
    ensures forall i :: 0 <= i < |SourcesOf(extend)| ==> ShapeMatches(SourcesOf(extend)[i])
  {
  }

  lemma {:induction false} ShapesMatch(extend: seq<Extend>)
    ensures forall s :: s in Sources(extend) ==> ShapeMatches(s)
  {
    if extend != [] {
      var before, last := extend[..|extend| - 1], extend[|extend| - 1];
      ShapesMatch(before);
      ShapesOf(last);
      forall s
        ensures s in Sources(extend) <==> s in Sources(before) || s in SourcesOf(last)
      {
        SourcesSnoc(extend, s);
      }
    }
  }

  /** What decoding gives for the types sources use. */
  lemma DecodedKinds(ty: ZclType, buf: seq<byte>, pos: nat)
    requires pos <= |buf| && DecodeAt(ty, buf, pos).Got?
    requires ty == Int(2) || ty == Uint(1) || ty == Uint(2) || ty == Single || ty == Boolean || ty == Enum8 || ty == Bitmap(1)
    ensures var v := DecodeAt(ty, buf, pos).value;
            v.Invalid? || (match ty
                           case Int(_) => v.IntValue?
                           case Uint(_) => v.UintValue? && v.n < TWO_TO_63
                           case Single => v.Float?
                           case Boolean => v.Bool?
                           case Enum8 => v.Enum?
                           case _ => v.Bits? && v.bits < TWO_TO_63)
  {
    Pow256Values();
    match ty
    case Uint(n) => NarrowReads(buf, pos, n);
    case Bitmap(n) => NarrowReads(buf, pos, n);
    case _ =>
  }

  lemma NarrowReads(buf: seq<byte>, pos: nat, n: nat)
    requires pos <= |buf| && n <= 2
    ensures var r := Codec.UintLeAt(buf, pos, n); r.Got? ==> r.value < 0x1_0000
  {
    Pow256Values();
    Pow256Monotone(n, 2);
    if pos + n <= |buf| {
      assert buf[pos..pos + n][..n] == buf[pos..pos + n];
      LeValueBound(buf[pos..pos + n]);
    }
  }

  /** A device that reports an attribute with the type its plan was configured for
      is always understood, except for a floating-point number and for a named
      value nobody named: "no reading" gives an empty reading, everything else a
      reading of the capability. */
  lemma ConfiguredReportsRead(d: Definition, endpoints: seq<Endpoint>, step: Step, buf: seq<byte>, pos: nat)
    requires step in PlanOf(d, endpoints) && step.attribute.Some? && step.attributeType.Some?
    requires pos <= |buf| && DecodeAt(step.attributeType.value, buf, pos).Got?
    ensures var value := DecodeAt(step.attributeType.value, buf, pos).value;
            var source := FirstSource(Sources(d.extend), step.cluster, step.attribute.value);
            var state := ReportToState(Sources(d.extend), step.cluster, step.attribute.value, value);
            source.Some? &&
            (state.None? <==> value.Float? || (source.value.value.Named? && value.Enum? &&
                                               NameOf(source.value.value.values, value.ordinal).None?)) &&
            (state.Some? ==> state.value.0 == source.value.capability &&
                             (state.value.1.NoReading? <==> value.Invalid?))
  {
    TypesAgree(d, endpoints, step);
    ShapesMatch(d.extend);
    var source := FirstSource(Sources(d.extend), step.cluster, step.attribute.value).value;
    assert ShapeMatches(source) && source.ty == step.attributeType.value;
    DecodedKinds(source.ty, buf, pos);
  }
}
