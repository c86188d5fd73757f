/** Whether a fingerprint describes a device.

    Case folding of model strings is restricted to ASCII. */
module Matcher {
  import opened Wrappers
  import opened Words
  import Text
  import IeeeText

  datatype EndpointMatch = EndpointMatch(
    id: byte,
    profile: Option<u16>,
    deviceId: Option<u16>,
    inputs: seq<u16>,
    outputs: seq<u16>)

  datatype DeviceMatch = DeviceMatch(
    modelId: Option<string>,
    manufacturerName: Option<string>,
    manufacturerId: Option<u16>,
    applicationVersion: Option<byte>,
    stackVersion: Option<byte>,
    zclVersion: Option<byte>,
    hardwareVersion: Option<byte>,
    dateCode: Option<string>,
    softwareBuildId: Option<string>,
    powerSource: Option<byte>,
    deviceType: Option<byte>,
    ieee: Option<u64>,
    endpoints: seq<EndpointMatch>)

  datatype FingerprintEndpoint = FingerprintEndpoint(
    id: byte,
    profile: Option<u16>,
    deviceId: Option<u16>,
    inputs: Option<seq<u16>>,
    outputs: Option<seq<u16>>)

  datatype Fingerprint = Fingerprint(
    modelId: Option<string>,
    manufacturerName: Option<string>,
    manufacturerId: Option<u16>,
    applicationVersion: Option<byte>,
    stackVersion: Option<byte>,
    zclVersion: Option<byte>,
    hardwareVersion: Option<byte>,
    dateCode: Option<string>,
    softwareBuildId: Option<string>,
    powerSource: Option<byte>,
    deviceType: Option<byte>,
    ieeePrefix: Option<string>,
    endpoints: seq<FingerprintEndpoint>,
    priority: i32)

  /** A fingerprint that constrains nothing. */
  predicate IsEmpty(f: Fingerprint) {
    && f.modelId.None? && f.manufacturerName.None? && f.manufacturerId.None?
    && f.applicationVersion.None? && f.stackVersion.None? && f.zclVersion.None?
    && f.hardwareVersion.None? && f.dateCode.None? && f.softwareBuildId.None?
    && f.powerSource.None? && f.deviceType.None? && f.ieeePrefix.None? && f.endpoints == []
  }

  /** A requirement the interview never learned is not met. */
  predicate Same<T(==)>(required: Option<T>, found: Option<T>) {
    required.Some? ==> found == required
  }

  /** Equal length and containment of the first in the second. */
  predicate SetEqual<T(==)>(a: seq<T>, b: seq<T>) {
    |a| == |b| && forall i :: 0 <= i < |a| ==> a[i] in b
  }

  function FindEndpoint(endpoints: seq<EndpointMatch>, id: byte): Option<EndpointMatch> {
    if endpoints == [] then None
    else if endpoints[0].id == id then Some(endpoints[0])
    else FindEndpoint(endpoints[1..], id)
  }

  predicate EndpointSatisfies(required: FingerprintEndpoint, found: EndpointMatch) {
    && Same(required.profile, found.profile)
    && Same(required.deviceId, found.deviceId)
    && (required.inputs.Some? ==> SetEqual(required.inputs.value, found.inputs))
    && (required.outputs.Some? ==> SetEqual(required.outputs.value, found.outputs))
  }

  predicate EndpointsMatch(f: Fingerprint, device: DeviceMatch) {
    f.endpoints == [] ||
    (&& |f.endpoints| == |device.endpoints|
     && forall i :: 0 <= i < |f.endpoints| ==>
          var found := FindEndpoint(device.endpoints, f.endpoints[i].id);
          found.Some? && EndpointSatisfies(f.endpoints[i], found.value))
  }

  predicate Matches(f: Fingerprint, device: DeviceMatch) {
    && Same(f.modelId, device.modelId)
    && Same(f.manufacturerName, device.manufacturerName)
    && Same(f.manufacturerId, device.manufacturerId)
    && Same(f.applicationVersion, device.applicationVersion)
    && Same(f.stackVersion, device.stackVersion)
    && Same(f.zclVersion, device.zclVersion)
    && Same(f.hardwareVersion, device.hardwareVersion)
    && Same(f.dateCode, device.dateCode)
    && Same(f.softwareBuildId, device.softwareBuildId)
    && Same(f.powerSource, device.powerSource)
    && Same(f.deviceType, device.deviceType)
    && (f.ieeePrefix.Some? ==> device.ieee.Some? && f.ieeePrefix.value <= IeeeText.Display(device.ieee.value))
    && EndpointsMatch(f, device)
  }

  function TrimStart(s: string): string {
    if s != [] && Text.IsWhitespace(s[0]) then TrimStart(s[1..]) else s
  }

  function TrimEnd(s: string): string {
    if s != [] && Text.IsWhitespace(s[|s| - 1]) then TrimEnd(s[..|s| - 1]) else s
  }

  /** Cut at the first NUL and trimmed. */
  function NormaliseModel(model: string): string {
    var split := Text.SplitOnce(model, '\0');
    TrimEnd(TrimStart(if split.Some? then split.value.0 else model))
  }

  function IndexKey(model: string): string { IeeeText.LowerAll(NormaliseModel(model)) }

  // ---------------------------------------------------------------------
  // The set test

  predicate NoDuplicates<T(==)>(s: seq<T>) {
    forall i, j :: 0 <= i < j < |s| ==> s[i] != s[j]
  }

  lemma {:induction false} CountAtMostOne<T>(s: seq<T>, x: T)
    requires NoDuplicates(s)
    ensures multiset(s)[x] <= 1
  {
    if s != [] {
      var before, last := s[..|s| - 1], s[|s| - 1];
      assert s == before + [last];
      CountAtMostOne(before, x);
      if x == last {
        assert x !in before;
      }
    }
  }

  /** When the required list has no duplicates, the one-directional test is true
      equality up to order: same length and containment leave no room for more. */
  lemma SetEqualIsPermutation<T>(a: seq<T>, b: seq<T>)
    requires NoDuplicates(a)
    ensures SetEqual(a, b) <==> multiset(a) == multiset(b)
  {
    if SetEqual(a, b) {
      forall x
        ensures multiset(a)[x] <= multiset(b)[x]
      {
        CountAtMostOne(a, x);
        if x in multiset(a) {
          assert x in a;
          assert x in multiset(b);
        }
      }
      assert multiset(a) <= multiset(b);
      assert |multiset(b) - multiset(a)| == 0;
      assert multiset(b) == multiset(a) + (multiset(b) - multiset(a));
    }
    if multiset(a) == multiset(b) {
      assert |multiset(a)| == |multiset(b)|;
      assert forall i :: 0 <= i < |a| ==> a[i] in multiset(b);
    }
  }

  /** With any duplicate in the required list the test accepts a different set:
      the second occurrence leaves room for something that is not required. */
  lemma DuplicateRequirementAcceptsMore<T>(a: seq<T>, i: nat, j: nat, extra: T)
    requires i < j < |a| && a[i] == a[j] && extra !in a
    ensures SetEqual(a, a[j := extra]) && multiset(a[j := extra]) != multiset(a)
  {
    var b := a[j := extra];
    forall k | 0 <= k < |a|
      ensures a[k] in b
    {
      assert b[if k == j then i else k] == a[k];
    }
    assert b[j] == extra && extra in multiset(b) && extra !in multiset(a);
  }

  /** Only the members and the length of the second list matter. */
  lemma SetEqualIgnoresOrder<T>(a: seq<T>, b: seq<T>, c: seq<T>)
    requires multiset(b) == multiset(c)
    ensures SetEqual(a, b) == SetEqual(a, c)
  {
    assert |multiset(b)| == |multiset(c)|;
    assert forall x :: x in b <==> x in multiset(b);
    assert forall x :: x in c <==> x in multiset(c);
  }

  // ---------------------------------------------------------------------
  // Endpoint numbers

  function RequiredIds(f: Fingerprint): seq<byte> {
    seq(|f.endpoints|, i requires 0 <= i < |f.endpoints| => f.endpoints[i].id)
  }

  function FoundIds(device: DeviceMatch): seq<byte> {
    seq(|device.endpoints|, i requires 0 <= i < |device.endpoints| => device.endpoints[i].id)
  }

  ghost predicate SameNumbers(f: Fingerprint, device: DeviceMatch) {
    forall id: byte :: id in RequiredIds(f) <==> id in FoundIds(device)
  }

  predicate Satisfied(f: Fingerprint, device: DeviceMatch, i: nat)
    requires i < |f.endpoints|
  {
    var found := FindEndpoint(device.endpoints, f.endpoints[i].id);
    found.Some? ==> EndpointSatisfies(f.endpoints[i], found.value)
  }

  lemma {:induction false} FoundExactly(endpoints: seq<EndpointMatch>, id: byte)
    ensures FindEndpoint(endpoints, id).Some? <==> exists k :: 0 <= k < |endpoints| && endpoints[k].id == id
  {
    if endpoints != [] {
      assert endpoints == [endpoints[0]] + endpoints[1..];
      FoundExactly(endpoints[1..], id);
    }
  }

  lemma FoundAmongIds(device: DeviceMatch, id: byte)
    ensures FindEndpoint(device.endpoints, id).Some? <==> id in FoundIds(device)
  {
    FoundExactly(device.endpoints, id);
    assert forall k :: 0 <= k < |device.endpoints| ==> FoundIds(device)[k] == device.endpoints[k].id;
  }

  /** Endpoint requirements are a one-directional test of the numbers and, for each
      of them, of the first endpoint of that number. */
  lemma EndpointsMatchExactly(f: Fingerprint, device: DeviceMatch)
    requires f.endpoints != []
    ensures EndpointsMatch(f, device) <==>
            SetEqual(RequiredIds(f), FoundIds(device)) &&
            forall i :: 0 <= i < |f.endpoints| ==> Satisfied(f, device, i)
  {
    var ids := RequiredIds(f);
    forall i | 0 <= i < |f.endpoints|
      ensures FindEndpoint(device.endpoints, f.endpoints[i].id).Some? <==> ids[i] in FoundIds(device)
    {
      FoundAmongIds(device, f.endpoints[i].id);
    }
    if SetEqual(ids, FoundIds(device)) && forall i :: 0 <= i < |f.endpoints| ==> Satisfied(f, device, i) {
      forall i | 0 <= i < |f.endpoints|
        ensures FindEndpoint(device.endpoints, f.endpoints[i].id).Some? && Satisfied(f, device, i)
      {
        assert ids[i] in FoundIds(device);
      }
    }
  }

  /** What a fingerprint that some device matches says about endpoint numbers: that
      they are the required ones and no others, if and only if it requires no number
      twice or leaves no number out. */
  lemma NumbersAreEqualExactly(f: Fingerprint, device: DeviceMatch)
    requires f.endpoints != [] && Matches(f, device)
    ensures (forall other :: Matches(f, other) ==> SameNumbers(f, other)) <==>
            NoDuplicates(RequiredIds(f)) || forall id: byte :: id in RequiredIds(f)
  {
    if NoDuplicates(RequiredIds(f)) {
      forall other | Matches(f, other)
        ensures SameNumbers(f, other)
      {
        DistinctNumbersAreAll(f, other);
      }
    } else if forall id: byte :: id in RequiredIds(f) {
      forall other | Matches(f, other)
        ensures SameNumbers(f, other)
      {
        EndpointsMatchExactly(f, other);
      }
    } else {
      var extra: byte :| extra !in RequiredIds(f);
      var i, j :| 0 <= i < j < |RequiredIds(f)| && RequiredIds(f)[i] == RequiredIds(f)[j];
      var other := RepeatedNumberMatchesMore(f, device, i, j, extra);
    }
  }

  lemma DistinctNumbersAreAll(f: Fingerprint, device: DeviceMatch)
    requires f.endpoints != [] && EndpointsMatch(f, device) && NoDuplicates(RequiredIds(f))
    ensures multiset(RequiredIds(f)) == multiset(FoundIds(device)) && SameNumbers(f, device)
  {
    EndpointsMatchExactly(f, device);
    SetEqualIsPermutation(RequiredIds(f), FoundIds(device));
    assert forall id: byte :: id in RequiredIds(f) <==> id in multiset(RequiredIds(f));
    assert forall id: byte :: id in FoundIds(device) <==> id in multiset(FoundIds(device));
  }

  /** The endpoints that meet the requirements in order, but with another number in
      place of the repeated one. */
  function Renumbered(f: Fingerprint, device: DeviceMatch, j: nat, extra: byte): seq<EndpointMatch>
    requires j < |f.endpoints|
    requires forall i :: 0 <= i < |f.endpoints| ==> FindEndpoint(device.endpoints, f.endpoints[i].id).Some?
  {
    seq(|f.endpoints|, i requires 0 <= i < |f.endpoints| =>
      var found := FindEndpoint(device.endpoints, f.endpoints[i].id).value;
      if i == j then found.(id := extra) else found)
  }

  lemma {:induction false} FoundNumber(endpoints: seq<EndpointMatch>, id: byte)
    ensures FindEndpoint(endpoints, id).Some? ==> FindEndpoint(endpoints, id).value.id == id
  {
    if endpoints != [] {
      FoundNumber(endpoints[1..], id);
    }
  }

  /** When all endpoints of a number are one and the same, that is the one found. */
  lemma {:induction false} OnlyOne(endpoints: seq<EndpointMatch>, e: EndpointMatch)
    requires e in endpoints
    requires forall k :: 0 <= k < |endpoints| && endpoints[k].id == e.id ==> endpoints[k] == e
    ensures FindEndpoint(endpoints, e.id) == Some(e)
  {
    if endpoints[0].id != e.id {
      assert e in endpoints[1..];
      OnlyOne(endpoints[1..], e);
    }
  }

  lemma RepeatedNumberMatchesMore(f: Fingerprint, device: DeviceMatch, i: nat, j: nat, extra: byte)
    returns (other: DeviceMatch)
    requires Matches(f, device) && i < j < |f.endpoints| && f.endpoints[i].id == f.endpoints[j].id
    requires extra !in RequiredIds(f)
    ensures Matches(f, other) && extra in FoundIds(other)
  {
    var endpoints := Renumbered(f, device, j, extra);
    other := device.(endpoints := endpoints);
    assert FoundIds(other)[j] == extra;
    forall k | 0 <= k < |f.endpoints|
      ensures FindEndpoint(endpoints, f.endpoints[k].id) == FindEndpoint(device.endpoints, f.endpoints[k].id)
    {
      RenumberedFinds(f, device, i, j, extra, k);
    }
  }

  lemma RenumberedFinds(f: Fingerprint, device: DeviceMatch, i: nat, j: nat, extra: byte, k: nat)
    requires forall i :: 0 <= i < |f.endpoints| ==> FindEndpoint(device.endpoints, f.endpoints[i].id).Some?
    requires i < j < |f.endpoints| && f.endpoints[i].id == f.endpoints[j].id
    requires extra !in RequiredIds(f) && k < |f.endpoints|
    ensures FindEndpoint(Renumbered(f, device, j, extra), f.endpoints[k].id) ==
            FindEndpoint(device.endpoints, f.endpoints[k].id)
  {
    var endpoints, id := Renumbered(f, device, j, extra), f.endpoints[k].id;
    var found := FindEndpoint(device.endpoints, id).value;
    FoundNumber(device.endpoints, id);
    assert RequiredIds(f)[k] == id;
    assert endpoints[if k == j then i else k] == found;
    forall m | 0 <= m < |endpoints| && endpoints[m].id == id
      ensures endpoints[m] == found
    {
      FoundNumber(device.endpoints, f.endpoints[m].id);
    }
    OnlyOne(endpoints, found);
  }

  // ---------------------------------------------------------------------
  // What fingerprints can tell apart

  /** Two endpoints no requirement can tell apart: lists of the same length that
      contain each other, whatever their order. */
  predicate LooksAlike(a: EndpointMatch, b: EndpointMatch) {
    && a.profile == b.profile && a.deviceId == b.deviceId
    && SetEqual(a.inputs, b.inputs) && SetEqual(b.inputs, a.inputs)
    && SetEqual(a.outputs, b.outputs) && SetEqual(b.outputs, a.outputs)
  }

  /** The first endpoint of a number is there for both or for neither, and alike. */
  predicate AgreeOn(d: DeviceMatch, e: DeviceMatch, id: byte) {
    match (FindEndpoint(d.endpoints, id), FindEndpoint(e.endpoints, id))
    case (None, None) => true
    case (Some(a), Some(b)) => LooksAlike(a, b)
    case _ => false
  }

  /** As many endpoints, and the first of each number alike. */
  ghost predicate Indistinct(d: DeviceMatch, e: DeviceMatch) {
    |d.endpoints| == |e.endpoints| && forall id: byte :: AgreeOn(d, e, id)
  }

  lemma ListsAlike<T>(wanted: seq<T>, b: seq<T>, c: seq<T>)
    requires SetEqual(b, c) && SetEqual(c, b)
    ensures SetEqual(wanted, b) == SetEqual(wanted, c)
  {
    assert forall x :: x in b ==> x in c;
    assert forall x :: x in c ==> x in b;
  }

  lemma SatisfiesAlike(required: FingerprintEndpoint, a: EndpointMatch, b: EndpointMatch)
    requires LooksAlike(a, b)
    ensures EndpointSatisfies(required, a) == EndpointSatisfies(required, b)
  {
    if required.inputs.Some? {
      ListsAlike(required.inputs.value, a.inputs, b.inputs);
    }
    if required.outputs.Some? {
      ListsAlike(required.outputs.value, a.outputs, b.outputs);
    }
  }

  lemma IndistinctMatches(f: Fingerprint, d: DeviceMatch, e: DeviceMatch)
    requires e == d.(endpoints := e.endpoints) && Indistinct(d, e)
    ensures Matches(f, d) == Matches(f, e)
  {
    forall i | 0 <= i < |f.endpoints|
      ensures FindEndpoint(d.endpoints, f.endpoints[i].id).Some? <==> FindEndpoint(e.endpoints, f.endpoints[i].id).Some?
      ensures FindEndpoint(d.endpoints, f.endpoints[i].id).Some? ==>
                EndpointSatisfies(f.endpoints[i], FindEndpoint(d.endpoints, f.endpoints[i].id).value)
                == EndpointSatisfies(f.endpoints[i], FindEndpoint(e.endpoints, f.endpoints[i].id).value)
    {
      assert AgreeOn(d, e, f.endpoints[i].id);
      if FindEndpoint(d.endpoints, f.endpoints[i].id).Some? {
        SatisfiesAlike(f.endpoints[i], FindEndpoint(d.endpoints, f.endpoints[i].id).value,
                       FindEndpoint(e.endpoints, f.endpoints[i].id).value);
      }
    }
  }

  /** A fingerprint with one endpoint requirement, stated `n` times. */
  function Asking(required: FingerprintEndpoint, n: nat): Fingerprint {
    Fingerprint(None, None, None, None, None, None, None, None, None, None, None, None, seq(n, _ => required), 0)
  }

  lemma AskingMatches(required: FingerprintEndpoint, n: nat, d: DeviceMatch)
    requires n > 0
    ensures Matches(Asking(required, n), d) <==>
            var found := FindEndpoint(d.endpoints, required.id);
            |d.endpoints| == n && found.Some? && EndpointSatisfies(required, found.value)
  {
    assert Asking(required, n).endpoints[0] == required;
  }

  function Bare(id: byte): FingerprintEndpoint { FingerprintEndpoint(id, None, None, None, None) }

  lemma SetEqualItself<T>(a: seq<T>)
    ensures SetEqual(a, a)
  {
  }

  /** A requirement that one endpoint meets and another, not alike, does not. */
  lemma Requirement(id: byte, a: EndpointMatch, b: EndpointMatch) returns (required: FingerprintEndpoint)
    requires !LooksAlike(a, b)
    ensures required.id == id && EndpointSatisfies(required, a) != EndpointSatisfies(required, b)
  {
    SetEqualItself(a.inputs);
    SetEqualItself(b.inputs);
    SetEqualItself(a.outputs);
    SetEqualItself(b.outputs);
    required := Bare(id);
    if a.profile != b.profile {
      required := required.(profile := if a.profile.Some? then a.profile else b.profile);
    } else if a.deviceId != b.deviceId {
      required := required.(deviceId := if a.deviceId.Some? then a.deviceId else b.deviceId);
    } else if !(SetEqual(a.inputs, b.inputs) && SetEqual(b.inputs, a.inputs)) {
      required := required.(inputs := Some(if SetEqual(a.inputs, b.inputs) then b.inputs else a.inputs));
    } else {
      required := required.(outputs := Some(if SetEqual(a.outputs, b.outputs) then b.outputs else a.outputs));
    }
  }

  lemma FirstIsFound(endpoints: seq<EndpointMatch>)
    requires endpoints != []
    ensures FindEndpoint(endpoints, endpoints[0].id) == Some(endpoints[0])
  {
  }

  /** Devices that are not indistinct are told apart by some fingerprint. */
  lemma Telling(d: DeviceMatch, e: DeviceMatch) returns (f: Fingerprint)
    requires !Indistinct(d, e)
    ensures Matches(f, d) != Matches(f, e) && f.modelId.None?
  {
    var m, n := |d.endpoints|, |e.endpoints|;
    if m != n {
      var x := if m > 0 then d else e;
      FirstIsFound(x.endpoints);
      var required := Bare(x.endpoints[0].id);
      f := Asking(required, |x.endpoints|);
      AskingMatches(required, |x.endpoints|, d);
      AskingMatches(required, |x.endpoints|, e);
    } else {
      var id: byte :| !AgreeOn(d, e, id);
      var a, b := FindEndpoint(d.endpoints, id), FindEndpoint(e.endpoints, id);
      var required := Bare(id);
      if a.Some? && b.Some? {
        required := Requirement(id, a.value, b.value);
      }
      f := Asking(required, m);
      AskingMatches(required, m, d);
      AskingMatches(required, m, e);
    }
  }

  /** Exactly when no fingerprint can tell two listings of a device's endpoints
      apart: as many of them, and the first endpoint of each number alike. */
  lemma ToldApartExactly(d: DeviceMatch, e: DeviceMatch)
    requires e == d.(endpoints := e.endpoints)
    ensures (forall f :: Matches(f, d) == Matches(f, e)) <==> Indistinct(d, e)
  {
    if Indistinct(d, e) {
      forall f
        ensures Matches(f, d) == Matches(f, e)
      {
        IndistinctMatches(f, d, e);
      }
    } else {
      var f := Telling(d, e);
    }
  }

  // ---------------------------------------------------------------------
  // Reordering a device

  /** The same endpoint with its cluster lists in another order. */
  predicate SameEndpoint(e: EndpointMatch, f: EndpointMatch) {
    && f == e.(inputs := f.inputs, outputs := f.outputs)
    && multiset(e.inputs) == multiset(f.inputs) && multiset(e.outputs) == multiset(f.outputs)
  }

  predicate ClustersReordered(d: DeviceMatch, e: DeviceMatch) {
    && e == d.(endpoints := e.endpoints) && |d.endpoints| == |e.endpoints|
    && forall i :: 0 <= i < |d.endpoints| ==> SameEndpoint(d.endpoints[i], e.endpoints[i])
  }

  predicate EndpointsReordered(d: DeviceMatch, e: DeviceMatch) {
    e == d.(endpoints := e.endpoints) && multiset(d.endpoints) == multiset(e.endpoints)
  }

  predicate DistinctIds(endpoints: seq<EndpointMatch>) {
    forall i, j :: 0 <= i < j < |endpoints| ==> endpoints[i].id != endpoints[j].id
  }

  lemma {:induction false} FindSame(a: seq<EndpointMatch>, b: seq<EndpointMatch>, id: byte)
    requires |a| == |b| && forall i :: 0 <= i < |a| ==> SameEndpoint(a[i], b[i])
    ensures FindEndpoint(a, id).Some? <==> FindEndpoint(b, id).Some?
    ensures FindEndpoint(a, id).Some? ==> SameEndpoint(FindEndpoint(a, id).value, FindEndpoint(b, id).value)
  {
    if a != [] {
      FindSame(a[1..], b[1..], id);
    }
  }

  lemma PermutedSetEqual<T>(a: seq<T>, b: seq<T>)
    requires multiset(a) == multiset(b)
    ensures SetEqual(a, b) && SetEqual(b, a)
  {
    SetEqualIgnoresOrder(a, a, b);
    SetEqualIgnoresOrder(b, a, b);
    SetEqualItself(a);
    SetEqualItself(b);
  }

  /** No fingerprint can tell in which order a device lists its clusters. */
  lemma ClusterOrderIsIgnored(d: DeviceMatch, e: DeviceMatch)
    requires ClustersReordered(d, e)
    ensures Indistinct(d, e)
  {
    forall id: byte
      ensures AgreeOn(d, e, id)
    {
      FindSame(d.endpoints, e.endpoints, id);
      var a, b := FindEndpoint(d.endpoints, id), FindEndpoint(e.endpoints, id);
      if a.Some? {
        PermutedSetEqual(a.value.inputs, b.value.inputs);
        PermutedSetEqual(a.value.outputs, b.value.outputs);
      }
    }
  }

  lemma {:induction false} FindIsMember(endpoints: seq<EndpointMatch>, id: byte)
    requires DistinctIds(endpoints)
    ensures forall e :: FindEndpoint(endpoints, id) == Some(e) <==> e in endpoints && e.id == id
  {
    if endpoints != [] {
      FindIsMember(endpoints[1..], id);
      assert endpoints == [endpoints[0]] + endpoints[1..];
    }
  }

  /** Nor in which order it lists its endpoints, when their numbers are distinct. */
  lemma EndpointOrderIsIgnored(d: DeviceMatch, e: DeviceMatch)
    requires EndpointsReordered(d, e) && DistinctIds(d.endpoints) && DistinctIds(e.endpoints)
    ensures Indistinct(d, e)
  {
    assert |multiset(d.endpoints)| == |multiset(e.endpoints)|;
    assert forall x :: x in d.endpoints <==> x in multiset(d.endpoints);
    assert forall x :: x in e.endpoints <==> x in multiset(e.endpoints);
    forall id: byte
      ensures AgreeOn(d, e, id)
    {
      FindIsMember(d.endpoints, id);
      FindIsMember(e.endpoints, id);
      var a, b := FindEndpoint(d.endpoints, id), FindEndpoint(e.endpoints, id);
      assert a.Some? ==> b == Some(a.value);
      assert b.Some? ==> a == Some(b.value);
      if a.Some? {
        PermutedSetEqual(a.value.inputs, a.value.inputs);
        PermutedSetEqual(a.value.outputs, a.value.outputs);
      }
    }
  }

  /** With a repeated number the order shows exactly when the endpoints of that
      number that come first are not alike. */
  lemma RepeatedNumberShowsOrder(d: DeviceMatch, a: EndpointMatch, b: EndpointMatch)
    requires a.id == b.id
    ensures (exists f :: Matches(f, d.(endpoints := [a, b])) != Matches(f, d.(endpoints := [b, a]))) <==> !LooksAlike(a, b)
  {
    var x, y := d.(endpoints := [a, b]), d.(endpoints := [b, a]);
    ToldApartExactly(x, y);
    FirstIsFound([a, b]);
    FirstIsFound([b, a]);
    assert AgreeOn(x, y, a.id) <==> LooksAlike(a, b);
    forall id: byte | id != a.id
      ensures AgreeOn(x, y, id)
    {
      assert [a, b][1..] == [b] && [b, a][1..] == [a];
      assert FindEndpoint([b], id) == FindEndpoint([b][1..], id) && FindEndpoint([a], id) == FindEndpoint([a][1..], id);
    }
  }
}
