/** The encoder and the decoder agree: what one builds through the registry, the
    other reads back, and what the decoder accepts is exactly a tiling. */
module ZclRoundTrip {
  import opened Wrappers
  import opened Words
  import opened Codec
  import opened ZclTypes
  import opened ZclValueRoundTrip
  import opened ZclFrame
  import opened ClusterRegistry
  import E = ZclEncode
  import D = ZclDecode

  // ---------------------------------------------------------------------
  // Commands

  /** Every declared parameter has a first supplied value. */
  predicate AllSupplied(defs: seq<ParamDef>, params: E.Params) {
    forall i :: 0 <= i < |defs| ==> E.FirstValue(params, defs[i].name).Some?
  }

  /** The declared parameters in declaration order, each with the first value
      supplied under its name. */
  function Supplied(defs: seq<ParamDef>, params: E.Params): seq<(string, ZclValue)>
    requires AllSupplied(defs, params)
  {
    seq(|defs|, i requires 0 <= i < |defs| => (defs[i].name, E.FirstValue(params, defs[i].name).value))
  }

  /** Every value is one its type carries losslessly, and after a parameter of an
      unmodelled type, which has no end of its own, no bytes follow. */
  predicate Carried(defs: seq<ParamDef>, params: E.Params, command: string)
    requires AllSupplied(defs, params)
  {
    defs == [] ||
    (&& Canonical(E.FirstValue(params, defs[0].name).value, defs[0].ty)
     && (defs[0].ty.Unknown? ==> E.ParamBytes(defs[1..], params, command) == Ok([]))
     && Carried(defs[1..], params, command))
  }

  /** In particular: canonical values, and only the last type unmodelled. */
  lemma {:induction false} CanonicalIsCarried(defs: seq<ParamDef>, params: E.Params, command: string)
    requires AllSupplied(defs, params)
    requires forall i :: 0 <= i < |defs| ==> Canonical(E.FirstValue(params, defs[i].name).value, defs[i].ty)
    requires forall i :: 0 <= i < |defs| - 1 ==> !defs[i].ty.Unknown?
    ensures Carried(defs, params, command)
  {
    if defs != [] {
      var rest := defs[1..];
      assert forall i :: 0 <= i < |rest| ==> rest[i] == defs[i + 1];
      CanonicalIsCarried(rest, params, command);
      assert |defs| == 1 ==> rest == [];
    }
  }

  lemma ValueThenMore(v: ZclValue, ty: ZclType, bytes: seq<byte>, more: seq<byte>, buf: seq<byte>, pos: nat)
    requires Canonical(v, ty) && EncodeBytes(v, ty) == Ok(bytes) && (ty.Unknown? ==> more == [])
    requires pos <= |buf| && buf[pos..] == bytes + more
    ensures pos + |bytes| <= |buf| && buf[pos + |bytes|..] == more
    ensures DecodeAt(ty, buf, pos) == Got(v, pos + |bytes|)
  {
    assert buf[pos + |bytes|..] == buf[pos..][|bytes|..];
    assert ty.Unknown? ==> bytes + more == bytes;
    ValueRoundTrip(v, ty, buf, pos);
  }

  /** A value that was written but is not canonical, or has bytes after it that its
      type would take, does not read back as itself. */
  lemma ValueMisreads(v: ZclValue, ty: ZclType, bytes: seq<byte>, more: seq<byte>, buf: seq<byte>, pos: nat)
    requires EncodeBytes(v, ty) == Ok(bytes) && !(Canonical(v, ty) && (ty.Unknown? ==> more == []))
    requires pos <= |buf| && buf[pos..] == bytes + more
    ensures DecodeAt(ty, buf, pos).Got? ==> DecodeAt(ty, buf, pos).value != v
  {
    if Canonical(v, ty) {
      assert |bytes + more| > |bytes|;
    } else if DecodeAt(ty, buf, pos).Got? && DecodeAt(ty, buf, pos).value == v {
      WrittenReadsBack(v, ty, buf, pos);
    }
  }

  lemma ParamWritten(defs: seq<ParamDef>, params: E.Params, command: string, all: seq<byte>)
      returns (v: ZclValue, bytes: seq<byte>, more: seq<byte>)
    requires defs != [] && E.ParamBytes(defs, params, command) == Ok(all)
    ensures E.FirstValue(params, defs[0].name) == Some(v) && EncodeBytes(v, defs[0].ty) == Ok(bytes)
    ensures E.ParamBytes(defs[1..], params, command) == Ok(more) && all == bytes + more
  {
    v := E.FirstValue(params, defs[0].name).value;
    bytes := EncodeBytes(v, defs[0].ty).value;
    more := E.ParamBytes(defs[1..], params, command).value;
  }

  lemma ParamsCons(defs: seq<ParamDef>, buf: seq<byte>, pos: nat)
    requires defs != [] && pos <= |buf|
    ensures var first := DecodeAt(defs[0].ty, buf, pos);
            D.ParamsAt(defs, buf, pos) ==
            if first.Fail? then [] else [(defs[0].name, first.value)] + D.ParamsAt(defs[1..], buf, ParamEnd(defs[0].ty, buf, pos))
  {
  }

  /** Where a parameter ends, if it can be read. */
  function ParamEnd(ty: ZclType, buf: seq<byte>, pos: nat): (next: nat)
    requires pos <= |buf| && DecodeAt(ty, buf, pos).Got?
    ensures next <= |buf|
  {
    D.DecodeAdvances(ty, buf, pos);
    DecodeAt(ty, buf, pos).next
  }

  lemma SuppliedCons(defs: seq<ParamDef>, params: E.Params)
    requires defs != [] && AllSupplied(defs[1..], params) && E.FirstValue(params, defs[0].name).Some?
    ensures AllSupplied(defs, params)
    ensures Supplied(defs, params) ==
            [(defs[0].name, E.FirstValue(params, defs[0].name).value)] + Supplied(defs[1..], params)
  {
    assert defs == [defs[0]] + defs[1..];
    assert forall i :: 0 <= i < |defs| - 1 ==> defs[1..][i] == defs[i + 1];
  }

  /** The first parameter reads back, with the rest where it ends, or as something else. */
  lemma FirstParam(ty: ZclType, v: ZclValue, bytes: seq<byte>, more: seq<byte>, buf: seq<byte>, pos: nat)
    requires EncodeBytes(v, ty) == Ok(bytes) && pos <= |buf| && buf[pos..] == bytes + more
    ensures var carried := Canonical(v, ty) && (ty.Unknown? ==> more == []);
            if carried then
              DecodeAt(ty, buf, pos).Got? && DecodeAt(ty, buf, pos).value == v && buf[ParamEnd(ty, buf, pos)..] == more
            else DecodeAt(ty, buf, pos).Got? ==> DecodeAt(ty, buf, pos).value != v
  {
    if Canonical(v, ty) && (ty.Unknown? ==> more == []) {
      ValueThenMore(v, ty, bytes, more, buf, pos);
    } else {
      ValueMisreads(v, ty, bytes, more, buf, pos);
    }
  }

  lemma {:induction false} ParamsRoundTrip(defs: seq<ParamDef>, params: E.Params, command: string, buf: seq<byte>, pos: nat)
    requires pos <= |buf| && E.ParamBytes(defs, params, command) == Ok(buf[pos..])
    ensures AllSupplied(defs, params)
    ensures D.ParamsAt(defs, buf, pos) == Supplied(defs, params) <==> Carried(defs, params, command)
    decreases |defs|
  {
    if defs != [] {
      var rest, ty := defs[1..], defs[0].ty;
      var v, bytes, more := ParamWritten(defs, params, command, buf[pos..]);
      FirstParam(ty, v, bytes, more, buf, pos);
      ParamsCons(defs, buf, pos);
      if Canonical(v, ty) && (ty.Unknown? ==> more == []) {
        ParamsRoundTrip(rest, params, command, buf, ParamEnd(ty, buf, pos));
        SuppliedCons(defs, params);
        SameCons((defs[0].name, v), D.ParamsAt(rest, buf, ParamEnd(ty, buf, pos)), (defs[0].name, v), Supplied(rest, params));
      } else {
        WrittenIsSupplied(rest, params, command);
        SuppliedCons(defs, params);
        FirstDiffers(defs, params, buf, pos, v);
      }
    }
  }

  lemma {:induction false} WrittenIsSupplied(defs: seq<ParamDef>, params: E.Params, command: string)
    requires E.ParamBytes(defs, params, command).Ok?
    ensures AllSupplied(defs, params)
  {
    if defs != [] {
      WrittenIsSupplied(defs[1..], params, command);
      assert defs == [defs[0]] + defs[1..];
    }
  }

  lemma FirstDiffers(defs: seq<ParamDef>, params: E.Params, buf: seq<byte>, pos: nat, v: ZclValue)
    requires defs != [] && pos <= |buf| && AllSupplied(defs, params) && AllSupplied(defs[1..], params)
    requires E.FirstValue(params, defs[0].name) == Some(v)
    requires DecodeAt(defs[0].ty, buf, pos).Got? ==> DecodeAt(defs[0].ty, buf, pos).value != v
    ensures D.ParamsAt(defs, buf, pos) != Supplied(defs, params)
  {
    ParamsCons(defs, buf, pos);
    SuppliedCons(defs, params);
    assert Supplied(defs, params)[0] == (defs[0].name, v);
  }

  /** Every command the encoder accepts decodes, on the same cluster, to that command
      id and name; and its parameters are exactly the declared ones in declaration
      order, each with the first value supplied under its name, if and only if every
      value is carried losslessly by its declared type. */
  lemma CommandRoundTrip(cluster: ClusterDef, tsn: byte, request: E.ZclCommand, ieee: u64, rx: D.ZclRx)
    requires request.command in cluster.commands
    requires E.CommandFrame(Some(cluster), tsn, request) == Ok(rx.frame) && rx.cluster == request.cluster
    ensures var def := cluster.commands[request.command];
            var message := D.MessageOf(Some(cluster), ieee, rx);
            && AllSupplied(def.params, request.params)
            && message.Ok? && message.value.kind.Command? && message.value.kind.id == request.command
            && message.value == D.ZclMessage(ieee, rx.endpoint, rx.cluster, message.value.kind, rx.linkQuality)
            && message.value.kind.name == Some(def.name)
            && (message.value.kind.params == Supplied(def.params, request.params)
                <==> Carried(def.params, request.params, def.name))
  {
    var def := cluster.commands[request.command];
    var header := E.CommandHeader(tsn, request);
    var payload := E.ParamBytes(def.params, request.params, def.name).value;
    assert rx.frame == FrameBytes(Frame(header, payload));
    FrameRoundTrip(Frame(header, payload));
    assert payload[0..] == payload;
    ParamsRoundTrip(def.params, request.params, def.name, payload, 0);
  }

  predicate DistinctNames(params: E.Params) {
    forall i, j :: 0 <= i < j < |params| ==> params[i].0 != params[j].0
  }

  lemma {:induction false} FirstValueIsMember(params: E.Params, name: string)
    requires DistinctNames(params)
    ensures forall v :: E.FirstValue(params, name) == Some(v) <==> (name, v) in params
  {
    if params != [] {
      FirstValueIsMember(params[1..], name);
      assert params == [params[0]] + params[1..];
    }
  }

  lemma {:induction false} FirstUndeclaredIsNone(params: E.Params, defs: seq<ParamDef>)
    ensures E.FirstUndeclared(params, defs).None? <==> forall p :: p in params ==> E.Declared(defs, p.0)
  {
    if params != [] {
      FirstUndeclaredIsNone(params[1..], defs);
      assert params == [params[0]] + params[1..];
    }
  }

  lemma {:induction false} ParamBytesByValue(defs: seq<ParamDef>, p: E.Params, q: E.Params, command: string)
    requires forall name :: E.FirstValue(p, name) == E.FirstValue(q, name)
    ensures E.ParamBytes(defs, p, command) == E.ParamBytes(defs, q, command)
  {
    if defs != [] {
      ParamBytesByValue(defs[1..], p, q, command);
    }
  }

  /** The caller's ordering is not part of the contract: reordering a request
      whose names are distinct gives the same frame, or a refusal either way. */
  lemma CommandIgnoresOrder(cluster: Option<ClusterDef>, tsn: byte, a: E.ZclCommand, b: E.ZclCommand)
    requires DistinctNames(a.params) && DistinctNames(b.params)
    requires multiset(a.params) == multiset(b.params) && b == a.(params := b.params)
    ensures E.CommandFrame(cluster, tsn, a).Ok? <==> E.CommandFrame(cluster, tsn, b).Ok?
    ensures E.CommandFrame(cluster, tsn, a).Ok? ==> E.CommandFrame(cluster, tsn, a) == E.CommandFrame(cluster, tsn, b)
  {
    SameMembers(a.params, b.params);
    forall name
      ensures E.FirstValue(a.params, name) == E.FirstValue(b.params, name)
    {
      FirstValueIsMember(a.params, name);
      FirstValueIsMember(b.params, name);
      var x, y := E.FirstValue(a.params, name), E.FirstValue(b.params, name);
      if x.Some? {
        assert (name, x.value) in b.params;
      }
      if y.Some? {
        assert (name, y.value) in a.params;
      }
    }
    if cluster.Some? && a.command in cluster.value.commands {
      var def := cluster.value.commands[a.command];
      FirstUndeclaredIsNone(a.params, def.params);
      FirstUndeclaredIsNone(b.params, def.params);
      ParamBytesByValue(def.params, a.params, b.params, def.name);
    }
  }

  lemma SameMembers<T>(a: seq<T>, b: seq<T>)
    requires multiset(a) == multiset(b)
    ensures forall x :: x in a <==> x in b
  {
    assert forall x :: x in a <==> x in multiset(a);
    assert forall x :: x in b <==> x in multiset(b);
  }

  // ---------------------------------------------------------------------
  // Attribute writes

  predicate KnownAttributes(cluster: ClusterDef, attributes: seq<(u16, ZclValue)>) {
    forall i :: 0 <= i < |attributes| ==> attributes[i].0 in cluster.attributes
  }

  /** Whether each registered type is one that some discriminator denotes. */
  predicate WireAttributes(cluster: ClusterDef, attributes: seq<(u16, ZclValue)>)
    requires KnownAttributes(cluster, attributes)
  {
    forall i :: 0 <= i < |attributes| ==> WireType(cluster.attributes[attributes[i].0].ty)
  }

  /** The type a receiver reads where `ty` was written. */
  function SentAs(ty: ZclType): ZclType { FromU8(ToU8(ty)) }

  /** A value the receiver's type carries losslessly, and that is written alike under
      the registered type; for types a discriminator denotes the two are one. */
  predicate CarriedAs(v: ZclValue, ty: ZclType) {
    Canonical(v, SentAs(ty)) && EncodeBytes(v, SentAs(ty)) == EncodeBytes(v, ty)
  }

  /** Each value is carried, and only the last may be of an unmodelled type. */
  predicate CarriedAttributes(cluster: ClusterDef, attributes: seq<(u16, ZclValue)>)
    requires KnownAttributes(cluster, attributes)
  {
    forall i :: 0 <= i < |attributes| ==>
      var ty := cluster.attributes[attributes[i].0].ty;
      CarriedAs(attributes[i].1, ty) && (SentAs(ty).Unknown? ==> i == |attributes| - 1)
  }

  lemma CarriedIfCanonical(v: ZclValue, ty: ZclType)
    requires WireType(ty)
    ensures SentAs(ty) == ty && (CarriedAs(v, ty) <==> Canonical(v, ty))
  {
    TypeRoundTrip(ty);
  }

  lemma RecordWritten(cluster: ClusterDef, id: u16, attributes: seq<(u16, ZclValue)>, all: seq<byte>)
      returns (bytes: seq<byte>, more: seq<byte>)
    requires attributes != [] && attributes[0].0 in cluster.attributes
    requires E.AttributeBytes(Some(cluster), id, attributes) == Ok(all)
    ensures EncodeBytes(attributes[0].1, cluster.attributes[attributes[0].0].ty) == Ok(bytes)
    ensures E.AttributeBytes(Some(cluster), id, attributes[1..]) == Ok(more)
    ensures all == LeBytes(attributes[0].0, 2) + [ToU8(cluster.attributes[attributes[0].0].ty)] + (bytes + more)
  {
    bytes := EncodeBytes(attributes[0].1, cluster.attributes[attributes[0].0].ty).value;
    more := E.AttributeBytes(Some(cluster), id, attributes[1..]).value;
    var head := LeBytes(attributes[0].0, 2) + [ToU8(cluster.attributes[attributes[0].0].ty)];
    assert head + bytes + more == head + (bytes + more);
  }

  lemma RecordParts(head: seq<byte>, tag: byte, rest: seq<byte>, buf: seq<byte>, pos: nat)
    requires |head| == 2 && pos <= |buf| && buf[pos..] == head + [tag] + rest
    ensures pos + 3 <= |buf| && buf[pos..pos + 2] == head && buf[pos + 2] == tag && buf[pos + 3..] == rest
  {
    var all := buf[pos..];
    assert buf[pos..pos + 2] == all[..2] && buf[pos + 2] == all[2] && buf[pos + 3..] == all[3..];
  }

  /** A record reads as its attribute with whatever the type sent makes of the value. */
  lemma RecordReads(attribute: u16, ty: ZclType, rest: seq<byte>, buf: seq<byte>, pos: nat)
    requires pos <= |buf| && buf[pos..] == LeBytes(attribute, 2) + [ToU8(ty)] + rest
    ensures pos + 3 <= |buf| && buf[pos + 3..] == rest
    ensures var read := DecodeAt(SentAs(ty), buf, pos + 3);
            D.RecordAt(buf, pos, false) ==
            if read.Fail? then Fail(read.error) else Got(Some((attribute, read.value)), read.next)
  {
    RecordParts(LeBytes(attribute, 2), ToU8(ty), rest, buf, pos);
    Pow256Values();
    LeRoundTrip(attribute, 2);
    assert buf[pos..pos + 2][..2] == buf[pos..pos + 2];
  }

  lemma RecordsCons(buf: seq<byte>, pos: nat)
    requires pos < |buf|
    ensures var record := D.RecordAt(buf, pos, false);
            if record.Fail? then D.RecordsAt(buf, pos, false).Err?
            else D.RecordsAt(buf, pos, false) == PrependOk(D.Listed(record.value), D.RecordsAt(buf, record.next, false))
  {
  }

  lemma PrependedList<T, F>(a: T, rest: Result<seq<T>, F>, b: T, s: seq<T>)
    ensures PrependOk([a], rest) == Ok([b] + s) <==> a == b && rest == Ok(s)
  {
    if rest.Ok? {
      SameCons(a, rest.value, b, s);
    }
  }

  /** Whether the first attribute is carried, and alone if its type takes the rest. */
  predicate FirstCarried(cluster: ClusterDef, attributes: seq<(u16, ZclValue)>)
    requires attributes != [] && attributes[0].0 in cluster.attributes
  {
    var ty := cluster.attributes[attributes[0].0].ty;
    CarriedAs(attributes[0].1, ty) && (SentAs(ty).Unknown? ==> |attributes| == 1)
  }

  /** A carried value is read back from its record, with the rest where it ends. */
  lemma CarriedRecord(attribute: u16, v: ZclValue, ty: ZclType, bytes: seq<byte>, more: seq<byte>, buf: seq<byte>, pos: nat)
      returns (next: nat)
    requires EncodeBytes(v, ty) == Ok(bytes) && CarriedAs(v, ty) && (SentAs(ty).Unknown? ==> more == [])
    requires pos <= |buf| && buf[pos..] == LeBytes(attribute, 2) + [ToU8(ty)] + (bytes + more)
    ensures D.RecordAt(buf, pos, false) == Got(Some((attribute, v)), next)
    ensures pos < next <= |buf| && buf[next..] == more
  {
    var sent := SentAs(ty);
    RecordReads(attribute, ty, bytes + more, buf, pos);
    FirstParam(sent, v, bytes, more, buf, pos + 3);
    next := ParamEnd(sent, buf, pos + 3);
    D.DecodeAdvances(sent, buf, pos + 3);
  }

  /** Another value, of a type a discriminator denotes, is not. */
  lemma UncarriedRecord(attribute: u16, v: ZclValue, ty: ZclType, bytes: seq<byte>, more: seq<byte>, buf: seq<byte>, pos: nat)
    requires EncodeBytes(v, ty) == Ok(bytes) && WireType(ty)
    requires !(CarriedAs(v, ty) && (SentAs(ty).Unknown? ==> more == []))
    requires pos <= |buf| && buf[pos..] == LeBytes(attribute, 2) + [ToU8(ty)] + (bytes + more)
    ensures pos < |buf|
    ensures var record := D.RecordAt(buf, pos, false);
            record.Got? ==> record.value.Some? && record.value != Some((attribute, v))
  {
    RecordReads(attribute, ty, bytes + more, buf, pos);
    CarriedIfCanonical(v, ty);
    FirstParam(ty, v, bytes, more, buf, pos + 3);
  }

  /** Carried values are read back; and for types a discriminator denotes no others are. */
  lemma {:induction false} RecordsRoundTrip(cluster: ClusterDef, id: u16, attributes: seq<(u16, ZclValue)>, buf: seq<byte>, pos: nat)
    requires KnownAttributes(cluster, attributes)
    requires pos <= |buf| && E.AttributeBytes(Some(cluster), id, attributes) == Ok(buf[pos..])
    ensures CarriedAttributes(cluster, attributes) ==> D.RecordsAt(buf, pos, false) == Ok(attributes)
    ensures WireAttributes(cluster, attributes) && D.RecordsAt(buf, pos, false) == Ok(attributes) ==>
              CarriedAttributes(cluster, attributes)
    decreases |attributes|
  {
    if attributes == [] {
      assert buf[pos..] == [];
    } else {
      var first, rest := attributes[0], attributes[1..];
      var ty := cluster.attributes[first.0].ty;
      assert attributes == [first] + rest;
      CarriedCons(cluster, attributes);
      var bytes, more := RecordWritten(cluster, id, attributes, buf[pos..]);
      MoreRecords(cluster, id, rest, more);
      if FirstCarried(cluster, attributes) {
        var next := CarriedRecord(first.0, first.1, ty, bytes, more, buf, pos);
        RecordsRoundTrip(cluster, id, rest, buf, next);
        RecordsCons(buf, pos);
        PrependedList(first, D.RecordsAt(buf, next, false), first, rest);
      } else if WireType(ty) {
        UncarriedRecord(first.0, first.1, ty, bytes, more, buf, pos);
        RecordsCons(buf, pos);
        var record := D.RecordAt(buf, pos, false);
        if record.Got? {
          PrependedList(record.value.value, D.RecordsAt(buf, record.next, false), first, rest);
        }
      }
    }
  }

  lemma MoreRecords(cluster: ClusterDef, id: u16, attributes: seq<(u16, ZclValue)>, more: seq<byte>)
    requires E.AttributeBytes(Some(cluster), id, attributes) == Ok(more)
    ensures more == [] <==> attributes == []
  {
  }

  lemma CarriedCons(cluster: ClusterDef, attributes: seq<(u16, ZclValue)>)
    requires attributes != [] && KnownAttributes(cluster, attributes)
    ensures KnownAttributes(cluster, attributes[1..])
    ensures WireAttributes(cluster, attributes) ==>
              WireType(cluster.attributes[attributes[0].0].ty) && WireAttributes(cluster, attributes[1..])
    ensures CarriedAttributes(cluster, attributes) <==>
            FirstCarried(cluster, attributes) && CarriedAttributes(cluster, attributes[1..])
  {
    var rest := attributes[1..];
    assert forall i :: 0 <= i < |rest| ==> rest[i] == attributes[i + 1];
    assert attributes == [attributes[0]] + rest;
  }

  /** A write-attributes frame is a global command 0x02, and the record loop reads its
      payload back as exactly the attributes written, with nothing left over, if every
      value is carried losslessly as the type the registry gives it is sent; and, where
      a discriminator denotes each of those types, only then. */
  lemma AttributeWriteRoundTrip(cluster: ClusterDef, tsn: byte, request: E.ZclAttributeWrite, bytes: seq<byte>)
    requires E.AttributeWriteFrame(Some(cluster), tsn, request) == Ok(bytes)
    ensures KnownAttributes(cluster, request.attributes)
    ensures FrameAt(bytes).Ok?
    ensures var frame := FrameAt(bytes).value;
            frame.header.frameType == Global && frame.header.command == E.WRITE_ATTRIBUTES &&
            frame.header.manufacturer == request.manufacturer && frame.header.tsn == tsn
    ensures var same := D.RecordsAt(FrameAt(bytes).value.payload, 0, false) == Ok(request.attributes);
            (CarriedAttributes(cluster, request.attributes) ==> same) &&
            (WireAttributes(cluster, request.attributes) && same ==> CarriedAttributes(cluster, request.attributes))
  {
    var payload := E.AttributeBytes(Some(cluster), request.cluster, request.attributes).value;
    var frame := Frame(E.AttributeWriteHeader(tsn, request), payload);
    assert bytes == FrameBytes(frame);
    FrameRoundTrip(frame);
    assert payload[0..] == payload;
    WrittenAreKnown(cluster, request.cluster, request.attributes);
    RecordsRoundTrip(cluster, request.cluster, request.attributes, payload, 0);
  }

  lemma {:induction false} WrittenAreKnown(cluster: ClusterDef, id: u16, attributes: seq<(u16, ZclValue)>)
    requires E.AttributeBytes(Some(cluster), id, attributes).Ok?
    ensures KnownAttributes(cluster, attributes)
  {
    if attributes != [] {
      WrittenAreKnown(cluster, id, attributes[1..]);
      assert attributes == [attributes[0]] + attributes[1..];
    }
  }

  /** Attributes the registry knows, with canonical values, are never refused. */
  lemma {:induction false} CanonicalAttributesEncode(cluster: ClusterDef, id: u16, attributes: seq<(u16, ZclValue)>)
    requires KnownAttributes(cluster, attributes)
    requires forall i :: 0 <= i < |attributes| ==> Canonical(attributes[i].1, cluster.attributes[attributes[i].0].ty)
    ensures E.AttributeBytes(Some(cluster), id, attributes).Ok?
  {
    if attributes != [] {
      var rest := attributes[1..];
      assert forall i :: 0 <= i < |rest| ==> rest[i] == attributes[i + 1];
      CanonicalEncodes(attributes[0].1, cluster.attributes[attributes[0].0].ty);
      CanonicalAttributesEncode(cluster, id, rest);
    }
  }

  lemma CanonicalEncodes(v: ZclValue, ty: ZclType)
    requires Canonical(v, ty)
    ensures EncodeBytes(v, ty).Ok?
  {
  }

  // ---------------------------------------------------------------------
  // Arbitrary input

  /** Offsets cutting `buf` from `pos` to its end into whole records. */
  predicate Tiles(cuts: seq<nat>, buf: seq<byte>, pos: nat, withStatus: bool)
    requires pos <= |buf|
  {
    && |cuts| >= 1 && cuts[0] == pos && cuts[|cuts| - 1] == |buf|
    && (forall i :: 0 <= i < |cuts| ==> cuts[i] <= |buf|)
    && forall i :: 0 <= i < |cuts| - 1 ==>
         D.RecordAt(buf, cuts[i], withStatus).Got? && D.RecordAt(buf, cuts[i], withStatus).next == cuts[i + 1]
  }

  /** The records a tiling cuts out, those with a failure status left out. */
  function TileValues(cuts: seq<nat>, buf: seq<byte>, pos: nat, withStatus: bool): seq<(u16, ZclValue)>
    requires pos <= |buf| && Tiles(cuts, buf, pos, withStatus)
    decreases |cuts|
  {
    if |cuts| == 1 then []
    else
      assert Tiles(cuts[1..], buf, cuts[1], withStatus);
      D.Listed(D.RecordAt(buf, pos, withStatus).value) + TileValues(cuts[1..], buf, cuts[1], withStatus)
  }

  /** Whatever the bytes, the record loop accepts only when the records exactly
      tile the payload, and returns what the tiling cuts out. */
  lemma {:induction false} AcceptedTiles(buf: seq<byte>, pos: nat, withStatus: bool) returns (cuts: seq<nat>)
    requires pos <= |buf| && D.RecordsAt(buf, pos, withStatus).Ok?
    ensures Tiles(cuts, buf, pos, withStatus)
    ensures D.RecordsAt(buf, pos, withStatus) == Ok(TileValues(cuts, buf, pos, withStatus))
    decreases |buf| - pos
  {
    if pos == |buf| {
      cuts := [pos];
    } else {
      var record := D.RecordAt(buf, pos, withStatus);
      var rest := AcceptedTiles(buf, record.next, withStatus);
      cuts := [pos] + rest;
      assert cuts[1..] == rest;
    }
  }

  /** And it accepts every payload that can be tiled. */
  lemma {:induction false} TilesAccepted(cuts: seq<nat>, buf: seq<byte>, pos: nat, withStatus: bool)
    requires pos <= |buf| && Tiles(cuts, buf, pos, withStatus)
    ensures D.RecordsAt(buf, pos, withStatus) == Ok(TileValues(cuts, buf, pos, withStatus))
    decreases |cuts|
  {
    if |cuts| > 1 {
      assert cuts[1] > pos;
      TilesAccepted(cuts[1..], buf, cuts[1], withStatus);
    }
  }
}
