/** Turning named commands and attribute writes into frames, typed by the registry. */
module ZclEncode {
  import opened Wrappers
  import opened Words
  import opened Codec
  import opened ZclTypes
  import opened ZclFrame
  import opened ClusterRegistry

  const WRITE_ATTRIBUTES: byte := 0x02

  datatype EncodeError =
    | UnknownCluster(cluster: u16)
    | UnknownCommand(cluster: u16, command: byte)
    | UnknownAttribute(cluster: u16, attribute: u16)
    | MissingParameter(command_: string, parameter: string)
    | UnknownParameter(command_: string, parameter: string)
    | BadValue(parameter: string, detail: CodecError)
    | NoAttributes
    | UntypedParameters(command_: string)

  type Params = seq<(string, ZclValue)>

  datatype ZclCommand = ZclCommand(
    cluster: u16,
    command: byte,
    params: Params,
    manufacturer: Option<u16>,
    disableDefaultResponse: bool)

  datatype ZclAttributeWrite = ZclAttributeWrite(
    cluster: u16,
    attributes: seq<(u16, ZclValue)>,
    manufacturer: Option<u16>)

  /** The first value supplied under a name. */
  function FirstValue(params: Params, name: string): Option<ZclValue> {
    if params == [] then None
    else if params[0].0 == name then Some(params[0].1)
    else FirstValue(params[1..], name)
  }

  predicate Declared(defs: seq<ParamDef>, name: string) {
    exists i :: 0 <= i < |defs| && defs[i].name == name
  }

  /** The first supplied name the command does not declare. */
  function FirstUndeclared(params: Params, defs: seq<ParamDef>): Option<string> {
    if params == [] then None
    else if !Declared(defs, params[0].0) then Some(params[0].0)
    else FirstUndeclared(params[1..], defs)
  }

  /** The payload of a command: each declared parameter in declaration order. */
  function ParamBytes(defs: seq<ParamDef>, params: Params, command: string): Result<seq<byte>, EncodeError> {
    if defs == [] then Ok([])
    else
      match FirstValue(params, defs[0].name)
      case None => Err(MissingParameter(command, defs[0].name))
      case Some(v) =>
        match EncodeBytes(v, defs[0].ty)
        case Err(e) => Err(BadValue(defs[0].name, e))
        case Ok(bytes) => PrependOk(bytes, ParamBytes(defs[1..], params, command))
  }

  function CommandHeader(tsn: byte, request: ZclCommand): Header {
    Plain(Specific, tsn, request.command).(
      disableDefaultResponse := request.disableDefaultResponse, manufacturer := request.manufacturer)
  }

  /** What `Command` gives, as a function of the cluster the registry resolves. */
  function CommandFrame(cluster: Option<ClusterDef>, tsn: byte, request: ZclCommand): Result<seq<byte>, EncodeError> {
    if cluster.None? then Err(UnknownCluster(request.cluster))
    else if request.command !in cluster.value.commands then Err(UnknownCommand(request.cluster, request.command))
    else
      var def := cluster.value.commands[request.command];
      if def.untypedParameters then Err(UntypedParameters(def.name))
      else
        match FirstUndeclared(request.params, def.params)
        case Some(name) => Err(UnknownParameter(def.name, name))
        case None =>
          PrependOk(HeaderBytes(CommandHeader(tsn, request)), ParamBytes(def.params, request.params, def.name))
  }

  /** The records of a write-attributes payload. */
  function AttributeBytes(cluster: Option<ClusterDef>, id: u16, attributes: seq<(u16, ZclValue)>): Result<seq<byte>, EncodeError> {
    if attributes == [] then Ok([])
    else
      var (attribute, value) := attributes[0];
      var def := if cluster.Some? then Lookup(cluster.value.attributes, attribute) else None;
      match def
      case None => Err(UnknownAttribute(id, attribute))
      case Some(d) =>
        match EncodeBytes(value, d.ty)
        case Err(e) => Err(BadValue(d.name, e))
        case Ok(bytes) =>
          PrependOk(LeBytes(attribute, 2) + [ToU8(d.ty)] + bytes, AttributeBytes(cluster, id, attributes[1..]))
  }

  function AttributeWriteHeader(tsn: byte, request: ZclAttributeWrite): Header {
    Plain(Global, tsn, WRITE_ATTRIBUTES).(manufacturer := request.manufacturer)
  }

  function AttributeWriteFrame(cluster: Option<ClusterDef>, tsn: byte, request: ZclAttributeWrite): Result<seq<byte>, EncodeError> {
    if request.attributes == [] then Err(NoAttributes)
    else
      PrependOk(HeaderBytes(AttributeWriteHeader(tsn, request)),
            AttributeBytes(cluster, request.cluster, request.attributes))
  }

  method Command(registry: Registry, device: u64, tsn: byte, request: ZclCommand)
    returns (r: Result<seq<byte>, EncodeError>)
    ensures r == CommandFrame(registry.Get(Some(device), request.cluster), tsn, request)
  {
    var cluster := registry.Get(Some(device), request.cluster);
    if cluster.None? {
      return Err(UnknownCluster(request.cluster));
    }
    if request.command !in cluster.value.commands {
      return Err(UnknownCommand(request.cluster, request.command));
    }
    var def := cluster.value.commands[request.command];
    if def.untypedParameters {
      return Err(UntypedParameters(def.name));
    }
    for i := 0 to |request.params|
      invariant FirstUndeclared(request.params, def.params) == FirstUndeclared(request.params[i..], def.params)
    {
      if !Declared(def.params, request.params[i].0) {
        return Err(UnknownParameter(def.name, request.params[i].0));
      }
      assert request.params[i..][1..] == request.params[i + 1..];
    }
    var writer := new Writer();
    var header := CommandHeader(tsn, request);
    assert def.params[0..] == def.params;
    PrependOkTwice([], [], ParamBytes(def.params, request.params, def.name));
    for i := 0 to |def.params|
      invariant ParamBytes(def.params, request.params, def.name)
             == PrependOk(writer.buf, ParamBytes(def.params[i..], request.params, def.name))
    {
      assert def.params[i..][0] == def.params[i] && def.params[i..][1..] == def.params[i + 1..];
      var value := FirstValue(request.params, def.params[i].name);
      if value.None? {
        return Err(MissingParameter(def.name, def.params[i].name));
      }
      ghost var before := writer.buf;
      ghost var rest := ParamBytes(def.params[i + 1..], request.params, def.name);
      var written := EncodeValue(value.value, def.params[i].ty, writer);
      if written.Err? {
        return Err(BadValue(def.params[i].name, written.error));
      }
      PrependOkTwice(before, EncodeBytes(value.value, def.params[i].ty).value, rest);
    }
    assert writer.buf + [] == writer.buf;
    var bytes := EncodeFrame(Frame(header, writer.buf));
    r := Ok(bytes);
  }

  method AttributeWrite(registry: Registry, device: u64, tsn: byte, request: ZclAttributeWrite)
    returns (r: Result<seq<byte>, EncodeError>)
    ensures r == AttributeWriteFrame(registry.Get(Some(device), request.cluster), tsn, request)
  {
    if request.attributes == [] {
      return Err(NoAttributes);
    }
    ghost var cluster := registry.Get(Some(device), request.cluster);
    var writer := new Writer();
    assert request.attributes[0..] == request.attributes;
    PrependOkTwice([], [], AttributeBytes(cluster, request.cluster, request.attributes));
    for i := 0 to |request.attributes|
      invariant AttributeBytes(cluster, request.cluster, request.attributes)
             == PrependOk(writer.buf, AttributeBytes(cluster, request.cluster, request.attributes[i..]))
    {
      var (attribute, value) := request.attributes[i];
      assert request.attributes[i..][0] == request.attributes[i];
      assert request.attributes[i..][1..] == request.attributes[i + 1..];
      ghost var before := writer.buf;
      ghost var rest := AttributeBytes(cluster, request.cluster, request.attributes[i + 1..]);
      var def := registry.Attr(Some(device), request.cluster, attribute);
      if def.None? {
        return Err(UnknownAttribute(request.cluster, attribute));
      }
      writer.UintLe(attribute, 2);
      writer.U8(ToU8(def.value.ty));
      var written := EncodeValue(value, def.value.ty, writer);
      if written.Err? {
        return Err(BadValue(def.value.name, written.error));
      }
      ghost var record := LeBytes(attribute, 2) + [ToU8(def.value.ty)] + EncodeBytes(value, def.value.ty).value;
      assert writer.buf == before + record;
      PrependOkTwice(before, record, rest);
    }
    assert writer.buf + [] == writer.buf;
    var bytes := EncodeFrame(Frame(AttributeWriteHeader(tsn, request), writer.buf));
    r := Ok(bytes);
  }
}
