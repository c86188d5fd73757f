/** Decoding a received frame into a named command or typed attributes. */
module ZclDecode {
  import opened Wrappers
  import opened Words
  import opened Codec
  import opened ZclTypes
  import opened ZclFrame
  import opened ClusterRegistry

  const READ_ATTRIBUTES_RESPONSE: byte := 0x01
  const REPORT_ATTRIBUTES: byte := 0x0a
  const DEFAULT_RESPONSE: byte := 0x0b

  datatype ParseFailure =
    | BadCodec(error: CodecError)
    | UnknownCluster(cluster: u16)
    | UnknownCommand(command: byte)

  datatype MessageKind =
    | Attributes(values: seq<(u16, ZclValue)>)
    | DefaultResponse(command: byte, status: byte)
    | Command(id: byte, name: Option<string>, params: seq<(string, ZclValue)>)

  datatype ZclRx = ZclRx(endpoint: byte, cluster: u16, frame: seq<byte>, linkQuality: byte)

  datatype ZclMessage = ZclMessage(ieee: u64, endpoint: byte, cluster: u16, kind: MessageKind, linkQuality: byte)

  type Records = Result<seq<(u16, ZclValue)>, ParseFailure>

  /** One attribute record at `pos`: id, an optional status, then type and value.
      A record whose status is not zero carries no value. */
  function RecordAt(buf: seq<byte>, pos: nat, withStatus: bool): (r: Read<Option<(u16, ZclValue)>>)
    requires pos <= |buf|
    ensures r.Got? ==> pos < r.next <= |buf|
  {
    Word16Bound(buf, pos);
    match UintLeAt(buf, pos, 2)
    case Fail(e) => Fail(e)
    case Got(id, at) =>
      var status: Read<byte> := if withStatus then U8At(buf, at) else Got(0, at);
      match status
      case Fail(e) => Fail(e)
      case Got(code, at) =>
        if code != 0 then Got(None, at)
        else
          match U8At(buf, at)
          case Fail(e) => Fail(e)
          case Got(tag, at) =>
            DecodeAdvances(FromU8(tag), buf, at);
            match DecodeAt(FromU8(tag), buf, at)
            case Fail(e) => Fail(e)
            case Got(value, next) => Got(Some((id, value)), next)
  }

  function Listed(record: Option<(u16, ZclValue)>): seq<(u16, ZclValue)> {
    match record
    case None => []
    case Some(r) => [r]
  }

  /** Every record from `pos` to the end of the buffer. */
  function RecordsAt(buf: seq<byte>, pos: nat, withStatus: bool): Records
    requires pos <= |buf|
    decreases |buf| - pos
  {
    if pos == |buf| then Ok([])
    else
      match RecordAt(buf, pos, withStatus)
      case Fail(e) => Err(BadCodec(e))
      case Got(record, next) => PrependOk(Listed(record), RecordsAt(buf, next, withStatus))
  }

  /** The declared parameters that could be read before the payload ran out. */
  function ParamsAt(defs: seq<ParamDef>, buf: seq<byte>, pos: nat): seq<(string, ZclValue)>
    requires pos <= |buf|
  {
    if defs == [] then []
    else
      DecodeAdvances(defs[0].ty, buf, pos);
      match DecodeAt(defs[0].ty, buf, pos)
      case Fail(_) => []
      case Got(v, next) => [(defs[0].name, v)] + ParamsAt(defs[1..], buf, next)
  }

  /** What a frame means, given the cluster the registry resolves. */
  function KindOf(cluster: Option<ClusterDef>, id: u16, frame: Frame): Result<MessageKind, ParseFailure> {
    var command := frame.header.command;
    match frame.header.frameType {
    case Global =>
      if command == REPORT_ATTRIBUTES || command == READ_ATTRIBUTES_RESPONSE then
        (match RecordsAt(frame.payload, 0, command == READ_ATTRIBUTES_RESPONSE)
         case Ok(values) => Ok(Attributes(values))
         case Err(e) => Err(e))
      else if command == DEFAULT_RESPONSE then
        (match U8At(frame.payload, 0)
         case Fail(e) => Err(BadCodec(e))
         case Got(c, at) =>
           match U8At(frame.payload, at)
           case Fail(e) => Err(BadCodec(e))
           case Got(status, _) => Ok(DefaultResponse(c, status)))
      else Err(UnknownCommand(command))
    case Specific =>
      if cluster.None? then Err(UnknownCluster(id))
      else
        var table := if frame.header.direction == ServerToClient then cluster.value.responses else cluster.value.commands;
        (match Lookup(table, command)
         case None => Ok(Command(command, None, []))
         case Some(def) => Ok(Command(command, Some(def.name), ParamsAt(def.params, frame.payload, 0))))
    case Reserved(_) => Err(UnknownCommand(command))
    }
  }

  function MessageOf(cluster: Option<ClusterDef>, ieee: u64, rx: ZclRx): Result<ZclMessage, ParseFailure> {
    match FrameAt(rx.frame)
    case Err(e) => Err(BadCodec(e))
    case Ok(frame) =>
      match KindOf(cluster, rx.cluster, frame)
      case Err(e) => Err(e)
      case Ok(kind) => Ok(ZclMessage(ieee, rx.endpoint, rx.cluster, kind, rx.linkQuality))
  }

  /** Decodes a run of attribute records. The type on the wire is authoritative;
      the source consults the registry here only to log a disagreement. */
  method DecodeAttributes(reader: Reader, withStatus: bool) returns (r: Records)
    requires reader.Valid()
    modifies reader
    ensures reader.Valid()
    ensures r == RecordsAt(reader.buf, old(reader.pos), withStatus)
    ensures r.Ok? ==> reader.pos == |reader.buf|
  {
    var out: seq<(u16, ZclValue)> := [];
    PrependOkTwice([], [], RecordsAt(reader.buf, reader.pos, withStatus));
    while reader.pos != |reader.buf|
      invariant reader.Valid()
      invariant RecordsAt(reader.buf, old(reader.pos), withStatus) == PrependOk(out, RecordsAt(reader.buf, reader.pos, withStatus))
      decreases |reader.buf| - reader.pos
    {
      ghost var start := reader.pos;
      ghost var record := RecordAt(reader.buf, start, withStatus);
      Word16Bound(reader.buf, reader.pos);
      var id := reader.UintLe(2);
      if id.Err? { return Err(BadCodec(id.error)); }
      if withStatus {
        var status := reader.U8();
        if status.Err? { return Err(BadCodec(status.error)); }
        if status.value != 0 {
          PrependOkTwice(out, [], RecordsAt(reader.buf, reader.pos, withStatus));
          continue;
        }
      }
      var tag := reader.U8();
      if tag.Err? { return Err(BadCodec(tag.error)); }
      DecodeAdvances(FromU8(tag.value), reader.buf, reader.pos);
      var value := DecodeValue(FromU8(tag.value), reader);
      if value.Err? { return Err(BadCodec(value.error)); }
      PrependOkTwice(out, [(id.value, value.value)], RecordsAt(reader.buf, reader.pos, withStatus));
      out := out + [(id.value, value.value)];
    }
    assert out + [] == out;
    r := Ok(out);
  }

  method DecodeMessage(registry: Registry, ieee: u64, rx: ZclRx) returns (r: Result<ZclMessage, ParseFailure>)
    ensures r == MessageOf(registry.Get(Some(ieee), rx.cluster), ieee, rx)
  {
    var decoded := DecodeFrame(rx.frame);
    if decoded.Err? { return Err(BadCodec(decoded.error)); }
    var frame := decoded.value;
    var reader := new Reader(frame.payload);
    var kind: MessageKind;
    match frame.header.frameType {
      case Global =>
        if frame.header.command == REPORT_ATTRIBUTES || frame.header.command == READ_ATTRIBUTES_RESPONSE {
          var values := DecodeAttributes(reader, frame.header.command == READ_ATTRIBUTES_RESPONSE);
          if values.Err? { return Err(values.error); }
          kind := Attributes(values.value);
        } else if frame.header.command == DEFAULT_RESPONSE {
          var command := reader.U8();
          if command.Err? { return Err(BadCodec(command.error)); }
          var status := reader.U8();
          if status.Err? { return Err(BadCodec(status.error)); }
          kind := DefaultResponse(command.value, status.value);
        } else {
          return Err(UnknownCommand(frame.header.command));
        }
      case Specific =>
        var cluster := registry.Get(Some(ieee), rx.cluster);
        if cluster.None? { return Err(UnknownCluster(rx.cluster)); }
        var table := if frame.header.direction == ServerToClient then cluster.value.responses else cluster.value.commands;
        var def := Lookup(table, frame.header.command);
        if def.None? {
          kind := Command(frame.header.command, None, []);
        } else {
          var params := DecodeParams(def.value.params, reader);
          kind := Command(frame.header.command, Some(def.value.name), params);
        }
      case Reserved(_) => return Err(UnknownCommand(frame.header.command));
    }
    r := Ok(ZclMessage(ieee, rx.endpoint, rx.cluster, kind, rx.linkQuality));
  }

  /** Walks the declared parameters; a truncated payload stops the walk. */
  method DecodeParams(defs: seq<ParamDef>, reader: Reader) returns (params: seq<(string, ZclValue)>)
    requires reader.Valid()
    modifies reader
    ensures params == ParamsAt(defs, reader.buf, old(reader.pos))
  {
    params := [];
    assert defs[0..] == defs;
    for i := 0 to |defs|
      invariant reader.Valid()
      invariant ParamsAt(defs, reader.buf, old(reader.pos)) == params + ParamsAt(defs[i..], reader.buf, reader.pos)
    {
      assert defs[i..][0] == defs[i] && defs[i..][1..] == defs[i + 1..];
      DecodeAdvances(defs[i].ty, reader.buf, reader.pos);
      var value := DecodeValue(defs[i].ty, reader);
      if value.Err? {
        return;
      }
      params := params + [(defs[i].name, value.value)];
    }
  }

  lemma DecodeAdvances(ty: ZclType, buf: seq<byte>, pos: nat)
    requires pos <= |buf|
    ensures DecodeAt(ty, buf, pos).Got? ==> pos <= DecodeAt(ty, buf, pos).next <= |buf|
  {
    ReadsAdvance(buf, pos, 2);
    ReadsAdvance(buf, pos, 4);
    ReadsAdvance(buf, pos, 8);
    match ty
    case Uint(n) => ReadsAdvance(buf, pos, n);
    case Bitmap(n) => ReadsAdvance(buf, pos, n);
    case Int(n) => ReadsAdvance(buf, pos, n);
    case _ =>
  }
}
