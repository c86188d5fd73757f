/** The ZCL frame header and envelope (section 2.4.1 of the Zigbee Cluster
    Library, revision 8). The frame control byte is assembled and taken apart
    by arithmetic on its bit positions. */
module ZclFrame {
  import opened Wrappers
  import opened Words
  import opened Codec

  datatype FrameType = Global | Specific | Reserved(bits: byte)

  datatype Direction = ClientToServer | ServerToClient

  datatype Header = Header(
    frameType: FrameType,
    manufacturer: Option<u16>,
    direction: Direction,
    disableDefaultResponse: bool,
    reserved: byte,
    tsn: byte,
    command: byte)

  datatype Frame = Frame(header: Header, payload: seq<byte>)

  function FrameTypeFromBits(b: byte): FrameType {
    if b % 4 == 0 then Global else if b % 4 == 1 then Specific else Reserved(b % 4)
  }

  function FrameTypeToBits(t: FrameType): byte {
    match t
    case Global => 0
    case Specific => 1
    case Reserved(o) => o % 4
  }

  /** A client-to-server header with the default flags. */
  function Plain(frameType: FrameType, tsn: byte, command: byte): Header {
    Header(frameType, None, ClientToServer, false, 0, tsn, command)
  }

  /** The headers a decoder can produce. */
  predicate Normal(h: Header) {
    h.reserved < 8 && (h.frameType.Reserved? ==> 2 <= h.frameType.bits < 4)
  }

  function FrameControl(h: Header): byte {
    FrameTypeToBits(h.frameType)
    + (if h.manufacturer.Some? then 4 else 0)
    + (if h.direction.ServerToClient? then 8 else 0)
    + (if h.disableDefaultResponse then 16 else 0)
    + 32 * (h.reserved % 8)
  }

  function HeaderBytes(h: Header): seq<byte> {
    [FrameControl(h)]
    + (if h.manufacturer.Some? then LeBytes(h.manufacturer.value, 2) else [])
    + [h.tsn, h.command]
  }

  function FrameBytes(f: Frame): seq<byte> { HeaderBytes(f.header) + f.payload }

  function HeaderAt(buf: seq<byte>, pos: nat): (r: Read<Header>)
    requires pos <= |buf|
    ensures r.Got? ==> pos < r.next <= |buf| && Normal(r.value)
  {
    match U8At(buf, pos)
    case Fail(e) => Fail(e)
    case Got(fc, at) =>
      var code: Read<Option<u16>> := if fc / 4 % 2 == 1 then ManufacturerAt(buf, at) else Got(None, at);
      match code
      case Fail(e) => Fail(e)
      case Got(manufacturer, at) =>
        match U8At(buf, at)
        case Fail(e) => Fail(e)
        case Got(tsn, at) =>
          match U8At(buf, at)
          case Fail(e) => Fail(e)
          case Got(command, at) =>
            Got(Header(FrameTypeFromBits(fc), manufacturer,
                       if fc / 8 % 2 == 0 then ClientToServer else ServerToClient,
                       fc / 16 % 2 == 1, fc / 32, tsn, command), at)
  }

  function ManufacturerAt(buf: seq<byte>, pos: nat): (r: Read<Option<u16>>)
    requires pos <= |buf|
    ensures r.Got? ==> r.next == pos + 2 <= |buf| && r.value.Some? && buf[pos..pos + 2] == LeBytes(r.value.value, 2)
  {
    Word16Bound(buf, pos);
    match UintLeAt(buf, pos, 2)
    case Fail(e) => Fail(e)
    case Got(v, next) => Got(Some(v), next)
  }

  lemma Word16Bound(buf: seq<byte>, pos: nat)
    requires pos <= |buf|
    ensures UintLeAt(buf, pos, 2).Got? ==>
              UintLeAt(buf, pos, 2).value < 0x1_0000 && pos + 2 <= |buf| &&
              LeBytes(UintLeAt(buf, pos, 2).value, 2) == buf[pos..pos + 2]
  {
    if pos + 2 <= |buf| {
      LeValueBound(buf[pos..pos + 2]);
      LeBytesOfValue(buf[pos..pos + 2]);
      assert buf[pos..pos + 2][..2] == buf[pos..pos + 2];
      Pow256Values();
    }
  }

  function FrameAt(bytes: seq<byte>): Result<Frame, CodecError> {
    match HeaderAt(bytes, 0)
    case Fail(e) => Err(e)
    case Got(header, at) => Ok(Frame(header, bytes[at..]))
  }

  method DecodeHeader(r: Reader) returns (h: Result<Header, CodecError>)
    requires r.Valid()
    modifies r
    ensures r.Valid() && Agrees(HeaderAt(r.buf, old(r.pos)), h, r.pos)
  {
    var fc := r.U8();
    if fc.Err? { return Err(fc.error); }
    var manufacturer: Option<u16> := None;
    if fc.value / 4 % 2 == 1 {
      Word16Bound(r.buf, r.pos);
      var code := r.UintLe(2);
      if code.Err? { return Err(code.error); }
      manufacturer := Some(code.value);
    }
    var tsn := r.U8();
    if tsn.Err? { return Err(tsn.error); }
    var command := r.U8();
    if command.Err? { return Err(command.error); }
    h := Ok(Header(FrameTypeFromBits(fc.value), manufacturer,
                   if fc.value / 8 % 2 == 0 then ClientToServer else ServerToClient,
                   fc.value / 16 % 2 == 1, fc.value / 32, tsn.value, command.value));
  }

  method EncodeHeader(h: Header, w: Writer)
    modifies w
    ensures w.buf == old(w.buf) + HeaderBytes(h)
  {
    var fc: nat := FrameTypeToBits(h.frameType);
    if h.manufacturer.Some? {
      fc := fc + 4;
    }
    if h.direction.ServerToClient? {
      fc := fc + 8;
    }
    if h.disableDefaultResponse {
      fc := fc + 16;
    }
    fc := fc + 32 * (h.reserved % 8);
    w.U8(fc);
    if h.manufacturer.Some? {
      w.UintLe(h.manufacturer.value, 2);
    }
    w.U8(h.tsn);
    w.U8(h.command);
  }

  method DecodeFrame(bytes: seq<byte>) returns (f: Result<Frame, CodecError>)
    ensures f == FrameAt(bytes)
  {
    var r := new Reader(bytes);
    var h := DecodeHeader(r);
    if h.Err? { return Err(h.error); }
    var payload := r.Rest();
    f := Ok(Frame(h.value, payload));
  }

  method EncodeFrame(f: Frame) returns (bytes: seq<byte>)
    ensures bytes == FrameBytes(f)
  {
    var w := new Writer();
    EncodeHeader(f.header, w);
    w.Bytes(f.payload);
    bytes := w.buf;
  }

  /** The five fields of the frame control byte, packed and unpacked. */
  lemma PackedFields(t: nat, m: nat, d: nat, e: nat, r: nat, fc: nat)
    requires t < 4 && m < 2 && d < 2 && e < 2 && r < 8
    requires fc == t + 4 * m + 8 * d + 16 * e + 32 * r
    ensures fc % 4 == t && fc / 4 % 2 == m && fc / 8 % 2 == d && fc / 16 % 2 == e && fc / 32 == r
  {
    assert fc / 4 == m + 2 * d + 4 * e + 8 * r;
    assert fc / 8 == d + 2 * e + 4 * r;
    assert fc / 16 == e + 2 * r;
  }

  lemma UnpackedFields(fc: nat)
    ensures fc == fc % 4 + 4 * (fc / 4 % 2) + 8 * (fc / 8 % 2) + 16 * (fc / 16 % 2) + 32 * (fc / 32)
  {
    assert fc / 8 == fc / 4 / 2;
    assert fc / 16 == fc / 8 / 2;
    assert fc / 32 == fc / 16 / 2;
  }

  lemma FrameControlFields(h: Header)
    requires Normal(h)
    ensures FrameTypeFromBits(FrameControl(h)) == h.frameType
    ensures FrameControl(h) / 4 % 2 == (if h.manufacturer.Some? then 1 else 0)
    ensures FrameControl(h) / 8 % 2 == (if h.direction.ServerToClient? then 1 else 0)
    ensures FrameControl(h) / 16 % 2 == (if h.disableDefaultResponse then 1 else 0)
    ensures FrameControl(h) / 32 == h.reserved
  {
    PackedFields(FrameTypeToBits(h.frameType), if h.manufacturer.Some? then 1 else 0,
                 if h.direction.ServerToClient? then 1 else 0,
                 if h.disableDefaultResponse then 1 else 0, h.reserved, FrameControl(h));
  }

  /** A frame decodes to itself exactly when its header is one a decoder can produce. */
  lemma FrameRoundTrip(f: Frame)
    ensures FrameAt(FrameBytes(f)) == Ok(f) <==> Normal(f.header)
  {
    if Normal(f.header) {
      var h, bytes := f.header, FrameBytes(f);
      FrameControlFields(h);
      assert bytes[0] == FrameControl(h);
      if h.manufacturer.Some? {
        assert LeBytes(h.manufacturer.value, 2) <= bytes[1..];
        UintLeReads(h.manufacturer.value, 2, bytes, 1);
        Pow256Values();
      }
      assert bytes[|HeaderBytes(h)|..] == f.payload;
    }
  }

  /** Every byte string that decodes re-encodes to the very same bytes, reserved
      bits included. */
  lemma BytesRoundTrip(bytes: seq<byte>)
    requires FrameAt(bytes).Ok?
    ensures FrameBytes(FrameAt(bytes).value) == bytes
  {
    HeaderBytesRoundTrip(bytes);
    var r := HeaderAt(bytes, 0);
    assert bytes == bytes[..r.next] + bytes[r.next..];
  }

  lemma HeaderBytesRoundTrip(bytes: seq<byte>)
    requires HeaderAt(bytes, 0).Got?
    ensures HeaderBytes(HeaderAt(bytes, 0).value) == bytes[..HeaderAt(bytes, 0).next]
  {
    var h, next := HeaderAt(bytes, 0).value, HeaderAt(bytes, 0).next;
    ControlRoundTrip(bytes[0], h);
    var code := HeaderParts(bytes);
    assert bytes[..next] == [bytes[0]] + code + [h.tsn, h.command];
  }

  lemma ControlRoundTrip(fc: byte, h: Header)
    requires h.frameType == FrameTypeFromBits(fc) && h.reserved == fc / 32
    requires h.manufacturer.Some? <==> fc / 4 % 2 == 1
    requires h.direction == if fc / 8 % 2 == 0 then ClientToServer else ServerToClient
    requires h.disableDefaultResponse <==> fc / 16 % 2 == 1
    ensures FrameControl(h) == fc
  {
    UnpackedFields(fc);
    TypeBitsRoundTrip(fc);
    assert h.reserved % 8 == fc / 32;
    assert (if h.manufacturer.Some? then 4 else 0) == 4 * (fc / 4 % 2);
    assert (if h.direction.ServerToClient? then 8 else 0) == 8 * (fc / 8 % 2);
    assert (if h.disableDefaultResponse then 16 else 0) == 16 * (fc / 16 % 2);
  }

  lemma TypeBitsRoundTrip(fc: byte)
    ensures FrameTypeToBits(FrameTypeFromBits(fc)) == fc % 4
  {
  }

  lemma HeaderParts(bytes: seq<byte>) returns (code: seq<byte>)
    requires HeaderAt(bytes, 0).Got?
    ensures var h, next := HeaderAt(bytes, 0).value, HeaderAt(bytes, 0).next;
            && code == (if h.manufacturer.Some? then LeBytes(h.manufacturer.value, 2) else [])
            && next == |code| + 3 && code == bytes[1..|code| + 1]
            && bytes[|code| + 1] == h.tsn && bytes[|code| + 2] == h.command
  {
    var h := HeaderAt(bytes, 0).value;
    code := if h.manufacturer.Some? then LeBytes(h.manufacturer.value, 2) else [];
  }
}
