/** Tuya's datapoint protocol: a little-endian sequence number, then datapoints
    whose length and numbers are big-endian. */
module TuyaWire {
  import opened Wrappers
  import opened Words
  import opened Codec
  import Utf8

  datatype DataType = TRaw | TBool | TNumber | TStr | TEnum | TBitmap | TUnknown(tag: byte)

  datatype Value =
    | Raw(bytes: seq<byte>)
    | Bool(on: bool)
    | Number(n: i32)
    | Str(text: string)
    | Enum(choice: byte)
    | Bitmap(bits: u32)

  datatype Datapoint = Datapoint(dp: byte, value: Value)

  datatype TuyaError =
    | TooLong(dp: byte, claimed: nat, available: nat)
    | WrongLength(dp: byte, ty: DataType, length: nat)
    | BadCodec(error: CodecError)

  /** How bytes that are not valid UTF-8 are shown; the theorems hold for any repair. */
  type Repair = seq<byte> -> string

  function TypeOf(tag: byte): DataType {
    if tag == 0 then TRaw
    else if tag == 1 then TBool
    else if tag == 2 then TNumber
    else if tag == 3 then TStr
    else if tag == 4 then TEnum
    else if tag == 5 then TBitmap
    else TUnknown(tag)
  }

  function TagOf(ty: DataType): byte {
    match ty
    case TRaw => 0
    case TBool => 1
    case TNumber => 2
    case TStr => 3
    case TEnum => 4
    case TBitmap => 5
    case TUnknown(o) => o
  }

  function AsI32(raw: u32): i32 { if raw < 0x8000_0000 then raw else raw - 0x1_0000_0000 }

  function AsU32(n: i32): u32 { if n < 0 then n + 0x1_0000_0000 else n }

  function Word32(bytes: seq<byte>): u32
    requires |bytes| <= 4
  {
    BeValueBound(bytes);
    Pow256Values();
    Pow256Monotone(|bytes|, 4);
    BeValue(bytes)
  }

  /** One datapoint's bytes under its declared type. */
  function ReadValue(dp: byte, ty: DataType, bytes: seq<byte>, repair: Repair): Result<Value, TuyaError> {
    match ty
    case TRaw | TUnknown(_) => Ok(Raw(bytes))
    case TBool => if |bytes| == 1 then Ok(Bool(bytes[0] != 0)) else Err(WrongLength(dp, ty, |bytes|))
    case TNumber => if |bytes| == 4 then Ok(Number(AsI32(Word32(bytes)))) else Err(WrongLength(dp, ty, |bytes|))
    case TStr => Ok(Str(match Utf8.Decode(bytes) case Some(text) => text case None => repair(bytes)))
    case TEnum => if |bytes| == 1 then Ok(Enum(bytes[0])) else Err(WrongLength(dp, ty, |bytes|))
    case TBitmap =>
      if |bytes| == 1 || |bytes| == 2 || |bytes| == 4 then Ok(Bitmap(Word32(bytes)))
      else Err(WrongLength(dp, ty, |bytes|))
  }

  function WriteValue(value: Value): (DataType, seq<byte>) {
    match value
    case Raw(bytes) => (TRaw, bytes)
    case Bool(on) => (TBool, [if on then 1 else 0])
    case Number(n) => (TNumber, BeBytes(AsU32(n), 4))
    case Str(text) => (TStr, Utf8.Encode(text))
    case Enum(choice) => (TEnum, [choice])
    // Four bytes whatever width the device used.
    case Bitmap(bits) => (TBitmap, BeBytes(bits, 4))
  }

  /** The header and bytes of a point; the length field stops at 65535. */
  function PointBytes(point: Datapoint): seq<byte> {
    var (ty, bytes) := WriteValue(point.value);
    [point.dp, TagOf(ty)] + BeBytes(Min(|bytes|, 0xffff), 2) + bytes
  }

  function PointsBytes(points: seq<Datapoint>): seq<byte> {
    if points == [] then [] else PointBytes(points[0]) + PointsBytes(points[1..])
  }

  function EncodeBytes(sequence: u16, points: seq<Datapoint>): seq<byte> {
    LeBytes(sequence, 2) + PointsBytes(points)
  }

  /** One datapoint at `pos`, and where the next begins. */
  function PointAt(buf: seq<byte>, pos: nat, repair: Repair): (r: Result<(Datapoint, nat), TuyaError>)
    requires pos + 4 <= |buf|
    ensures r.Ok? ==> pos + 4 <= r.value.1 <= |buf|
  {
    var length := BeValue(buf[pos + 2..pos + 4]);
    var at := pos + 4;
    if length > |buf| - at then Err(TooLong(buf[pos], length, |buf| - at))
    else
      match ReadValue(buf[pos], TypeOf(buf[pos + 1]), buf[at..at + length], repair)
      case Err(e) => Err(e)
      case Ok(value) => Ok((Datapoint(buf[pos], value), at + length))
  }

  /** Every datapoint from `pos`; fewer than four bytes left over is padding. */
  function PointsAt(buf: seq<byte>, pos: nat, repair: Repair): Result<seq<Datapoint>, TuyaError>
    requires pos <= |buf|
    decreases |buf| - pos
  {
    if |buf| - pos < 4 then Ok([])
    else
      match PointAt(buf, pos, repair)
      case Err(e) => Err(e)
      case Ok((point, next)) => PrependOk([point], PointsAt(buf, next, repair))
  }

  function DecodeBytes(payload: seq<byte>, repair: Repair): Result<(u16, seq<Datapoint>), TuyaError> {
    SequenceFits(payload);
    match UintLeAt(payload, 0, 2)
    case Fail(e) => Err(BadCodec(e))
    case Got(sequence, at) =>
      match PointsAt(payload, at, repair)
      case Err(e) => Err(e)
      case Ok(points) => Ok((sequence, points))
  }

  lemma SequenceFits(payload: seq<byte>)
    ensures UintLeAt(payload, 0, 2).Got? ==>
              UintLeAt(payload, 0, 2).value < 0x1_0000 && UintLeAt(payload, 0, 2).next == 2 <= |payload|
  {
    if |payload| >= 2 {
      LeValueBound(payload[0..2][..2]);
      Pow256Values();
    }
  }

  lemma PointAtIs(buf: seq<byte>, pos: nat, dp: byte, tag: byte, length: nat, data: seq<byte>, repair: Repair)
    requires pos + 4 + length <= |buf| && buf[pos] == dp && buf[pos + 1] == tag
    requires BeValue(buf[pos + 2..pos + 4]) == length && buf[pos + 4..pos + 4 + length] == data
    ensures PointAt(buf, pos, repair) ==
            match ReadValue(dp, TypeOf(tag), data, repair)
            case Err(e) => Err(e)
            case Ok(value) => Ok((Datapoint(dp, value), pos + 4 + length))
  {
  }

  method ReadPoint(reader: Reader, repair: Repair) returns (r: Result<Datapoint, TuyaError>)
    requires reader.Valid() && reader.Remaining() >= 4
    modifies reader
    ensures reader.Valid()
    ensures match PointAt(reader.buf, old(reader.pos), repair)
            case Ok((point, next)) => r == Ok(point) && reader.pos == next
            case Err(e) => r == Err(e)
  {
    ghost var at := reader.pos;
    var dp := reader.U8();
    var tag := reader.U8();
    var length := reader.U16Be();
    assert reader.pos == at + 4 && length.value == BeValue(reader.buf[at + 2..at + 4]);
    if length.value > reader.Remaining() {
      return Err(TooLong(dp.value, length.value, reader.Remaining()));
    }
    var bytes := reader.Take(length.value);
    var value := ReadValue(dp.value, TypeOf(tag.value), bytes.value, repair);
    PointAtIs(reader.buf, at, dp.value, tag.value, length.value, bytes.value, repair);
    if value.Err? {
      return Err(value.error);
    }
    r := Ok(Datapoint(dp.value, value.value));
  }

  method WritePoint(w: Writer, point: Datapoint)
    modifies w
    ensures w.buf == old(w.buf) + PointBytes(point)
  {
    var (ty, bytes) := WriteValue(point.value);
    w.U8(point.dp);
    w.U8(TagOf(ty));
    w.U16Be(Min(|bytes|, 0xffff));
    w.Bytes(bytes);
  }

  method Decode(payload: seq<byte>, repair: Repair) returns (r: Result<(u16, seq<Datapoint>), TuyaError>)
    ensures r == DecodeBytes(payload, repair)
  {
    var reader := new Reader(payload);
    SequenceFits(payload);
    var sequence := reader.UintLe(2);
    if sequence.Err? { return Err(BadCodec(sequence.error)); }
    var out: seq<Datapoint> := [];
    PrependOkTwice([], [], PointsAt(payload, 2, repair));
    while reader.Remaining() >= 4
      invariant reader.Valid() && reader.buf == payload
      invariant PointsAt(payload, 2, repair) == PrependOk(out, PointsAt(payload, reader.pos, repair))
      decreases reader.Remaining()
    {
      var point := ReadPoint(reader, repair);
      if point.Err? {
        return Err(point.error);
      }
      PrependOkTwice(out, [point.value], PointsAt(payload, reader.pos, repair));
      out := out + [point.value];
    }
    assert out + [] == out;
    r := Ok((sequence.value, out));
  }

  method Encode(sequence: u16, points: seq<Datapoint>) returns (bytes: seq<byte>)
    ensures bytes == EncodeBytes(sequence, points)
  {
    var w := new Writer();
    w.UintLe(sequence, 2);
    assert points[0..] == points;
    for i := 0 to |points|
      invariant EncodeBytes(sequence, points) == w.buf + PointsBytes(points[i..])
    {
      assert points[i..][0] == points[i] && points[i..][1..] == points[i + 1..];
      Associates(w.buf, PointBytes(points[i]), PointsBytes(points[i + 1..]));
      WritePoint(w, points[i]);
    }
    bytes := w.buf;
    assert bytes + [] == bytes;
  }

  // ---------------------------------------------------------------------
  // Round trips

  /** Whether a value's bytes fit the 16-bit length field. */
  predicate Fits(value: Value) { |WriteValue(value).1| <= 0xffff }

  predicate AllFit(points: seq<Datapoint>) {
    forall i :: 0 <= i < |points| ==> Fits(points[i].value)
  }

  /** What the length field leaves of a text that does not fit it. */
  function CutText(text: string): seq<byte>
    requires !Fits(Str(text))
  {
    Utf8.Encode(text)[..0xffff]
  }

  /** Whether a repair gives back a text that was cut: the cut fell inside a
      character, and what is shown for the broken one restores the text. */
  predicate Restores(repair: Repair, value: Value) {
    value.Str? && !Fits(value) && Utf8.Decode(CutText(value.text)) == None && repair(CutText(value.text)) == value.text
  }

  predicate NoneRestored(points: seq<Datapoint>, repair: Repair) {
    forall i :: 0 <= i < |points| ==> !Restores(repair, points[i].value)
  }

  lemma AllFitCons(points: seq<Datapoint>, repair: Repair)
    requires points != []
    ensures AllFit(points) <==> Fits(points[0].value) && AllFit(points[1..])
    ensures NoneRestored(points, repair) ==> NoneRestored(points[1..], repair)
  {
    assert points == [points[0]] + points[1..];
  }

  lemma ValueReads(dp: byte, value: Value, repair: Repair)
    ensures ReadValue(dp, WriteValue(value).0, WriteValue(value).1, repair) == Ok(value)
  {
    Pow256Values();
    match value
    case Number(n) => BeRoundTrip(AsU32(n), 4);
    case Bitmap(bits) => BeRoundTrip(bits, 4);
    case Str(text) => Utf8.RoundTrip(text);
    case _ =>
  }

  /** A point that fits reads back, whatever follows it. */
  lemma PointReads(point: Datapoint, buf: seq<byte>, pos: nat, repair: Repair)
    requires Fits(point.value)
    requires pos <= |buf| && PointBytes(point) <= buf[pos..]
    ensures pos + 4 <= |buf| && PointAt(buf, pos, repair) == Ok((point, pos + |PointBytes(point)|))
  {
    var (ty, data) := WriteValue(point.value);
    BytesOfPoint(point, ty, data);
    PartsOfPoint([point.dp, TagOf(ty)], BeBytes(|data|, 2), data, buf, pos);
    LengthReads(|data|);
    ValueReads(point.dp, point.value, repair);
    FieldsRead(point, ty, data, buf, pos, repair);
  }

  lemma BytesOfPoint(point: Datapoint, ty: DataType, data: seq<byte>)
    requires Fits(point.value) && WriteValue(point.value) == (ty, data)
    ensures TypeOf(TagOf(ty)) == ty && PointBytes(point) == [point.dp, TagOf(ty)] + BeBytes(|data|, 2) + data
  {
  }

  lemma FieldsRead(point: Datapoint, ty: DataType, data: seq<byte>, buf: seq<byte>, pos: nat, repair: Repair)
    requires TypeOf(TagOf(ty)) == ty && ReadValue(point.dp, ty, data, repair) == Ok(point.value)
    requires pos + 4 + |data| <= |buf| && buf[pos] == point.dp && buf[pos + 1] == TagOf(ty)
    requires BeValue(buf[pos + 2..pos + 4]) == |data| && buf[pos + 4..pos + 4 + |data|] == data
    ensures PointAt(buf, pos, repair) == Ok((point, pos + 4 + |data|))
  {
    PointAtIs(buf, pos, point.dp, TagOf(ty), |data|, data, repair);
  }

  lemma LengthReads(length: nat)
    requires length <= 0xffff
    ensures BeValue(BeBytes(length, 2)) == length
  {
    BeRoundTrip(length, 2);
    Pow256Values();
  }

  lemma PartsOfPoint(head: seq<byte>, length: seq<byte>, data: seq<byte>, buf: seq<byte>, pos: nat)
    requires |head| == 2 && |length| == 2 && pos <= |buf| && head + length + data <= buf[pos..]
    ensures pos + 4 + |data| <= |buf| && buf[pos] == head[0] && buf[pos + 1] == head[1]
    ensures buf[pos + 2..pos + 4] == length && buf[pos + 4..pos + 4 + |data|] == data
  {
    var bytes := head + length + data;
    assert forall i :: 0 <= i < |bytes| ==> buf[pos + i] == buf[pos..][i] == bytes[i];
  }

  lemma Suffixes(buf: seq<byte>, pos: nat, a: seq<byte>, b: seq<byte>)
    requires pos <= |buf| && buf[pos..] == a + b
    ensures a <= buf[pos..] && pos + |a| <= |buf| && buf[pos + |a|..] == b
  {
    assert buf[pos + |a|..] == buf[pos..][|a|..];
  }

  /** The first payload that does not fit is cut at 65535 bytes, and unless repair
      restores what was cut the list cannot come back: where it restores nothing,
      fitting is also necessary. */
  lemma {:induction false} PointsReadExactly(points: seq<Datapoint>, buf: seq<byte>, pos: nat, repair: Repair)
    requires NoneRestored(points, repair)
    requires pos <= |buf| && PointsBytes(points) == buf[pos..]
    ensures PointsAt(buf, pos, repair) == Ok(points) <==> AllFit(points)
    decreases |points|
  {
    if points == [] {
      assert |buf[pos..]| == 0;
    } else {
      AllFitCons(points, repair);
      Suffixes(buf, pos, PointBytes(points[0]), PointsBytes(points[1..]));
      var next := pos + |PointBytes(points[0])|;
      PointsReadExactly(points[1..], buf, next, repair);
      FirstDecides(points, buf, pos, next, repair);
    }
  }

  /** The list comes back exactly when its first point fits and the rest comes back. */
  lemma FirstDecides(points: seq<Datapoint>, buf: seq<byte>, pos: nat, next: nat, repair: Repair)
    requires points != [] && !Restores(repair, points[0].value)
    requires pos <= |buf| && PointBytes(points[0]) <= buf[pos..]
    requires next == pos + |PointBytes(points[0])| <= |buf|
    ensures PointsAt(buf, pos, repair) == Ok(points) <==>
            Fits(points[0].value) && PointsAt(buf, next, repair) == Ok(points[1..])
  {
    if Fits(points[0].value) {
      PointReads(points[0], buf, pos, repair);
      RestDecides(points, buf, pos, next, repair);
    } else {
      CutShort(points[0], buf, pos, repair);
      if PointsAt(buf, pos, repair).Ok? {
        FirstDecoded(buf, pos, repair);
      }
    }
  }

  lemma RestDecides(points: seq<Datapoint>, buf: seq<byte>, pos: nat, next: nat, repair: Repair)
    requires points != [] && pos + 4 <= |buf| && PointAt(buf, pos, repair) == Ok((points[0], next))
    ensures PointsAt(buf, pos, repair) == Ok(points) <==> PointsAt(buf, next, repair) == Ok(points[1..])
  {
    assert points == [points[0]] + points[1..];
    PrependedFirst(points[0], points[1..], PointsAt(buf, next, repair));
  }

  lemma PrependedFirst(first: Datapoint, rest: seq<Datapoint>, more: Result<seq<Datapoint>, TuyaError>)
    ensures PrependOk([first], more) == Ok([first] + rest) <==> more == Ok(rest)
  {
    if more.Ok? {
      assert ([first] + more.value)[1..] == more.value;
      assert ([first] + rest)[1..] == rest;
    }
  }

  lemma FirstDecoded(buf: seq<byte>, pos: nat, repair: Repair)
    requires pos <= |buf| && |buf| - pos >= 4 && PointsAt(buf, pos, repair).Ok?
    ensures PointAt(buf, pos, repair).Ok?
    ensures |PointsAt(buf, pos, repair).value| > 0
    ensures PointsAt(buf, pos, repair).value[0] == PointAt(buf, pos, repair).value.0
  {
  }

  /** A payload that does not fit reads as its first 65535 bytes. */
  lemma CutReads(point: Datapoint, data: seq<byte>, buf: seq<byte>, pos: nat, repair: Repair)
    requires !Fits(point.value) && data == WriteValue(point.value).1
    requires pos <= |buf| && PointBytes(point) <= buf[pos..]
    ensures point.value.Raw? || point.value.Str?
    ensures pos + 4 + |data| <= |buf|
    ensures PointAt(buf, pos, repair) ==
            Ok((Datapoint(point.dp,
                          if point.value.Raw? then Raw(data[..0xffff])
                          else Str(match Utf8.Decode(data[..0xffff]) case Some(t) => t case None => repair(data[..0xffff]))),
                pos + 4 + 0xffff))
  {
    var ty := WriteValue(point.value).0;
    PartsOfPoint([point.dp, TagOf(ty)], BeBytes(0xffff, 2), data, buf, pos);
    LengthReads(0xffff);
    assert buf[pos + 4..pos + 4 + 0xffff] == data[..0xffff] by {
      assert buf[pos + 4..pos + 4 + 0xffff] == buf[pos + 4..pos + 4 + |data|][..0xffff];
    }
    PointAtIs(buf, pos, point.dp, TagOf(ty), 0xffff, data[..0xffff], repair);
  }

  lemma CutShort(point: Datapoint, buf: seq<byte>, pos: nat, repair: Repair)
    requires !Fits(point.value) && !Restores(repair, point.value)
    requires pos <= |buf| && PointBytes(point) <= buf[pos..]
    ensures |buf| - pos >= 4
    ensures PointAt(buf, pos, repair).Ok? ==> PointAt(buf, pos, repair).value.0 != point
  {
    var data := WriteValue(point.value).1;
    CutReads(point, data, buf, pos, repair);
    if point.value.Str? && Utf8.Decode(data[..0xffff]).Some? {
      Utf8.EncodeDecoded(data[..0xffff]);
    }
  }

  /** Decoding what was encoded gives back the sequence number and the list, exactly
      when every payload fits; unless a repair happens to restore what a cut
      destroyed. */
  lemma EncodedDecodes(sequence: u16, points: seq<Datapoint>, repair: Repair)
    requires NoneRestored(points, repair)
    ensures DecodeBytes(EncodeBytes(sequence, points), repair) == Ok((sequence, points)) <==> AllFit(points)
  {
    PointsStart(sequence, points, repair);
    PointsReadExactly(points, EncodeBytes(sequence, points), 2, repair);
  }

  lemma PointsStart(sequence: u16, points: seq<Datapoint>, repair: Repair)
    ensures var buf := EncodeBytes(sequence, points);
            && |buf| >= 2 && buf[2..] == PointsBytes(points)
            && DecodeBytes(buf, repair) ==
               match PointsAt(buf, 2, repair) case Err(e) => Err(e) case Ok(read) => Ok((sequence, read))
  {
    var buf := EncodeBytes(sequence, points);
    UintLeReads(sequence, 2, buf, 0);
    Pow256Values();
    assert buf[2..] == PointsBytes(points);
  }

  /** A restored text does come back although it does not fit, exactly when less than
      a datapoint's header is left over of it. */
  lemma RestoredTextReads(sequence: u16, dp: byte, text: string, repair: Repair)
    requires Restores(repair, Str(text))
    ensures var points := [Datapoint(dp, Str(text))];
            DecodeBytes(EncodeBytes(sequence, points), repair) == Ok((sequence, points)) <==> |Utf8.Encode(text)| < 0xffff + 4
  {
    var point := Datapoint(dp, Str(text));
    var buf := EncodeBytes(sequence, [point]);
    PointsStart(sequence, [point], repair);
    assert PointsBytes([point][1..]) == [];
    assert PointsBytes([point]) == PointBytes(point) + [] == PointBytes(point);
    CutReads(point, Utf8.Encode(text), buf, 2, repair);
    var next := 2 + 4 + 0xffff;
    assert |buf| - next == |Utf8.Encode(text)| - 0xffff;
    RestDecides([point], buf, 2, next, repair);
    assert [point][1..] == [];
    if |buf| - next >= 4 && PointsAt(buf, next, repair).Ok? {
      FirstDecoded(buf, next, repair);
    }
  }

  const REPLACEMENT: string := "\U{FFFD}"

  /** It happens: where broken text is shown with a replacement character, a text of
      65537 bytes that ends in one is cut inside it and restored. */
  lemma ReplacementRestores(text: string, repair: Repair)
    requires |Utf8.Encode(text)| == 0xfffe
    requires repair(Utf8.Encode(text) + [0xEF]) == text + REPLACEMENT
    ensures Restores(repair, Str(text + REPLACEMENT)) && |Utf8.Encode(text + REPLACEMENT)| < 0xffff + 4
  {
    Utf8.EncodeJoined(text, REPLACEMENT);
    assert REPLACEMENT[1..] == "";
    assert Utf8.Encode(REPLACEMENT) == Utf8.EncodeChar(REPLACEMENT[0]) + Utf8.Encode("") == [0xEF, 0xBF, 0xBD];
    assert Utf8.Encode(text + REPLACEMENT)[..0xffff] == Utf8.Encode(text) + [0xEF];
    assert Utf8.Decode([0xEF]) == None;
    Utf8.BrokenAfter(text, [0xEF]);
  }

  /** Whether every text datapoint from `pos` is valid UTF-8. */
  predicate TextIsValid(buf: seq<byte>, pos: nat, repair: Repair)
    requires pos <= |buf|
    decreases |buf| - pos
  {
    |buf| - pos >= 4 && PointAt(buf, pos, repair).Ok? ==>
      var next := PointAt(buf, pos, repair).value.1;
      (TypeOf(buf[pos + 1]) == TStr ==> Utf8.Decode(buf[pos + 4..next]).Some?) && TextIsValid(buf, next, repair)
  }

  /** What a decoder produces from valid text always fits the length field again. */
  lemma {:induction false} DecodedFits(buf: seq<byte>, pos: nat, repair: Repair)
    requires pos <= |buf| && PointsAt(buf, pos, repair).Ok? && TextIsValid(buf, pos, repair)
    ensures AllFit(PointsAt(buf, pos, repair).value)
    decreases |buf| - pos
  {
    if |buf| - pos >= 4 {
      var (point, next) := PointAt(buf, pos, repair).value;
      BeValueBound(buf[pos + 2..pos + 4]);
      Pow256Values();
      var data := buf[pos + 4..next];
      if point.value.Str? {
        Utf8.EncodeDecoded(data);
      }
      assert Fits(point.value);
      DecodedFits(buf, next, repair);
      var rest := PointsAt(buf, next, repair).value;
      assert PointsAt(buf, pos, repair).value == [point] + rest;
    }
  }

  /** Re-encoding what was decoded and decoding again changes nothing, despite
      widened bitmaps, unknown types kept as raw bytes and dropped padding. */
  lemma DecodeIsStable(payload: seq<byte>, repair: Repair)
    requires DecodeBytes(payload, repair).Ok? && |payload| >= 2 && TextIsValid(payload, 2, repair)
    ensures var (sequence, points) := DecodeBytes(payload, repair).value;
            DecodeBytes(EncodeBytes(sequence, points), repair) == DecodeBytes(payload, repair)
  {
    var (sequence, points) := DecodeBytes(payload, repair).value;
    DecodedFits(payload, 2, repair);
    EncodedDecodes(sequence, points, repair);
  }
}
