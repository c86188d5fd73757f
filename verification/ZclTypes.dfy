/** ZCL data types (section 2.6 of the Zigbee Cluster Library, revision 8) and
    their dynamically typed values. */
module ZclTypes {
  import opened Wrappers
  import opened Words
  import opened Codec
  import Utf8

  /** A data type discriminator. Widths are any `u8`, as in the source: only
      `WireType` ones can come off the wire. */
  datatype ZclType =
    | NoData
    | Data(width: byte)
    | Boolean
    | Bitmap(width: byte)
    | Uint(width: byte)
    | Int(width: byte)
    | Enum8
    | Enum16
    | Single
    | OctStr
    | CharStr
    | Time(kind: byte)
    | ClusterId
    | AttrId
    | Ieee
    | Key128
    | Unk
    | Unknown(tag: byte)

  datatype ZclValue =
    | Nothing
    | Bool(on: bool)
    | UintValue(n: u64)
    | IntValue(x: i64)
    | Enum(ordinal: u16)
    | Bits(bits: u64)
    | Float(pattern: u32)
    | Octets(bytes: seq<byte>)
    | Str(text: string)
    | Address(ieee: u64)
    | Key(key: Key128Bytes)
    | Raw(tag: byte, raw: seq<byte>)
    | Invalid(ty: ZclType)

  type Key128Bytes = k: seq<byte> | |k| == 16 witness seq(16, _ => 0)

  function FromU8(id: byte): ZclType {
    if id == 0x00 then NoData
    else if 0x08 <= id <= 0x0f then Data(id - 0x08 + 1)
    else if id == 0x10 then Boolean
    else if 0x18 <= id <= 0x1f then Bitmap(id - 0x18 + 1)
    else if 0x20 <= id <= 0x27 then Uint(id - 0x20 + 1)
    else if 0x28 <= id <= 0x2f then Int(id - 0x28 + 1)
    else if id == 0x30 then Enum8
    else if id == 0x31 then Enum16
    else if id == 0x39 then Single
    else if id == 0x41 then OctStr
    else if id == 0x42 then CharStr
    else if 0xe0 <= id <= 0xe2 then Time(id - 0xe0)
    else if id == 0xe8 then ClusterId
    else if id == 0xe9 then AttrId
    else if id == 0xf0 then ZclType.Ieee
    else if id == 0xf1 then Key128
    else if id == 0xff then Unk
    else Unknown(id)
  }

  /** Widths no discriminator carries wrap around the byte. */
  function ToU8(ty: ZclType): byte {
    match ty
    case NoData => 0x00
    case Data(n) => Wrapped(0x08 - 1, n)
    case Boolean => 0x10
    case Bitmap(n) => Wrapped(0x18 - 1, n)
    case Uint(n) => Wrapped(0x20 - 1, n)
    case Int(n) => Wrapped(0x28 - 1, n)
    case Enum8 => 0x30
    case Enum16 => 0x31
    case Single => 0x39
    case OctStr => 0x41
    case CharStr => 0x42
    case Time(n) => Wrapped(0xe0, n)
    case ClusterId => 0xe8
    case AttrId => 0xe9
    case Ieee => 0xf0
    case Key128 => 0xf1
    case Unk => 0xff
    case Unknown(o) => o
  }

  function Wrapped(base: nat, n: nat): byte { (base + n) % 0x100 }

  function FixedSize(ty: ZclType): Option<nat> {
    match ty
    case NoData | Unk => Some(0)
    case Boolean | Enum8 => Some(1)
    case Enum16 | ClusterId | AttrId => Some(2)
    case Single => Some(4)
    case Data(n) => Some(n)
    case Bitmap(n) => Some(n)
    case Uint(n) => Some(n)
    case Int(n) => Some(n)
    case Time(n) => if n <= 2 then Some(4) else None
    case Ieee => Some(8)
    case Key128 => Some(16)
    case OctStr | CharStr | Unknown(_) => None
  }

  /** The types a wire discriminator denotes. */
  predicate WireType(ty: ZclType) {
    match ty
    case Data(n) => 1 <= n <= 8
    case Bitmap(n) => 1 <= n <= 8
    case Uint(n) => 1 <= n <= 8
    case Int(n) => 1 <= n <= 8
    case Time(n) => n <= 2
    case Unknown(o) => FromU8(o) == ty
    case _ => true
  }

  predicate IsInvalidUint(raw: nat, n: nat) {
    (n == 1 && raw == 0xff) || (n == 2 && raw == 0xffff) ||
    (n == 3 && raw == 0xff_ffff) || (n == 4 && raw == 0xffff_ffff)
  }

  predicate IsInvalidInt(raw: nat, n: nat) {
    (n == 1 && raw == 0x80) || (n == 2 && raw == 0x8000) || (n == 4 && raw == 0x8000_0000)
  }

  /** Reinterprets 64 bits as a signed number. */
  function AsI64(raw: u64): i64 {
    if raw < TWO_TO_63 then raw else raw - TWO_TO_64
  }

  function AsU64(x: i64): u64 {
    if x < 0 then x + TWO_TO_64 else x
  }

  /** A left shift that discards the high bits, then an arithmetic right shift. */
  function SignExtend(raw: u64, n: nat): i64 {
    if n == 0 || n >= 8 then AsI64(raw)
    else
      var shift := Pow256(8 - n);
      Pow256Values();
      AsI64(raw * shift % TWO_TO_64) / shift
  }

  /** A single-precision pattern with an all-ones exponent and a fraction. */
  predicate IsNan(pattern: u32) { pattern % 0x8000_0000 > 0x7f80_0000 }

  const NAN_PATTERN: u32 := 0x7fc0_0000

  predicate IsControl(c: char) {
    c as int < 0x20 || 0x7f <= c as int < 0xa0
  }

  /** Drops control characters from a device-supplied string. */
  function Sanitise(s: string): string {
    if s == [] then []
    else (if IsControl(s[0]) then [] else [s[0]]) + Sanitise(s[1..])
  }

  /** What decoding a value of type `ty` at `pos` gives. */
  function DecodeAt(ty: ZclType, buf: seq<byte>, pos: nat): Read<ZclValue>
    requires pos <= |buf|
  {
    match ty
    case NoData | Unk => Got(Nothing, pos)
    case Boolean =>
      (match U8At(buf, pos)
       case Fail(e) => Fail(e)
       case Got(b, next) => Got(if b == 0 then Bool(false) else if b == 0xff then Invalid(ty) else Bool(true), next))
    case Uint(n) =>
      ReadsAdvance(buf, pos, n);
      (match UintLeAt(buf, pos, n)
       case Fail(e) => Fail(e)
       case Got(raw, next) => Got(if IsInvalidUint(raw, n) then Invalid(ty) else UintValue(raw), next))
    case Bitmap(n) =>
      ReadsAdvance(buf, pos, n);
      (match UintLeAt(buf, pos, n)
       case Fail(e) => Fail(e)
       case Got(raw, next) => Got(Bits(raw), next))
    case Int(n) =>
      ReadsAdvance(buf, pos, n);
      (match UintLeAt(buf, pos, n)
       case Fail(e) => Fail(e)
       case Got(raw, next) => Got(if IsInvalidInt(raw, n) then Invalid(ty) else IntValue(SignExtend(raw, n)), next))
    case Enum8 =>
      (match U8At(buf, pos)
       case Fail(e) => Fail(e)
       case Got(b, next) => Got(if b == 0xff then Invalid(ty) else Enum(b), next))
    case Enum16 =>
      UintLeFits(buf, pos, 2);
      (match UintLeAt(buf, pos, 2)
       case Fail(e) => Fail(e)
       case Got(v, next) => Got(if v == 0xffff then Invalid(ty) else Enum(v), next))
    case Single =>
      UintLeFits(buf, pos, 4);
      (match UintLeAt(buf, pos, 4)
       case Fail(e) => Fail(e)
       case Got(bits, next) => Got(if IsNan(bits) then Invalid(ty) else Float(bits), next))
    case OctStr =>
      (match OctStrAt(buf, pos)
       case Fail(e) => Fail(e)
       case Got(None, next) => Got(Invalid(ty), next)
       case Got(Some(b), next) => Got(Octets(b), next))
    case CharStr =>
      (match StringAt(buf, pos)
       case Fail(e) => Fail(e)
       case Got(None, next) => Got(Invalid(ty), next)
       case Got(Some(s), next) => Got(Str(Sanitise(s)), next))
    case ClusterId | AttrId =>
      UintLeFits(buf, pos, 2);
      (match UintLeAt(buf, pos, 2)
       case Fail(e) => Fail(e)
       case Got(v, next) => Got(UintValue(v), next))
    case Time(_) =>
      UintLeFits(buf, pos, 4);
      (match UintLeAt(buf, pos, 4)
       case Fail(e) => Fail(e)
       case Got(v, next) => Got(UintValue(v), next))
    case Ieee =>
      UintLeFits(buf, pos, 8);
      (match UintLeAt(buf, pos, 8)
       case Fail(e) => Fail(e)
       case Got(v, next) => Got(Address(v), next))
    case Key128 =>
      (match TakeAt(buf, pos, 16)
       case Fail(e) => Fail(e)
       case Got(k, next) => Got(Key(k), next))
    case Data(n) =>
      (match TakeAt(buf, pos, n)
       case Fail(e) => Fail(e)
       case Got(bytes, next) => Got(Raw(ToU8(ty), bytes), next))
    // The length of an unmodelled type is unknown, so it takes everything left.
    case Unknown(o) => Got(Raw(o, buf[pos..]), |buf|)
  }

  /** The bytes of a type's "no value" encoding. */
  function InvalidBytes(ty: ZclType): seq<byte> {
    match ty
    case Int(n) => if n == 0 then [] else seq(n - 1, _ => 0) + [0x80]
    case Single => LeBytes(NAN_PATTERN, 4)
    case OctStr | CharStr => [0xff]
    case _ => seq(if FixedSize(ty).Some? then FixedSize(ty).value else 1, _ => 0xff)
  }

  /** The bytes a value is written as under a type, or why it cannot be. */
  function EncodeBytes(v: ZclValue, ty: ZclType): Result<seq<byte>, CodecError> {
    match (v, ty)
    case (Nothing, _) => Ok([])
    case (Bool(b), _) => Ok([if b then 1 else 0])
    case (UintValue(x), Uint(n)) => Ok(LeBytes(x, n))
    case (UintValue(x), Bitmap(n)) => Ok(LeBytes(x, n))
    case (Bits(x), Uint(n)) => Ok(LeBytes(x, n))
    case (Bits(x), Bitmap(n)) => Ok(LeBytes(x, n))
    case (IntValue(x), Int(n)) => Ok(LeBytes(AsU64(x), n))
    case (Enum(x), Enum8) => Ok([if x <= 0xff then x else 0xfe])
    case (Enum(x), Enum16) => Ok(LeBytes(x, 2))
    case (Float(p), _) => Ok(LeBytes(p, 4))
    case (Octets(b), _) => OctStrBytes(Some(b))
    case (Str(s), _) => OctStrBytes(Some(Utf8.Encode(s)))
    case (Address(a), _) => Ok(LeBytes(a, 8))
    case (Key(k), _) => Ok(k)
    case (Raw(_, bytes), _) => Ok(bytes)
    case (Invalid(t), _) => Ok(InvalidBytes(t))
    case _ => Err(OutputFull(0))
  }

  method DecodeValue(ty: ZclType, r: Reader) returns (v: Result<ZclValue, CodecError>)
    requires r.Valid()
    modifies r
    ensures r.Valid() && Agrees(DecodeAt(ty, r.buf, old(r.pos)), v, r.pos)
  {
    match ty {
      case NoData => v := Ok(Nothing);
      case Unk => v := Ok(Nothing);
      case Boolean =>
        var b := r.U8();
        if b.Err? { return Err(b.error); }
        v := Ok(if b.value == 0 then Bool(false) else if b.value == 0xff then Invalid(ty) else Bool(true));
      case Uint(n) =>
        ReadsAdvance(r.buf, r.pos, n);
        var raw := r.UintLe(n);
        if raw.Err? { return Err(raw.error); }
        v := Ok(if IsInvalidUint(raw.value, n) then Invalid(ty) else UintValue(raw.value));
      case Bitmap(n) =>
        // All bits set is a legitimate bitmap, so there is no invalid encoding.
        ReadsAdvance(r.buf, r.pos, n);
        var raw := r.UintLe(n);
        if raw.Err? { return Err(raw.error); }
        v := Ok(Bits(raw.value));
      case Int(n) =>
        ReadsAdvance(r.buf, r.pos, n);
        var raw := r.UintLe(n);
        if raw.Err? { return Err(raw.error); }
        v := Ok(if IsInvalidInt(raw.value, n) then Invalid(ty) else IntValue(SignExtend(raw.value, n)));
      case Enum8 =>
        var b := r.U8();
        if b.Err? { return Err(b.error); }
        v := Ok(if b.value == 0xff then Invalid(ty) else Enum(b.value));
      case Enum16 =>
        UintLeFits(r.buf, r.pos, 2);
        var x := r.UintLe(2);
        if x.Err? { return Err(x.error); }
        v := Ok(if x.value == 0xffff then Invalid(ty) else Enum(x.value));
      case Single =>
        UintLeFits(r.buf, r.pos, 4);
        var bits := r.UintLe(4);
        if bits.Err? { return Err(bits.error); }
        v := Ok(if IsNan(bits.value) then Invalid(ty) else Float(bits.value));
      case OctStr =>
        var b := r.OctStr();
        if b.Err? { return Err(b.error); }
        v := Ok(if b.value.None? then Invalid(ty) else Octets(b.value.value));
      case CharStr =>
        var s := r.String();
        if s.Err? { return Err(s.error); }
        v := Ok(if s.value.None? then Invalid(ty) else Str(Sanitise(s.value.value)));
      case ClusterId =>
        v := DecodeWord(r, 2);
      case AttrId =>
        v := DecodeWord(r, 2);
      case Time(_) =>
        v := DecodeWord(r, 4);
      case Ieee =>
        UintLeFits(r.buf, r.pos, 8);
        var a := r.UintLe(8);
        if a.Err? { return Err(a.error); }
        v := Ok(Address(a.value));
      case Key128 =>
        var k := r.Take(16);
        if k.Err? { return Err(k.error); }
        v := Ok(Key(k.value));
      case Data(n) =>
        var bytes := r.Take(n);
        if bytes.Err? { return Err(bytes.error); }
        v := Ok(Raw(ToU8(ty), bytes.value));
      case Unknown(o) =>
        var rest := r.Rest();
        v := Ok(Raw(o, rest));
    }
  }

  /** A plain little-endian word, for the types that have no invalid encoding. */
  method DecodeWord(r: Reader, n: nat) returns (v: Result<ZclValue, CodecError>)
    requires r.Valid() && n <= 8
    modifies r
    ensures r.Valid()
    ensures match UintLeAt(r.buf, old(r.pos), n)
            case Got(x, next) => v.Ok? && v.value.UintValue? && v.value.n == x && r.pos == next
            case Fail(e) => v == Err(e)
  {
    ReadsAdvance(r.buf, r.pos, n);
    var x := r.UintLe(n);
    if x.Err? { return Err(x.error); }
    v := Ok(UintValue(x.value));
  }

  /** Writes a type's "no value" encoding a byte at a time. */
  method WriteInvalid(w: Writer, ty: ZclType)
    modifies w
    ensures w.buf == old(w.buf) + InvalidBytes(ty)
  {
    if ty.Int? {
      var n := ty.width;
      for i := 0 to n
        invariant w.buf == old(w.buf) + if i == n && n > 0 then InvalidBytes(ty) else seq(i, _ => 0)
      {
        w.U8(if i + 1 == n then 0x80 else 0x00);
      }
    } else if ty.Single? {
      w.UintLe(NAN_PATTERN, 4);
    } else if ty.OctStr? || ty.CharStr? {
      w.U8(0xff);
    } else {
      var size := if FixedSize(ty).Some? then FixedSize(ty).value else 1;
      for i := 0 to size
        invariant w.buf == old(w.buf) + seq(i, _ => 0xff)
      {
        w.U8(0xff);
      }
    }
  }

  method EncodeValue(v: ZclValue, ty: ZclType, w: Writer) returns (r: Result<(), CodecError>)
    modifies w
    ensures match EncodeBytes(v, ty)
            case Ok(bytes) => r.Ok? && w.buf == old(w.buf) + bytes
            case Err(e) => r == Err(e) && w.buf == old(w.buf)
  {
    r := Ok(());
    match (v, ty) {
      case (Nothing, _) =>
      case (Bool(b), _) => w.U8(if b then 1 else 0);
      case (UintValue(x), Uint(n)) => w.UintLe(x, n);
      case (UintValue(x), Bitmap(n)) => w.UintLe(x, n);
      case (Bits(x), Uint(n)) => w.UintLe(x, n);
      case (Bits(x), Bitmap(n)) => w.UintLe(x, n);
      case (IntValue(x), Int(n)) => w.UintLe(AsU64(x), n);
      case (Enum(x), Enum8) => w.U8(if x <= 0xff then x else 0xfe);
      case (Enum(x), Enum16) => w.UintLe(x, 2);
      case (Float(p), _) => w.UintLe(p, 4);
      case (Octets(b), _) => r := w.OctStr(Some(b));
      case (Str(s), _) => r := w.OctStr(Some(Utf8.Encode(s)));
      case (Address(a), _) => w.UintLe(a, 8);
      case (Key(k), _) => w.Bytes(k);
      case (Raw(_, bytes), _) => w.Bytes(bytes);
      case (Invalid(t), _) => WriteInvalid(w, t);
      case _ => r := Err(OutputFull(0));
    }
  }

  lemma UintLeFits(buf: seq<byte>, pos: nat, n: nat)
    requires pos <= |buf| && n <= 8
    ensures UintLeAt(buf, pos, n).Got? ==> UintLeAt(buf, pos, n).value < Pow256(n)
    ensures Pow256(2) == 0x1_0000 && Pow256(4) == 0x1_0000_0000 && Pow256(8) == TWO_TO_64
  {
    Pow256Values();
    if pos + n <= |buf| {
      LeValueBound(buf[pos..pos + n][..Min(n, 8)]);
    }
  }

  /** Every discriminator byte survives being read as a type. */
  lemma TagRoundTrip(id: byte)
    ensures ToU8(FromU8(id)) == id && WireType(FromU8(id))
  {
  }

  /** Exactly the wire types survive being written as a discriminator. */
  lemma TypeRoundTrip(ty: ZclType)
    ensures FromU8(ToU8(ty)) == ty <==> WireType(ty)
  {
    var id := ToU8(ty);
    match ty
    case Data(n) => WrappedBy(0x08 - 1, n);
    case Bitmap(n) => WrappedBy(0x18 - 1, n);
    case Uint(n) => WrappedBy(0x20 - 1, n);
    case Int(n) => WrappedBy(0x28 - 1, n);
    case Time(n) => WrappedBy(0xe0, n);
    case _ =>
  }

  lemma WrappedBy(base: byte, n: byte)
    ensures Wrapped(base, n) == if base + n < 0x100 then base + n else base + n - 0x100
  {
  }
}
