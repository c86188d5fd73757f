/** The byte cursor and the growable buffer every wire codec is written on.

    What a read does is first given as a function of the whole buffer and the
    offset, so that two reads can be related; the `Reader` and `Writer` classes
    are proved against those functions. */
module Codec {
  import opened Wrappers
  import opened Words
  import Utf8

  datatype CodecError =
    | Eof(wanted: nat, offset: nat, available: nat)
    | BadLength(claimed: nat, available: nat, offset: nat)
    | BadUtf8(offset: nat)
    | OutputFull(wanted: nat)

  /** A value together with the offset just past it. */
  datatype Read<+T> = Got(value: T, next: nat) | Fail(error: CodecError)

  function TakeAt(buf: seq<byte>, pos: nat, n: nat): Read<seq<byte>>
    requires pos <= |buf|
  {
    if pos + n <= |buf| then Got(buf[pos..pos + n], pos + n) else Fail(Eof(n, pos, |buf| - pos))
  }

  function UintLeAt(buf: seq<byte>, pos: nat, n: nat): Read<nat>
    requires pos <= |buf|
  {
    match TakeAt(buf, pos, n)
    case Fail(e) => Fail(e)
    // Bytes past the eighth are consumed and dropped: the accumulator has 64 bits.
    case Got(bytes, next) => Got(LeValue(bytes[..Min(n, 8)]), next)
  }

  function UintBeAt(buf: seq<byte>, pos: nat, n: nat): Read<nat>
    requires pos <= |buf|
  {
    match TakeAt(buf, pos, n)
    case Fail(e) => Fail(e)
    case Got(bytes, next) => Got(BeValue(bytes), next)
  }

  function U8At(buf: seq<byte>, pos: nat): (r: Read<byte>)
    requires pos <= |buf|
    ensures UintLeAt(buf, pos, 1) == if r.Got? then Got(r.value, r.next) else Fail(r.error)
  {
    assert pos < |buf| ==> buf[pos..pos + 1][..1] == [buf[pos]];
    assert pos < |buf| ==> LeValue([buf[pos]]) == buf[pos] + 256 * LeValue([]);
    if pos < |buf| then Got(buf[pos], pos + 1) else Fail(Eof(1, pos, 0))
  }

  /** A length-prefixed string; the prefix 255 means "no value". */
  function OctStrAt(buf: seq<byte>, pos: nat): Read<Option<seq<byte>>>
    requires pos <= |buf|
  {
    match U8At(buf, pos)
    case Fail(e) => Fail(e)
    case Got(len, at) =>
      if len == 0xff then Got(None, at)
      else if len > |buf| - at then Fail(BadLength(len, |buf| - at, pos))
      else Got(Some(buf[at..at + len]), at + len)
  }

  function StringAt(buf: seq<byte>, pos: nat): Read<Option<string>>
    requires pos <= |buf|
  {
    match OctStrAt(buf, pos)
    case Fail(e) => Fail(e)
    case Got(None, at) => Got(None, at)
    case Got(Some(raw), at) =>
      match Utf8.Decode(raw)
      case None => Fail(BadUtf8(pos))
      case Some(text) => Got(Some(text), at)
  }

  /** The bytes `Writer.OctStr` appends, or why it refuses. */
  function OctStrBytes(v: Option<seq<byte>>): Result<seq<byte>, CodecError> {
    match v
    case None => Ok([0xff])
    case Some(raw) => if |raw| >= 0xff then Err(OutputFull(|raw|)) else Ok([|raw|] + raw)
  }

  /** Whether a method's outcome is the one the read function gives. */
  predicate Agrees<T(==)>(spec: Read<T>, r: Result<T, CodecError>, pos: nat) {
    match spec
    case Got(v, next) => r == Ok(v) && pos == next
    case Fail(e) => r == Err(e)
  }

  /** A cursor over a byte slice that never reads past the end. */
  class Reader {
    const buf: seq<byte>
    var pos: nat

    predicate Valid()
      reads this
    {
      pos <= |buf|
    }

    constructor (bytes: seq<byte>)
      ensures Valid() && buf == bytes && pos == 0
    {
      buf, pos := bytes, 0;
    }

    function Remaining(): nat
      reads this
      requires Valid()
    {
      |buf| - pos
    }

    method Take(n: nat) returns (r: Result<seq<byte>, CodecError>)
      requires Valid()
      modifies this
      ensures Valid() && Agrees(TakeAt(buf, old(pos), n), r, pos)
      ensures r.Err? ==> pos == old(pos)
    {
      if pos + n > |buf| {
        return Err(Eof(n, pos, Remaining()));
      }
      r := Ok(buf[pos..pos + n]);
      pos := pos + n;
    }

    method Rest() returns (bytes: seq<byte>)
      requires Valid()
      modifies this
      ensures Valid() && pos == |buf| && bytes == buf[old(pos)..]
    {
      bytes := buf[pos..];
      pos := |buf|;
    }

    method U8() returns (r: Result<byte, CodecError>)
      requires Valid()
      modifies this
      ensures Valid() && Agrees(U8At(buf, old(pos)), r, pos)
      ensures r.Err? ==> pos == old(pos)
    {
      var taken := Take(1);
      match taken
      case Err(e) => r := Err(e);
      case Ok(b) => r := Ok(b[0]);
    }

    /** Little-endian read, accumulated a byte at a time. */
    method UintLe(n: nat) returns (r: Result<nat, CodecError>)
      requires Valid()
      modifies this
      ensures Valid() && Agrees(UintLeAt(buf, old(pos), n), r, pos)
      ensures r.Err? ==> pos == old(pos)
    {
      var taken := Take(n);
      if taken.Err? {
        return Err(taken.error);
      }
      var bytes := taken.value;
      var acc := 0;
      for i := 0 to |bytes|
        invariant Valid() && pos == old(pos) + n
        invariant acc == LeValue(bytes[..Min(i, 8)])
      {
        if i < 8 {
          LeValueSnoc(bytes[..i], bytes[i]);
          assert bytes[..i + 1] == bytes[..i] + [bytes[i]];
          acc := acc + Pow256(i) * bytes[i];
        }
      }
      r := Ok(acc);
    }

    method U16Be() returns (r: Result<u16, CodecError>)
      requires Valid()
      modifies this
      ensures Valid()
      ensures match UintBeAt(buf, old(pos), 2)
              case Got(v, next) => r.Ok? && r.value == v && pos == next
              case Fail(e) => r == Err(e)
    {
      var taken := Take(2);
      match taken
      case Err(e) => r := Err(e);
      case Ok(b) =>
        assert BeValue(b) == 256 * BeValue(b[..1]) + b[1];
        assert BeValue(b[..1]) == 256 * BeValue([]) + b[0];
        var high: nat, low: nat := b[0], b[1];
        r := Ok(256 * high + low);
    }

    method OctStr() returns (r: Result<Option<seq<byte>>, CodecError>)
      requires Valid()
      modifies this
      ensures Valid() && Agrees(OctStrAt(buf, old(pos)), r, pos)
    {
      var at := pos;
      var len := U8();
      if len.Err? {
        return Err(len.error);
      }
      if len.value == 0xff {
        return Ok(None);
      }
      if len.value > Remaining() {
        return Err(BadLength(len.value, Remaining(), at));
      }
      var raw := Take(len.value);
      r := Ok(Some(raw.value));
    }

    method String() returns (r: Result<Option<string>, CodecError>)
      requires Valid()
      modifies this
      ensures Valid() && Agrees(StringAt(buf, old(pos)), r, pos)
    {
      var at := pos;
      var raw := OctStr();
      match raw
      case Err(e) => r := Err(e);
      case Ok(None) => r := Ok(None);
      case Ok(Some(bytes)) =>
        match Utf8.Decode(bytes)
        case None => r := Err(BadUtf8(at));
        case Some(text) => r := Ok(Some(text));
    }
  }

  /** A growable byte buffer. */
  class Writer {
    var buf: seq<byte>

    constructor ()
      ensures buf == []
    {
      buf := [];
    }

    method U8(v: byte)
      modifies this
      ensures buf == old(buf) + [v]
    {
      buf := buf + [v];
    }

    method Bytes(v: seq<byte>)
      modifies this
      ensures buf == old(buf) + v
    {
      buf := buf + v;
    }

    /** The low `n` bytes of a 64-bit value; a shift past bit 63 writes zero. */
    method UintLe(v: u64, n: nat)
      modifies this
      ensures buf == old(buf) + LeBytes(v, n)
    {
      for i := 0 to n
        invariant buf == old(buf) + LeBytes(v, i)
      {
        LeBytesSnoc(v, i);
        var next: byte := 0;
        if i < 8 {
          next := v / Pow256(i) % 256;
        } else {
          Pow256Values();
          Pow256Monotone(8, i);
          DivModUnique(v, Pow256(i), 0, v);
        }
        U8(next);
      }
    }

    method U16Be(v: u16)
      modifies this
      ensures buf == old(buf) + BeBytes(v, 2)
    {
      assert BeBytes(v, 2) == BeBytes(v / 256, 1) + [v % 256];
      assert BeBytes(v / 256, 1) == BeBytes(v / 256 / 256, 0) + [v / 256 % 256];
      buf := buf + [v / 256, v % 256];
    }

    method OctStr(v: Option<seq<byte>>) returns (r: Result<(), CodecError>)
      modifies this
      ensures match OctStrBytes(v)
              case Ok(bytes) => r.Ok? && buf == old(buf) + bytes
              case Err(e) => r == Err(e) && buf == old(buf)
    {
      match v
      case None => U8(0xff); r := Ok(());
      case Some(raw) =>
        if |raw| >= 0xff {
          return Err(OutputFull(|raw|));
        }
        U8(|raw|);
        Bytes(raw);
        r := Ok(());
    }
  }

  /** Reading stays inside the buffer and never goes backwards. */
  lemma ReadsAdvance(buf: seq<byte>, pos: nat, n: nat)
    requires pos <= |buf|
    ensures UintLeAt(buf, pos, n).Got? <==> pos + n <= |buf|
    ensures UintLeAt(buf, pos, n).Got? ==> UintLeAt(buf, pos, n).next == pos + n
    ensures UintLeAt(buf, pos, n).Got? ==> UintLeAt(buf, pos, n).value < TWO_TO_64
    ensures OctStrAt(buf, pos).Got? ==> pos < OctStrAt(buf, pos).next <= |buf|
  {
    if pos + n <= |buf| {
      LeValueBound(buf[pos..pos + n][..Min(n, 8)]);
      Pow256Monotone(Min(n, 8), 8);
      Pow256Values();
    }
  }

  /** Little-endian bytes at the cursor read back as the low 64 bits of the value. */
  lemma UintLeReads(v: nat, n: nat, buf: seq<byte>, pos: nat)
    requires pos <= |buf| && LeBytes(v, n) <= buf[pos..]
    ensures UintLeAt(buf, pos, n) == Got(v % Pow256(Min(n, 8)), pos + n)
    ensures v < Pow256(Min(n, 8)) ==> UintLeAt(buf, pos, n) == Got(v, pos + n)
  {
    assert buf[pos..pos + n] == LeBytes(v, n);
    LePrefix(v, n, Min(n, 8));
    LeRoundTrip(v, Min(n, 8));
  }

  /** A written octet string reads back exactly, whatever follows it. */
  lemma OctStrReads(v: Option<seq<byte>>, buf: seq<byte>, pos: nat)
    requires pos <= |buf| && OctStrBytes(v).Ok? && OctStrBytes(v).value <= buf[pos..]
    ensures OctStrAt(buf, pos) == Got(v, pos + |OctStrBytes(v).value|)
  {
    var bytes := OctStrBytes(v).value;
    assert buf[pos] == bytes[0];
    if v.Some? {
      assert buf[pos + 1..pos + 1 + |v.value|] == bytes[1..];
    }
  }
}
