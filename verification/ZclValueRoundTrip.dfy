/** Which values survive the wire: encoding a value under a type and decoding
    it in the middle of any buffer gives it back exactly when it is canonical. */
module ZclValueRoundTrip {
  import opened Wrappers
  import opened Words
  import opened Codec
  import opened ZclTypes
  import Utf8

  /** Whether `x` fits a two's-complement field of `n` bytes. */
  predicate InSigned(x: int, n: nat) {
    if n == 0 then x == 0
    else if n >= 8 then true
    else -(Pow256(n) / 2) <= x < Pow256(n) / 2
  }

  predicate HasControl(s: string) { exists i :: 0 <= i < |s| && IsControl(s[i]) }

  /** The values a type carries losslessly. `Invalid` is one of them only for
      the widths whose marker the decoder recognises, and never for bitmaps. */
  predicate Canonical(v: ZclValue, ty: ZclType) {
    match ty
    case NoData | Unk => v == Nothing
    case Boolean => v.Bool? || v == Invalid(ty)
    case Uint(n) =>
      (v.UintValue? && v.n < Pow256(Min(n, 8)) && !IsInvalidUint(v.n, n)) ||
      (v == Invalid(ty) && 1 <= n <= 4)
    case Bitmap(n) => v.Bits? && v.bits < Pow256(Min(n, 8))
    case Int(n) =>
      (v.IntValue? && InSigned(v.x, n) && !(n in {1, 2, 4} && v.x == -(Pow256(n) / 2))) ||
      (v == Invalid(ty) && n in {1, 2, 4})
    case Enum8 => (v.Enum? && v.ordinal < 0xff) || v == Invalid(ty)
    case Enum16 => (v.Enum? && v.ordinal < 0xffff) || v == Invalid(ty)
    case Single => (v.Float? && !IsNan(v.pattern)) || v == Invalid(ty)
    case OctStr => (v.Octets? && |v.bytes| < 0xff) || v == Invalid(ty)
    case CharStr => (v.Str? && !HasControl(v.text) && |Utf8.Encode(v.text)| < 0xff) || v == Invalid(ty)
    case Ieee => v.Address?
    case Key128 => v.Key?
    case Data(n) => v.Raw? && v.tag == ToU8(ty) && |v.raw| == n
    case Unknown(o) => v.Raw? && v.tag == o
    // Nothing that can be written under these decodes to itself.
    case ClusterId | AttrId | Time(_) => false
  }

  /** The main law of the value codec, in both directions: the encoding of `v`,
      followed by anything, decodes to `v` and leaves exactly what followed, if
      and only if `v` is canonical. An unmodelled type takes the whole rest of
      the buffer, so there nothing may follow. */
  lemma ValueRoundTrip(v: ZclValue, ty: ZclType, buf: seq<byte>, pos: nat)
    requires pos <= |buf|
    requires EncodeBytes(v, ty).Ok? && EncodeBytes(v, ty).value <= buf[pos..]
    ensures DecodeAt(ty, buf, pos) == Got(v, pos + |EncodeBytes(v, ty).value|) <==>
            Canonical(v, ty) && (ty.Unknown? ==> buf[pos..] == EncodeBytes(v, ty).value)
  {
    var enc := EncodeBytes(v, ty).value;
    assert forall i :: 0 <= i < |enc| ==> buf[pos + i] == enc[i] by {
      assert forall i :: 0 <= i < |enc| ==> buf[pos..][i] == enc[i];
    }
    match ty
    case Uint(_) => UnsignedRoundTrip(v, ty, buf, pos);
    case Bitmap(_) => UnsignedRoundTrip(v, ty, buf, pos);
    case Int(_) => SignedRoundTrip(v, ty, buf, pos);
    case Enum16 | Single | Ieee => WordRoundTrip(v, ty, buf, pos);
    case OctStr | CharStr => TextRoundTrip(v, ty, buf, pos);
    case Key128 => assert v.Key? ==> buf[pos..pos + 16] == enc;
    case Data(n) => assert v.Raw? && |v.raw| == n ==> buf[pos..pos + n] == enc;
    case _ =>
  }

  lemma UnsignedRoundTrip(v: ZclValue, ty: ZclType, buf: seq<byte>, pos: nat)
    requires ty.Uint? || ty.Bitmap?
    requires pos <= |buf|
    requires EncodeBytes(v, ty).Ok? && EncodeBytes(v, ty).value <= buf[pos..]
    ensures DecodeAt(ty, buf, pos) == Got(v, pos + |EncodeBytes(v, ty).value|) <==> Canonical(v, ty)
  {
    if v.UintValue? || v.Bits? {
      var n := if v.UintValue? then v.n else v.bits;
      assert EncodeBytes(v, ty).value == LeBytes(n, ty.width);
      UintLeReads(n, ty.width, buf, pos);
    } else if v == Invalid(ty) {
      AllOnesReads(ty.width, buf, pos);
    }
  }

  lemma SignedRoundTrip(v: ZclValue, ty: ZclType, buf: seq<byte>, pos: nat)
    requires ty.Int?
    requires pos <= |buf|
    requires EncodeBytes(v, ty).Ok? && EncodeBytes(v, ty).value <= buf[pos..]
    ensures DecodeAt(ty, buf, pos) == Got(v, pos + |EncodeBytes(v, ty).value|) <==> Canonical(v, ty)
  {
    if v.IntValue? {
      UintLeReads(AsU64(v.x), ty.width, buf, pos);
      SignRoundTrip(v.x, ty.width);
    } else if v == Invalid(ty) {
      MostNegativeReads(ty.width, buf, pos);
    }
  }

  lemma WordRoundTrip(v: ZclValue, ty: ZclType, buf: seq<byte>, pos: nat)
    requires ty.Enum16? || ty.Single? || ty.Ieee?
    requires pos <= |buf|
    requires EncodeBytes(v, ty).Ok? && EncodeBytes(v, ty).value <= buf[pos..]
    ensures DecodeAt(ty, buf, pos) == Got(v, pos + |EncodeBytes(v, ty).value|) <==> Canonical(v, ty)
  {
    Pow256Values();
    if v.Enum? && ty.Enum16? {
      UintLeReads(v.ordinal, 2, buf, pos);
    } else if v.Float? {
      UintLeReads(v.pattern, 4, buf, pos);
    } else if v.Address? {
      UintLeReads(v.ieee, 8, buf, pos);
    } else if v == Invalid(Enum16) && ty.Enum16? {
      AllOnesReads(2, buf, pos);
    } else if v == Invalid(Single) {
      UintLeReads(NAN_PATTERN, 4, buf, pos);
    }
  }

  lemma TextRoundTrip(v: ZclValue, ty: ZclType, buf: seq<byte>, pos: nat)
    requires ty.OctStr? || ty.CharStr?
    requires pos <= |buf|
    requires EncodeBytes(v, ty).Ok? && EncodeBytes(v, ty).value <= buf[pos..]
    ensures DecodeAt(ty, buf, pos) == Got(v, pos + |EncodeBytes(v, ty).value|) <==> Canonical(v, ty)
  {
    if v.Octets? {
      OctStrReads(Some(v.bytes), buf, pos);
    } else if v.Str? {
      StringRoundTrip(v, ty, buf, pos);
    } else if v == Invalid(ty) {
      OctStrReads(None, buf, pos);
    }
  }

  lemma StringRoundTrip(v: ZclValue, ty: ZclType, buf: seq<byte>, pos: nat)
    requires v.Str? && (ty.OctStr? || ty.CharStr?)
    requires pos <= |buf|
    requires EncodeBytes(v, ty).Ok? && EncodeBytes(v, ty).value <= buf[pos..]
    ensures DecodeAt(ty, buf, pos) == Got(v, pos + |EncodeBytes(v, ty).value|) <==> Canonical(v, ty)
  {
    OctStrReads(Some(Utf8.Encode(v.text)), buf, pos);
    if ty.CharStr? {
      Utf8.RoundTrip(v.text);
      SanitiseKeeps(v.text);
    }
  }

  /** How a field of 1 to 7 bytes sits in the top of a 64-bit word. */
  lemma WidthFacts(n: nat)
    requires 1 <= n <= 7
    ensures Pow256(n) * Pow256(8 - n) == TWO_TO_64
    ensures Pow256(n) / 2 * Pow256(8 - n) == TWO_TO_63
    ensures Pow256(n) == 2 * (Pow256(n) / 2)
  {
    Pow256Values();
    if n == 1 {
    } else if n == 2 {
    } else if n == 3 {
    } else if n == 4 {
    } else if n == 5 {
    } else if n == 6 {
    } else {
    }
  }

  /** Sign extension is the two's-complement reading of the low `n` bytes. */
  lemma SignExtendIs(raw: u64, n: nat)
    requires 1 <= n <= 7 && raw < Pow256(n)
    ensures SignExtend(raw, n) == if raw < Pow256(n) / 2 then raw else raw - Pow256(n)
  {
    WidthFacts(n);
    ShiftedUpAndBack(raw, Pow256(n), Pow256(8 - n), Pow256(n) / 2);
  }

  lemma ShiftedUpAndBack(raw: u64, p: nat, shift: nat, half: nat)
    requires p * shift == TWO_TO_64 && half * shift == TWO_TO_63 && p == 2 * half
    requires raw < p && shift > 0
    ensures AsI64(raw * shift % TWO_TO_64) / shift == if raw < half then raw else raw - p
  {
    MulMonotone(raw + 1, p, shift);
    assert (raw + 1) * shift == raw * shift + shift;
    assert raw * shift % TWO_TO_64 == raw * shift;
    if raw < half {
      MulMonotone(raw + 1, half, shift);
      DivModUnique(raw * shift, shift, raw, 0);
    } else {
      MulMonotone(half, raw, shift);
      assert raw * shift - p * shift == shift * (raw - p);
      DivModUnique(raw * shift - TWO_TO_64, shift, raw - p, 0);
    }
  }

  lemma MulMonotone(a: int, b: int, m: nat)
    requires a <= b
    ensures a * m <= b * m
  {
    assert (b - a) * m >= 0;
  }

  /** Truncation to `n` bytes, as arithmetic on the signed number. */
  lemma Truncated(x: i64, n: nat)
    requires 1 <= n <= 7 && InSigned(x, n)
    ensures AsU64(x) % Pow256(n) == if x < 0 then x + Pow256(n) else x
  {
    WidthFacts(n);
    Remainder(x, Pow256(n), Pow256(8 - n));
  }

  lemma Remainder(x: i64, p: nat, shift: nat)
    requires p * shift == TWO_TO_64 && 0 <= x + p && x < p && shift > 0
    ensures AsU64(x) % p == if x < 0 then x + p else x
  {
    if x < 0 {
      assert p * (shift - 1) == p * shift - p;
      DivModUnique(x + TWO_TO_64, p, shift - 1, x + p);
    } else {
      DivModUnique(x, p, 0, x);
    }
  }

  lemma InvalidIsLowest(raw: nat, x: int, n: nat)
    requires 1 <= n <= 7 && InSigned(x, n) && raw == if x < 0 then x + Pow256(n) else x
    ensures IsInvalidInt(raw, n) <==> n in {1, 2, 4} && x == -(Pow256(n) / 2)
  {
    Pow256Values();
  }

  /** Truncating to `n` bytes and sign-extending undoes itself exactly on the
      numbers that fit, and the pattern kept for "invalid" is the lowest one. */
  lemma SignRoundTrip(x: i64, n: nat)
    ensures AsU64(x) % Pow256(Min(n, 8)) < TWO_TO_64
    ensures SignExtend(AsU64(x) % Pow256(Min(n, 8)), n) == x <==> InSigned(x, n)
    ensures InSigned(x, n) ==>
              (IsInvalidInt(AsU64(x) % Pow256(Min(n, 8)), n) <==> n in {1, 2, 4} && x == -(Pow256(n) / 2))
  {
    if 1 <= n <= 7 {
      var raw := AsU64(x) % Pow256(n);
      WidthFacts(n);
      SignExtendIs(raw, n);
      if InSigned(x, n) {
        Truncated(x, n);
        InvalidIsLowest(raw, x, n);
      }
    } else {
      Pow256Values();
    }
  }

  /** Bytes of all ones read as the unsigned "invalid" pattern for widths 1 to 4 only. */
  lemma AllOnesReads(n: nat, buf: seq<byte>, pos: nat)
    requires pos <= |buf| && seq(n, _ => 0xff) <= buf[pos..]
    ensures UintLeAt(buf, pos, n).Got? && UintLeAt(buf, pos, n).next == pos + n
    ensures IsInvalidUint(UintLeAt(buf, pos, n).value, n) <==> 1 <= n <= 4
    ensures n == 2 ==> UintLeAt(buf, pos, n).value == 0xffff
  {
    var ones: seq<byte> := seq(n, _ => 0xff);
    assert buf[pos..pos + n] == ones;
    if n <= 4 {
      LeOnes(n);
      assert ones[..Min(n, 8)] == LeBytes(Pow256(n) - 1, n);
      LeRoundTrip(Pow256(n) - 1, n);
      Pow256Values();
    }
  }

  lemma {:induction false} LeOnes(n: nat)
    ensures LeBytes(Pow256(n) - 1, n) == seq(n, _ => 0xff)
  {
    if n > 0 {
      LeOnes(n - 1);
      var rest := Pow256(n - 1) - 1;
      assert Pow256(n) - 1 == 256 * rest + 255;
      DivModUnique(Pow256(n) - 1, 256, rest, 255);
      assert seq(n, _ => 0xff as byte) == [0xff] + seq(n - 1, _ => 0xff as byte);
    }
  }

  /** The most negative pattern reads as "invalid" for widths 1, 2 and 4 only. */
  lemma MostNegativeReads(n: byte, buf: seq<byte>, pos: nat)
    requires pos <= |buf| && InvalidBytes(Int(n)) <= buf[pos..]
    ensures UintLeAt(buf, pos, n).Got? && UintLeAt(buf, pos, n).next == pos + n
    ensures IsInvalidInt(UintLeAt(buf, pos, n).value, n) <==> n in {1, 2, 4}
  {
    var bytes := InvalidBytes(Int(n));
    assert buf[pos..pos + n] == bytes;
    Pow256Values();
    if n in {1, 2, 4} {
      var zeros := bytes[..n - 1];
      assert bytes[..Min(n, 8)] == zeros + [0x80];
      LeValueSnoc(zeros, 0x80);
      LeZeros(n - 1);
    }
  }

  lemma {:induction false} LeZeros(n: nat)
    ensures LeValue(seq(n, _ => 0)) == 0
  {
    if n > 0 {
      LeZeros(n - 1);
      assert seq(n, _ => 0 as byte)[1..] == seq(n - 1, _ => 0 as byte);
    }
  }

  /** Sanitising leaves a string alone exactly when it has no control character. */
  lemma {:induction false} SanitiseKeeps(s: string)
    ensures |Sanitise(s)| <= |s|
    ensures Sanitise(s) == s <==> !HasControl(s)
    ensures !HasControl(Sanitise(s))
  {
    if s != [] {
      SanitiseKeeps(s[1..]);
      assert s == [s[0]] + s[1..];
      assert forall i :: 0 <= i < |s[1..]| ==> s[1..][i] == s[i + 1];
      if HasControl(s) && !IsControl(s[0]) {
        var i :| 0 <= i < |s| && IsControl(s[i]);
        assert s[1..][i - 1] == s[i];
      }
      if !IsControl(s[0]) {
        assert Sanitise(s)[1..] == Sanitise(s[1..]);
        assert forall i :: 1 <= i < |Sanitise(s)| ==> Sanitise(s)[i] == Sanitise(s[1..])[i - 1];
      }
    }
  }

  // ---------------------------------------------------------------------
  // What comes off the wire

  /** The types whose values are read under another type than they are written. */
  predicate ReadsAsOther(ty: ZclType) { ty.ClusterId? || ty.AttrId? || ty.Time? }

  lemma RawFits(buf: seq<byte>, pos: nat, n: nat)
    requires pos <= |buf| && UintLeAt(buf, pos, n).Got?
    ensures UintLeAt(buf, pos, n).value < Pow256(Min(n, 8))
  {
    LeValueBound(buf[pos..pos + n][..Min(n, 8)]);
  }

  lemma SignedIsCanonical(raw: u64, n: byte)
    requires raw < Pow256(Min(n, 8)) && !IsInvalidInt(raw, n)
    ensures Canonical(IntValue(SignExtend(raw, n)), Int(n))
  {
    Pow256Values();
    if 1 <= n <= 7 {
      SignExtendIs(raw, n);
      WidthFacts(n);
      InvalidIsLowest(raw, SignExtend(raw, n), n);
    }
  }

  lemma {:induction false} SanitisedIsShorter(s: string)
    ensures |Utf8.Encode(Sanitise(s))| <= |Utf8.Encode(s)|
  {
    if s != [] {
      var rest := Sanitise(s[1..]);
      SanitisedIsShorter(s[1..]);
      if IsControl(s[0]) {
        assert Sanitise(s) == rest;
      } else {
        assert Sanitise(s) == [s[0]] + rest;
        assert ([s[0]] + rest)[1..] == rest;
      }
    }
  }

  lemma TextIsCanonical(buf: seq<byte>, pos: nat)
    requires pos <= |buf| && DecodeAt(CharStr, buf, pos).Got?
    ensures Canonical(DecodeAt(CharStr, buf, pos).value, CharStr)
  {
    var raw := OctStrAt(buf, pos).value;
    if raw.Some? {
      var text := Utf8.Decode(raw.value).value;
      Utf8.EncodeDecoded(raw.value);
      SanitisedIsShorter(text);
      SanitiseKeeps(text);
    }
  }

  /** Whatever decodes under a type is canonical for it, except under the three kinds
      of type that read as plain numbers. */
  lemma DecodedIsCanonical(ty: ZclType, buf: seq<byte>, pos: nat)
    requires pos <= |buf| && DecodeAt(ty, buf, pos).Got?
    ensures Canonical(DecodeAt(ty, buf, pos).value, ty) <==> !ReadsAsOther(ty)
  {
    match ty
    case Uint(n) => RawFits(buf, pos, n);
    case Bitmap(n) => RawFits(buf, pos, n);
    case Int(n) =>
      RawFits(buf, pos, n);
      ReadsAdvance(buf, pos, n);
      if !IsInvalidInt(UintLeAt(buf, pos, n).value, n) {
        SignedIsCanonical(UintLeAt(buf, pos, n).value, n);
      }
    case CharStr => TextIsCanonical(buf, pos);
    case Enum16 => UintLeFits(buf, pos, 2);
    case _ =>
  }

  /** Where a value that was written reads back as itself, it is canonical; so an
      accepted value that is not canonical is always read as something else. */
  lemma WrittenReadsBack(v: ZclValue, ty: ZclType, buf: seq<byte>, pos: nat)
    requires pos <= |buf| && EncodeBytes(v, ty).Ok?
    requires DecodeAt(ty, buf, pos).Got? && DecodeAt(ty, buf, pos).value == v
    ensures Canonical(v, ty)
  {
    DecodedIsCanonical(ty, buf, pos);
  }

  // ---------------------------------------------------------------------
  // Values under other types

  /** The bytes a value takes when its type has no say in it. */
  function OwnWidth(v: ZclValue): Option<nat> {
    match v
    case Nothing => Some(0)
    case Bool(_) => Some(1)
    case Float(_) => Some(4)
    case Octets(b) => Some(|b| + 1)
    case Str(s) => Some(|Utf8.Encode(s)| + 1)
    case Address(_) => Some(8)
    case Key(_) => Some(16)
    case Raw(_, b) => Some(|b|)
    case Invalid(t) => Some(|InvalidBytes(t)|)
    case _ => None
  }

  /** A value accepted under a type of fixed width fills that width exactly when it
      is a number checked against the type, or happens to be as wide itself. The
      refusal of mismatched values covers numbers only. */
  lemma FillsWidthExactly(v: ZclValue, ty: ZclType)
    requires EncodeBytes(v, ty).Ok? && FixedSize(ty).Some?
    ensures |EncodeBytes(v, ty).value| == FixedSize(ty).value <==>
            OwnWidth(v).None? || OwnWidth(v).value == FixedSize(ty).value
  {
  }

  /** A boolean under any unsigned type is accepted and writes a single byte. */
  lemma BooleanUnderNumber(on: bool, n: byte)
    ensures EncodeBytes(Bool(on), Uint(n)).Ok? && |EncodeBytes(Bool(on), Uint(n)).value| == 1
    ensures FixedSize(Uint(n)) == Some(n as nat)
  {
  }
}
