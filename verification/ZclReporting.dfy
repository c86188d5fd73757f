/** Configuring attribute reporting, and the receiver's reading of it (section
    2.5.7 of the Zigbee Cluster Library, revision 8). */
module ZclReporting {
  import opened Wrappers
  import opened Words
  import opened Codec
  import opened ZclTypes
  import opened ZclFrame

  const DIRECTION_REPORTED: byte := 0x00
  const CONFIGURE_REPORTING: byte := 0x06

  datatype ReportRecord = ReportRecord(
    attribute: u16,
    ty: ZclType,
    minInterval: u16,
    maxInterval: u16,
    minChange: u64)

  /** Whether a type carries a reportable change. */
  predicate IsAnalog(ty: ZclType) {
    ty.Uint? || ty.Int? || ty.Single? || ty.Time?
  }

  function ChangeValue(record: ReportRecord): ZclValue {
    if record.ty.Int? then
      IntValue(if record.minChange < TWO_TO_63 then record.minChange else TWO_TO_63 - 1)
    else UintValue(record.minChange)
  }

  function FixedBytes(record: ReportRecord): seq<byte> {
    [DIRECTION_REPORTED] + LeBytes(record.attribute, 2) + [ToU8(record.ty)]
    + LeBytes(record.minInterval, 2) + LeBytes(record.maxInterval, 2)
  }

  function RecordBytes(record: ReportRecord): Result<seq<byte>, CodecError> {
    if !IsAnalog(record.ty) then Ok(FixedBytes(record))
    else
      match EncodeBytes(ChangeValue(record), record.ty)
      case Err(e) => Err(e)
      case Ok(change) => Ok(FixedBytes(record) + change)
  }

  function RecordsBytes(records: seq<ReportRecord>): Result<seq<byte>, CodecError> {
    if records == [] then Ok([])
    else
      match RecordBytes(records[0])
      case Err(e) => Err(e)
      case Ok(bytes) => PrependOk(bytes, RecordsBytes(records[1..]))
  }

  method ConfigureReporting(tsn: byte, records: seq<ReportRecord>) returns (r: Result<seq<byte>, CodecError>)
    ensures r == PrependOk(HeaderBytes(Plain(Global, tsn, CONFIGURE_REPORTING)), RecordsBytes(records))
  {
    var writer := new Writer();
    assert records[0..] == records;
    assert RecordsBytes(records).Ok? ==> [] + RecordsBytes(records).value == RecordsBytes(records).value;
    for i := 0 to |records|
      invariant RecordsBytes(records) == PrependOk(writer.buf, RecordsBytes(records[i..]))
    {
      assert records[i..][0] == records[i] && records[i..][1..] == records[i + 1..];
      ghost var before := writer.buf;
      var written := WriteRecord(records[i], writer);
      if written.Err? {
        return Err(written.error);
      }
      PrependOkTwice(before, RecordBytes(records[i]).value, RecordsBytes(records[i + 1..]));
    }
    assert writer.buf + [] == writer.buf;
    var bytes := EncodeFrame(Frame(Plain(Global, tsn, CONFIGURE_REPORTING), writer.buf));
    r := Ok(bytes);
  }

  /** One record: direction, attribute, type and intervals, then the change when analog. */
  method WriteRecord(record: ReportRecord, writer: Writer) returns (r: Result<(), CodecError>)
    modifies writer
    ensures match RecordBytes(record)
            case Ok(bytes) => r.Ok? && writer.buf == old(writer.buf) + bytes
            case Err(e) => r == Err(e)
  {
    ghost var before := writer.buf;
    writer.U8(DIRECTION_REPORTED);
    writer.UintLe(record.attribute, 2);
    writer.U8(ToU8(record.ty));
    writer.UintLe(record.minInterval, 2);
    writer.UintLe(record.maxInterval, 2);
    assert writer.buf == before + FixedBytes(record);
    r := Ok(());
    if IsAnalog(record.ty) {
      r := EncodeValue(ChangeValue(record), record.ty, writer);
    }
  }

  // ---------------------------------------------------------------------
  // The receiving side, written from the standard

  /** A record as a device reads it. */
  datatype Configured = Configured(attribute: u16, tag: byte, minInterval: u16, maxInterval: u16, change: Option<int>)

  /** Bytes of the reportable change by discriminator: signed and unsigned
      integers, floats of half, single and double precision, and the time types are
      analog (section 2.6); others have none. */
  function ChangeWidth(tag: byte): Option<nat> {
    if 0x20 <= tag <= 0x27 then Some(tag - 0x20 + 1)
    else if 0x28 <= tag <= 0x2f then Some(tag - 0x28 + 1)
    else if tag == 0x38 then Some(2)
    else if tag == 0x39 || 0xe0 <= tag <= 0xe2 then Some(4)
    else if tag == 0x3a then Some(8)
    else None
  }

  /** A change is of the attribute's own type, so signed types read it signed. */
  function ReadChange(tag: byte, field: seq<byte>): int {
    var raw, size := LeValue(field), Pow256(|field|);
    if 0x28 <= tag <= 0x2f && raw >= size / 2 then raw - size else raw
  }

  function ParseRecord(bytes: seq<byte>): (r: Option<(Configured, seq<byte>)>)
    ensures r.Some? ==> |r.value.1| < |bytes|
  {
    if |bytes| < 8 || bytes[0] != 0 then None
    else
      Pow256Values();
      LeValueBound(bytes[1..3]);
      LeValueBound(bytes[4..6]);
      LeValueBound(bytes[6..8]);
      var tag := bytes[3];
      var width := ChangeWidth(tag);
      var n := if width.Some? then width.value else 0;
      if |bytes| < 8 + n then None
      else Some((Configured(LeValue(bytes[1..3]), tag, LeValue(bytes[4..6]), LeValue(bytes[6..8]),
                            if width.Some? then Some(ReadChange(tag, bytes[8..8 + n])) else None),
                 bytes[8 + n..]))
  }

  function Parse(bytes: seq<byte>): Option<seq<Configured>>
    decreases |bytes|
  {
    if bytes == [] then Some([])
    else
      match ParseRecord(bytes)
      case None => None
      case Some((first, rest)) =>
        match Parse(rest)
        case None => None
        case Some(more) => Some([first] + more)
  }

  /** What the receiver should end up with: a change exactly for integer types. */
  function Asked(record: ReportRecord): Configured {
    Configured(record.attribute, ToU8(record.ty), record.minInterval, record.maxInterval,
               if record.ty.Uint? || record.ty.Int? then Some(record.minChange) else None)
  }

  function AskedAll(records: seq<ReportRecord>): seq<Configured> {
    seq(|records|, i requires 0 <= i < |records| => Asked(records[i]))
  }

  /** Whether the minimum change fits its field (as a positive number, when signed). */
  predicate ChangeFits(record: ReportRecord) {
    match record.ty
    case Uint(n) => record.minChange < Pow256(n)
    case Int(n) => record.minChange < Pow256(n) / 2
    case _ => true
  }

  /** Building the command succeeds exactly when no record is of a type whose
      change the value codec cannot write. */
  lemma {:induction false} SucceedsExactly(records: seq<ReportRecord>)
    ensures RecordsBytes(records).Ok? <==> forall i :: 0 <= i < |records| ==> !records[i].ty.Single? && !records[i].ty.Time?
  {
    if records != [] {
      SucceedsExactly(records[1..]);
      assert records == [records[0]] + records[1..];
    }
  }

  /** Whether the discriminator announces the change field that is written: as wide
      for integers, and none for other types. */
  predicate WidthAgrees(record: ReportRecord) {
    ChangeWidth(ToU8(record.ty)) ==
    if record.ty.Uint? || record.ty.Int? then Some(record.ty.width as nat) else None
  }

  /** Analog types that are written without a change: single precision and time, which
      the value codec refuses, and half and double precision, which it does not know. */
  predicate ChangeMissing(ty: ZclType) { ty.Single? || ty.Time? || UnknownFloat(ty) }

  predicate UnknownFloat(ty: ZclType) { ty == Unknown(0x38) || ty == Unknown(0x3a) }

  /** For types a discriminator denotes, it does exactly outside those. */
  lemma WireWidthAgrees(record: ReportRecord)
    requires WireType(record.ty)
    ensures WidthAgrees(record) <==> !ChangeMissing(record.ty)
  {
    TypeRoundTrip(record.ty);
  }

  /** Whether a receiver following the standard reads the record as it was asked. */
  predicate Readable(record: ReportRecord) { WidthAgrees(record) && ChangeFits(record) }

  /** The widths that agree are those of wire types; the others leave at least eight
      bytes of the field unread, except that an integer of no bytes leaves it short. */
  lemma FieldWidths(record: ReportRecord)
    requires record.ty.Uint? || record.ty.Int?
    ensures WidthAgrees(record) ==> 1 <= record.ty.width <= 8
    ensures var w := ChangeWidth(ToU8(record.ty));
            w.Some? && w.value != record.ty.width && record.ty != Int(0) ==> w.value + 8 <= record.ty.width && w.value <= 8
  {
  }

  lemma ParsedFields(record: ReportRecord, field: seq<byte>)
    ensures var bytes := FixedBytes(record) + field;
            var width := ChangeWidth(ToU8(record.ty));
            var n := if width.Some? then width.value else 0;
            ParseRecord(bytes) ==
            if |field| < n then None
            else Some((Configured(record.attribute, ToU8(record.ty), record.minInterval, record.maxInterval,
                                  if width.Some? then Some(ReadChange(ToU8(record.ty), field[..n])) else None),
                       field[n..]))
  {
    var all := FixedBytes(record) + field;
    Pow256Values();
    LeRoundTrip(record.attribute, 2);
    LeRoundTrip(record.minInterval, 2);
    LeRoundTrip(record.maxInterval, 2);
    assert all[1..3] == LeBytes(record.attribute, 2);
    assert all[3] == ToU8(record.ty);
    assert all[4..6] == LeBytes(record.minInterval, 2);
    assert all[6..8] == LeBytes(record.maxInterval, 2);
    var width := ChangeWidth(ToU8(record.ty));
    var n := if width.Some? then width.value else 0;
    if |field| >= n {
      assert all[8..8 + n] == field[..n] && all[8 + n..] == field[n..];
    }
  }

  /** The bytes of the change field, if the type has one. */
  function ChangeBytes(record: ReportRecord): seq<byte>
    requires RecordBytes(record).Ok?
  {
    if IsAnalog(record.ty) then EncodeBytes(ChangeValue(record), record.ty).value else []
  }

  lemma RecordIsFixedAndChange(record: ReportRecord)
    requires RecordBytes(record).Ok?
    ensures RecordBytes(record).value == FixedBytes(record) + ChangeBytes(record)
    ensures if record.ty.Uint? || record.ty.Int? then
              ChangeBytes(record) == LeBytes(RawChange(record), record.ty.width)
            else ChangeBytes(record) == [] && !record.ty.Single? && !record.ty.Time?
  {
    assert FixedBytes(record) + [] == FixedBytes(record);
  }

  /** The change as it is written, before truncation to its field. */
  function RawChange(record: ReportRecord): u64 {
    if record.ty.Int? && record.minChange >= TWO_TO_63 then TWO_TO_63 - 1 else record.minChange
  }

  /** One record, followed by anything, is read as it was asked and leaves exactly
      what followed, if and only if it is readable. */
  lemma RecordParses(record: ReportRecord, tail: seq<byte>)
    requires RecordBytes(record).Ok?
    ensures ParseRecord(RecordBytes(record).value + tail) == Some((Asked(record), tail)) <==> Readable(record)
  {
    var field := ChangeBytes(record) + tail;
    RecordIsFixedAndChange(record);
    assert RecordBytes(record).value + tail == FixedBytes(record) + field;
    ParsedFields(record, field);
    if record.ty.Uint? || record.ty.Int? {
      var n: nat := record.ty.width;
      if WidthAgrees(record) {
        assert field[..n] == ChangeBytes(record) && field[n..] == tail;
        FieldWidths(record);
        ChangeReads(record);
      } else {
        assert |field| == n + |tail|;
      }
    } else {
      assert field == tail;
    }
  }

  /** A field as wide as announced reads back as asked exactly when the change fits it. */
  lemma ChangeReads(record: ReportRecord)
    requires WireType(record.ty) && (record.ty.Uint? || record.ty.Int?)
    ensures ReadChange(ToU8(record.ty), LeBytes(RawChange(record), record.ty.width)) == record.minChange <==> ChangeFits(record)
  {
    var n: nat := record.ty.width;
    LeRoundTrip(RawChange(record), n);
    Pow256Monotone(n, 8);
    Pow256Values();
    Remains(RawChange(record), Pow256(n));
  }

  lemma Remains(raw: nat, size: nat)
    requires size > 0
    ensures raw % size < size && (raw < size ==> raw % size == raw)
  {
  }

  /** A record of half or double precision is sent without its change, so a device
      takes the change out of whatever follows, or finds the command too short. */
  lemma FloatTakesNext(first: ReportRecord, more: seq<byte>)
    requires UnknownFloat(first.ty)
    ensures RecordBytes(first).Ok?
    ensures var n := if first.ty == Unknown(0x38) then 2 else 8;
            ParseRecord(RecordBytes(first).value + more) ==
            if |more| < n then None else Some((Asked(first).(change := Some(LeValue(more[..n]))), more[n..]))
  {
    ParsedFields(first, more);
  }

  /** Behind a double, the next record is the change: one without a change of its own
      is swallowed whole, and one with a shorter change ruins the command. */
  lemma DoubleSwallowsNext(first: ReportRecord, second: ReportRecord)
    requires first.ty == Unknown(0x3a) && RecordBytes(second).Ok?
    ensures RecordsBytes([first, second]).Ok?
    ensures var parsed := Parse(RecordsBytes([first, second]).value);
            (!IsAnalog(second.ty) ==>
               parsed == Some([Asked(first).(change := Some(LeValue(FixedBytes(second))))])) &&
            (IsAnalog(second.ty) && 1 <= second.ty.width < 8 ==> parsed == None)
  {
    var fixed, change := FixedBytes(second), ChangeBytes(second);
    RecordIsFixedAndChange(second);
    TwoRecords(first, second);
    FloatTakesNext(first, fixed + change);
    CutWithin(fixed, change, 8);
    assert fixed[..8] == fixed && fixed[8..] + change == change;
    var bytes, swallowed := RecordsBytes([first, second]).value, Asked(first).(change := Some(LeValue(fixed)));
    assert ParseRecord(bytes) == Some((swallowed, change));
    if !IsAnalog(second.ty) {
      FirstParsed(bytes, swallowed, change, []);
      assert [swallowed] + [] == [swallowed];
    } else {
      assert |change| < 8 ==> ParseRecord(change) == None;
    }
  }

  lemma TwoRecords(first: ReportRecord, second: ReportRecord)
    requires RecordBytes(first).Ok? && RecordBytes(second).Ok?
    ensures RecordsBytes([first, second]) == Ok(RecordBytes(first).value + RecordBytes(second).value)
  {
    assert [first, second][1..] == [second] && [second][1..] == [];
    assert RecordsBytes([second]) == PrependOk(RecordBytes(second).value, Ok([]));
    assert RecordBytes(second).value + [] == RecordBytes(second).value;
  }

  lemma SuffixWritten(records: seq<ReportRecord>, i: nat)
    requires RecordsBytes(records).Ok? && i <= |records|
    ensures RecordsBytes(records[i..]).Ok?
  {
    SucceedsExactly(records);
    SucceedsExactly(records[i..]);
  }

  /** Whether record `i` is read from its own bytes, leaving exactly those after it. */
  predicate ReadsOwnBytes(records: seq<ReportRecord>, i: nat)
    requires RecordsBytes(records).Ok? && i < |records|
  {
    SuffixWritten(records, i);
    SuffixWritten(records, i + 1);
    ParseRecord(RecordsBytes(records[i..]).value) == Some((Asked(records[i]), RecordsBytes(records[i + 1..]).value))
  }

  lemma ReadsOwnBytesExactly(records: seq<ReportRecord>, i: nat)
    requires RecordsBytes(records).Ok? && i < |records|
    ensures ReadsOwnBytes(records, i) <==> Readable(records[i])
  {
    SuffixWritten(records, i);
    SuffixWritten(records, i + 1);
    assert records[i..][0] == records[i] && records[i..][1..] == records[i + 1..];
    RecordParses(records[i], RecordsBytes(records[i + 1..]).value);
  }

  /** Every record is read from its own bytes if and only if every record is readable. */
  lemma ReadInStep(records: seq<ReportRecord>)
    requires RecordsBytes(records).Ok?
    ensures (forall i :: 0 <= i < |records| ==> ReadsOwnBytes(records, i))
            <==> forall i :: 0 <= i < |records| ==> Readable(records[i])
  {
    forall i | 0 <= i < |records|
      ensures ReadsOwnBytes(records, i) <==> Readable(records[i])
    {
      ReadsOwnBytesExactly(records, i);
    }
  }

  /** A receiver following the standard recovers all records in order, with a change
      exactly for the integer types, when every record is readable; and only then,
      leaving aside a signed integer of no bytes, whose missing field is read out of
      the record after it. */
  lemma {:induction false} ReportingRoundTrip(records: seq<ReportRecord>)
    requires RecordsBytes(records).Ok?
    ensures (forall i :: 0 <= i < |records| ==> Readable(records[i])) ==>
              Parse(RecordsBytes(records).value) == Some(AskedAll(records))
    ensures Parse(RecordsBytes(records).value) == Some(AskedAll(records)) &&
            (forall i :: 0 <= i < |records| ==> records[i].ty != Int(0)) ==>
              forall i :: 0 <= i < |records| ==> Readable(records[i])
  {
    if records == [] {
      assert AskedAll(records) == [];
    } else {
      var first, rest := records[0], records[1..];
      assert records == [first] + rest;
      var bytes, more := RecordBytes(first).value, RecordsBytes(rest).value;
      AskedCons(records);
      RecordParses(first, more);
      if Readable(first) {
        ReportingRoundTrip(rest);
        FirstParsed(bytes + more, Asked(first), more, AskedAll(rest));
        AllReadableCons(records);
      } else if first.ty != Int(0) {
        UnreadableFirst(first, rest);
      }
    }
  }

  /** A command of one record is read as it was asked if and only if the record is readable. */
  lemma OneRecord(record: ReportRecord)
    requires RecordBytes(record).Ok?
    ensures RecordsBytes([record]) == Ok(RecordBytes(record).value + [])
    ensures Parse(RecordBytes(record).value + []) == Some([Asked(record)]) <==> Readable(record)
  {
    var bytes := RecordBytes(record).value + [];
    assert [record][1..] == [];
    assert AskedAll([record]) == [Asked(record)];
    if record.ty == Int(0) {
      RecordIsFixedAndChange(record);
      ParsedFields(record, []);
      assert ParseRecord(bytes) == None;
    } else {
      assert forall i :: 0 <= i < |[record]| ==> [record][i] == record;
      ReportingRoundTrip([record]);
      assert [record][0] == record;
    }
  }

  lemma AskedCons(records: seq<ReportRecord>)
    requires records != []
    ensures AskedAll(records) == [Asked(records[0])] + AskedAll(records[1..])
  {
  }

  lemma AllReadableCons(records: seq<ReportRecord>)
    requires records != []
    ensures (forall i :: 0 <= i < |records| ==> Readable(records[i])) <==>
            Readable(records[0]) && forall i :: 0 <= i < |records| - 1 ==> Readable(records[1..][i])
    ensures (forall i :: 0 <= i < |records| ==> records[i].ty != Int(0)) ==>
              forall i :: 0 <= i < |records| - 1 ==> records[1..][i].ty != Int(0)
  {
    assert records == [records[0]] + records[1..];
  }

  lemma FirstParsed(bytes: seq<byte>, p: Configured, more: seq<byte>, list: seq<Configured>)
    requires bytes != [] && ParseRecord(bytes) == Some((p, more))
    ensures Parse(bytes) == Some([p] + list) <==> Parse(more) == Some(list)
  {
    if Parse(more).Some? {
      SameCons(p, Parse(more).value, p, list);
    }
  }

  lemma OtherParsed(bytes: seq<byte>, p: Configured, list: seq<Configured>)
    requires bytes != [] && (ParseRecord(bytes).Some? ==> ParseRecord(bytes).value.0 != p)
    ensures Parse(bytes) != Some([p] + list)
  {
    if ParseRecord(bytes).Some? && Parse(ParseRecord(bytes).value.1).Some? {
      SameCons(ParseRecord(bytes).value.0, Parse(ParseRecord(bytes).value.1).value, p, list);
    }
  }

  function Zeros(n: nat): seq<byte> { seq(n, _ => 0) }

  /** If the first record is not readable, its change differs, or the field is longer
      than announced and the receiver falls behind by zero bytes. */
  lemma UnreadableFirst(first: ReportRecord, rest: seq<ReportRecord>)
    requires RecordBytes(first).Ok? && RecordsBytes(rest).Ok? && !Readable(first) && first.ty != Int(0)
    ensures Parse(RecordBytes(first).value + RecordsBytes(rest).value) != Some([Asked(first)] + AskedAll(rest))
  {
    var more := RecordsBytes(rest).value;
    var all := RecordBytes(first).value + more;
    if ParseRecord(all).Some? && ParseRecord(all).value.0 == Asked(first) {
      var behind := FallsBehind(first, more);
      FirstParsed(all, Asked(first), Zeros(behind) + more, AskedAll(rest));
      BehindByZeros(rest, behind);
    } else {
      OtherParsed(all, Asked(first), AskedAll(rest));
    }
  }

  lemma FallsBehind(first: ReportRecord, more: seq<byte>) returns (behind: nat)
    requires RecordBytes(first).Ok? && !Readable(first) && first.ty != Int(0)
    requires ParseRecord(RecordBytes(first).value + more).Some?
    requires ParseRecord(RecordBytes(first).value + more).value.0 == Asked(first)
    ensures behind >= 8
    ensures ParseRecord(RecordBytes(first).value + more) == Some((Asked(first), Zeros(behind) + more))
  {
    var change := ChangeBytes(first);
    RecordThen(first, more);
    ParsedFields(first, change + more);
    TooWide(first, more);
    RecordIsFixedAndChange(first);
    var n: nat, w := first.ty.width, ChangeWidth(ToU8(first.ty)).value;
    behind := n - w;
    CutWithin(change, more, w);
    FieldLeftOver(first, n, w);
  }

  lemma RecordThen(record: ReportRecord, more: seq<byte>)
    requires RecordBytes(record).Ok?
    ensures RecordBytes(record).value + more == FixedBytes(record) + (ChangeBytes(record) + more)
  {
    RecordIsFixedAndChange(record);
    Associates(FixedBytes(record), ChangeBytes(record), more);
  }

  lemma CutWithin(change: seq<byte>, more: seq<byte>, w: nat)
    requires w <= |change|
    ensures (change + more)[..w] == change[..w] && (change + more)[w..] == change[w..] + more
  {
  }

  /** An unreadable record whose change still reads as asked has a field that is
      longer than announced. */
  lemma TooWide(first: ReportRecord, more: seq<byte>)
    requires RecordBytes(first).Ok? && !Readable(first) && first.ty != Int(0)
    requires ParseRecord(FixedBytes(first) + (ChangeBytes(first) + more)).Some?
    requires ParseRecord(FixedBytes(first) + (ChangeBytes(first) + more)).value.0 == Asked(first)
    ensures (first.ty.Uint? || first.ty.Int?) && ChangeWidth(ToU8(first.ty)).Some?
    ensures ChangeWidth(ToU8(first.ty)).value + 8 <= first.ty.width && ChangeWidth(ToU8(first.ty)).value <= 8
  {
    RecordIsFixedAndChange(first);
    ParsedFields(first, ChangeBytes(first) + more);
    FieldWidths(first);
    if WidthAgrees(first) {
      CutWithin(ChangeBytes(first), more, first.ty.width);
      assert ChangeBytes(first)[..first.ty.width] == ChangeBytes(first);
      ChangeReads(first);
    }
  }

  /** If the bytes that are read give the asked change, the ones that are not are zero. */
  lemma FieldLeftOver(record: ReportRecord, n: nat, w: nat)
    requires w <= n && w <= 8
    requires ReadChange(ToU8(record.ty), LeBytes(RawChange(record), n)[..w]) == record.minChange
    ensures LeBytes(RawChange(record), n)[w..] == Zeros(n - w)
  {
    var raw := RawChange(record);
    LePrefix(raw, n, w);
    LeRoundTrip(raw, w);
    Remains(raw, Pow256(w));
    ModAtMost(raw, Pow256(w));
    HighBytes(raw, n, w);
  }

  lemma ModAtMost(raw: nat, size: nat)
    requires size > 0
    ensures raw % size <= raw && (raw % size == raw ==> raw < size)
  {
  }

  lemma {:induction false} HighBytes(v: nat, n: nat, k: nat)
    requires k <= n && v < Pow256(k)
    ensures LeBytes(v, n)[k..] == Zeros(n - k)
  {
    if k == 0 {
      ZeroBytes(n);
    } else {
      HighBytes(v / 256, n - 1, k - 1);
      assert LeBytes(v, n)[k..] == LeBytes(v / 256, n - 1)[k - 1..];
    }
  }

  lemma {:induction false} ZeroBytes(n: nat)
    ensures LeBytes(0, n) == Zeros(n)
  {
    if n > 0 {
      ZeroBytes(n - 1);
    }
  }

  /** A receiver that is behind by zero bytes reads an empty record out of them, which
      can only be asked for by eight zero bytes; so it stays behind to the end. */
  lemma {:induction false} BehindByZeros(rest: seq<ReportRecord>, behind: nat)
    requires RecordsBytes(rest).Ok? && behind >= 8
    ensures Parse(Zeros(behind) + RecordsBytes(rest).value) != Some(AskedAll(rest))
    decreases |rest|
  {
    var all := Zeros(behind) + RecordsBytes(rest).value;
    EmptyRecord(behind, RecordsBytes(rest).value);
    var nothing := Configured(0, 0, 0, 0, None);
    var left := Zeros(behind - 8) + RecordsBytes(rest).value;
    if rest == [] {
      assert AskedAll(rest) == [];
    } else {
      AskedCons(rest);
      if Asked(rest[0]) == nothing {
        ZeroRecord(rest[0]);
        var more := RecordsBytes(rest[1..]).value;
        assert left == Zeros(behind - 8) + (Zeros(8) + more) == Zeros(behind) + more;
        FirstParsed(all, nothing, left, AskedAll(rest[1..]));
        BehindByZeros(rest[1..], behind);
      } else {
        OtherParsed(all, Asked(rest[0]), AskedAll(rest[1..]));
      }
    }
  }

  lemma EmptyRecord(behind: nat, more: seq<byte>)
    requires behind >= 8
    ensures ParseRecord(Zeros(behind) + more) == Some((Configured(0, 0, 0, 0, None), Zeros(behind - 8) + more))
  {
    var record := ReportRecord(0, NoData, 0, 0, 0);
    ZeroRecord(record);
    ParsedFields(record, Zeros(behind - 8) + more);
    assert Zeros(behind) + more == Zeros(8) + (Zeros(behind - 8) + more);
  }

  lemma ZeroRecord(record: ReportRecord)
    requires RecordBytes(record).Ok? && Asked(record) == Configured(0, 0, 0, 0, None)
    ensures RecordBytes(record).value == FixedBytes(record) == Zeros(8)
  {
    RecordIsFixedAndChange(record);
    ZeroBytes(2);
  }
}
