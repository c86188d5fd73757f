/** The Tuya thermostat schedule: one raw datapoint that holds a day number and
    transitions of hour, minute and temperature, shown as text. */
module Schedule {
  import opened Wrappers
  import opened Words
  import opened Text

  const BYTES_PER_TRANSITION := 4
  const MIN_TENTHS := 50
  const MAX_TENTHS := 350

  // ---------------------------------------------------------------------
  // Decimal numbers, as the standard library of the source language reads them

  /** Moves the decimal point to the right. */
  function Raised(x: real, places: nat): real {
    if places == 0 then x else 10.0 * Raised(x, places - 1)
  }

  /** Moves the decimal point to the left. */
  function Lowered(x: real, places: nat): real {
    if places == 0 then x else Lowered(x, places - 1) / 10.0
  }

  /** Digits with at most one point, at least one digit in all. */
  function ParseMantissa(s: string): Option<real> {
    match SplitOnce(s, '.')
    case None => if s != [] && AllDigits(s) then Some(Number(s) as real) else None
    case Some((whole, fraction)) =>
      if whole + fraction != [] && AllDigits(whole) && AllDigits(fraction) then
        Some(Number(whole) as real + Lowered(Number(fraction) as real, |fraction|))
      else None
  }

  function Unsigned(s: string): string {
    if s != [] && (s[0] == '+' || s[0] == '-') then s[1..] else s
  }

  /** A decimal number with optional sign and exponent. Infinities and NaN are
      left out: rounded to tenths they are out of range, so a schedule that
      contains one is refused either way. */
  function ParseReal(s: string): Option<real> {
    var body := Unsigned(s);
    var lower := SplitOnce(body, 'e');
    var split := if lower.Some? then lower else SplitOnce(body, 'E');
    var mantissa := ParseMantissa(if split.Some? then split.value.0 else body);
    if mantissa.None? then None
    else
      var signed := if s[..|s| - |body|] == "-" then -mantissa.value else mantissa.value;
      if split.None? then Some(signed)
      else
        var digits := Unsigned(split.value.1);
        if digits == [] || !AllDigits(digits) then None
        else if |digits| < |split.value.1| && split.value.1[0] == '-' then Some(Lowered(signed, Number(digits)))
        else Some(Raised(signed, Number(digits)))
  }

  /** Rounds half away from zero and clamps to sixteen bits. */
  function RoundToU16(x: real): u16 {
    var n := if x >= 0.0 then (x + 0.5).Floor else -((-x + 0.5).Floor);
    if n < 0 then 0 else if n > 0xffff then 0xffff else n
  }

  // ---------------------------------------------------------------------
  // Bytes to text

  /** One transition as it lies in the payload. */
  datatype Quad = Quad(hour: byte, minute: byte, high: byte, low: byte)

  function Quads(body: seq<byte>): seq<Quad>
    requires |body| % BYTES_PER_TRANSITION == 0
  {
    seq(|body| / 4, i requires 0 <= i < |body| / 4 =>
      Quad(body[4 * i], body[4 * i + 1], body[4 * i + 2], body[4 * i + 3]))
  }

  function Flat(quads: seq<Quad>): (body: seq<byte>)
    ensures |body| == 4 * |quads|
  {
    if quads == [] then []
    else [quads[0].hour, quads[0].minute, quads[0].high, quads[0].low] + Flat(quads[1..])
  }

  function Tenths(q: Quad): u16 {
    var high: nat, low: nat := q.high, q.low;
    256 * high + low
  }

  function TransitionText(q: Quad): string {
    Padded(q.hour, 2) + ":" + Padded(q.minute, 2) + "/" + Digits(Tenths(q) / 10) + "." + Digits(Tenths(q) % 10)
  }

  predicate Possible(q: Quad) { q.hour <= 24 && q.minute <= 59 }

  /** The text of each transition, or `None` for one with an impossible time. */
  function Texts(quads: seq<Quad>): seq<Option<string>> {
    seq(|quads|, i requires 0 <= i < |quads| => if Possible(quads[i]) then Some(TransitionText(quads[i])) else None)
  }

  function Transitions(quads: seq<Quad>): Option<seq<string>> { Collect(Texts(quads)) }

  function DecodeText(bytes: seq<byte>): Option<string> {
    if |bytes| <= 1 || (|bytes| - 1) % BYTES_PER_TRANSITION != 0 then None
    else
      match Transitions(Quads(bytes[1..]))
      case None => None
      case Some(parts) => Some(Joined(parts))
  }

  method DecodeSchedule(bytes: seq<byte>) returns (text: Option<string>)
    ensures text == DecodeText(bytes)
  {
    if |bytes| <= 1 || (|bytes| - 1) % BYTES_PER_TRANSITION != 0 {
      return None;
    }
    var quads := Quads(bytes[1..]);
    var parts: seq<string> := [];
    ghost var texts := Texts(quads);
    assert texts[0..] == texts;
    PrependTwice(parts, parts, Collect(texts));
    for i := 0 to |quads|
      invariant Collect(texts) == Prepend(parts, Collect(texts[i..]))
    {
      CollectNext(texts, i, parts);
      if quads[i].hour > 24 || quads[i].minute > 59 {
        return None;
      }
      parts := parts + [TransitionText(quads[i])];
    }
    assert parts + [] == parts;
    text := Some(Joined(parts));
  }

  // ---------------------------------------------------------------------
  // Text to bytes

  /** One transition read from text; anything unreadable or out of range is refused. */
  function WordQuad(word: string): Option<Quad> {
    match SplitOnce(word, '/')
    case None => None
    case Some((time, temperature)) =>
      match SplitOnce(time, ':')
      case None => None
      case Some((h, m)) =>
        PackQuad(ParseUnsigned(h, 0x100), ParseUnsigned(m, 0x100), ParseReal(temperature))
  }

  /** Anything missing or out of range is refused. */
  function PackQuad(hour: Option<byte>, minute: Option<byte>, degrees: Option<real>): Option<Quad> {
    if hour.None? || minute.None? || degrees.None? then None
    else
      var tenths := RoundToU16(degrees.value * 10.0);
      if hour.value > 24 || minute.value > 59 || !(MIN_TENTHS <= tenths <= MAX_TENTHS) then None
      else Some(Quad(hour.value, minute.value, tenths / 256, tenths % 256))
  }

  function Parsed(words: seq<string>): seq<Option<Quad>> {
    seq(|words|, i requires 0 <= i < |words| => WordQuad(words[i]))
  }

  function WordQuads(words: seq<string>): Option<seq<Quad>> { Collect(Parsed(words)) }

  function EncodeText(day: byte, text: string): Option<seq<byte>> {
    match WordQuads(WordsOf(text))
    case None => None
    case Some(quads) => if WordsOf(text) == [] then None else Some([day] + Flat(quads))
  }

  method EncodeSchedule(day: byte, text: string) returns (r: Option<seq<byte>>)
    ensures r == EncodeText(day, text)
  {
    var out: seq<byte> := [day];
    var words := WordsOf(text);
    var transitions := 0;
    ghost var quads: seq<Quad> := [];
    ghost var parsed := Parsed(words);
    assert parsed[0..] == parsed;
    PrependTwice(quads, quads, Collect(parsed));
    for i := 0 to |words|
      invariant transitions == i && out == [day] + Flat(quads)
      invariant Collect(parsed) == Prepend(quads, Collect(parsed[i..]))
    {
      CollectNext(parsed, i, quads);
      var quad := WordQuad(words[i]);
      if quad.None? {
        return None;
      }
      PackedSnoc(day, quads, quad.value);
      out := out + [quad.value.hour, quad.value.minute];
      out := out + [quad.value.high, quad.value.low];
      quads := quads + [quad.value];
      transitions := transitions + 1;
    }
    assert quads + [] == quads;
    r := if transitions > 0 then Some(out) else None;
  }

  lemma {:induction false} FlatSnoc(quads: seq<Quad>, q: Quad)
    ensures Flat(quads + [q]) == Flat(quads) + [q.hour, q.minute] + [q.high, q.low]
  {
    if quads == [] {
      assert [] + [q] == [q];
    } else {
      assert (quads + [q])[1..] == quads[1..] + [q];
      FlatSnoc(quads[1..], q);
    }
  }

  lemma PackedSnoc(day: byte, quads: seq<Quad>, q: Quad)
    ensures [day] + Flat(quads + [q]) == [day] + Flat(quads) + [q.hour, q.minute] + [q.high, q.low]
  {
    FlatSnoc(quads, q);
  }

  /** The day a capability name ends with. */
  function ScheduleDay(capability: string): Option<byte> {
    var split := RSplitOnce(capability, '_');
    var day := if split.Some? then split.value.1 else capability;
    if day == "monday" then Some(1)
    else if day == "tuesday" then Some(2)
    else if day == "wednesday" then Some(3)
    else if day == "thursday" then Some(4)
    else if day == "friday" then Some(5)
    else if day == "saturday" then Some(6)
    else if day == "sunday" then Some(7)
    else None
  }

  // ---------------------------------------------------------------------
  // Laws

  lemma {:induction false} FlatAt(quads: seq<Quad>, i: nat, at: nat)
    requires i < |quads| && at == 4 * i
    ensures Flat(quads)[at] == quads[i].hour && Flat(quads)[at + 1] == quads[i].minute
    ensures Flat(quads)[at + 2] == quads[i].high && Flat(quads)[at + 3] == quads[i].low
  {
    if i > 0 {
      FlatAt(quads[1..], i - 1, at - 4);
    }
  }

  /** Cutting into fours and flattening undo each other. */
  lemma QuadsOfFlat(quads: seq<Quad>)
    ensures Quads(Flat(quads)) == quads
  {
    forall i | 0 <= i < |quads|
      ensures Quads(Flat(quads))[i] == quads[i]
    {
      FlatAt(quads, i, 4 * i);
    }
  }

  lemma {:induction false} FlatOfQuads(body: seq<byte>)
    requires |body| % BYTES_PER_TRANSITION == 0
    ensures Flat(Quads(body)) == body
    decreases |body|
  {
    if body != [] {
      FlatOfQuads(body[4..]);
      assert Quads(body)[1..] == Quads(body[4..]);
      assert body == body[..4] + body[4..];
    } else {
      assert Quads(body) == [];
    }
  }

  lemma PlainParses(s: string, x: real)
    requires s != [] && s[0] != '+' && s[0] != '-' && 'e' !in s && 'E' !in s && ParseMantissa(s) == Some(x)
    ensures ParseReal(s) == Some(x)
  {
    NothingToSplit(s, 'e');
    NothingToSplit(s, 'E');
    assert s[..|s| - |s|] == [];
  }

  lemma MantissaParses(s: string, whole: string, fraction: string)
    requires SplitOnce(s, '.') == Some((whole, fraction))
    requires whole != [] && AllDigits(whole) && AllDigits(fraction) && |fraction| == 1
    ensures ParseMantissa(s) == Some(Number(whole) as real + Number(fraction) as real / 10.0)
  {
    var f := Number(fraction) as real;
    assert Lowered(f, 1) == Lowered(f, 0) / 10.0;
  }

  lemma TenthsOfDecimal(tenths: nat)
    requires tenths <= 0xffff
    ensures RoundToU16(((tenths / 10) as real + (tenths % 10) as real / 10.0) * 10.0) == tenths
  {
    var x := (tenths / 10) as real + (tenths % 10) as real / 10.0;
    assert x * 10.0 == (10 * (tenths / 10) + tenths % 10) as real;
    assert x * 10.0 == tenths as real;
  }

  lemma OneDecimalParses(tenths: nat) returns (x: real)
    requires tenths <= 0xffff
    ensures ParseReal(Digits(tenths / 10) + "." + Digits(tenths % 10)) == Some(x)
    ensures RoundToU16(x * 10.0) == tenths
  {
    var whole, fraction := Digits(tenths / 10), Digits(tenths % 10);
    x := (tenths / 10) as real + (tenths % 10) as real / 10.0;
    var s := whole + "." + fraction;
    assert s[0] == whole[0];
    assert '.' !in whole && s == whole + ['.'] + fraction;
    SplitsAtFirst(whole, '.', fraction);
    MantissaParses(s, whole, fraction);
    PlainParses(s, x);
    TenthsOfDecimal(tenths);
  }

  lemma WordOfDigits(h: string, m: string, whole: string, fraction: string)
    requires h != [] && AllDigits(h) && AllDigits(m) && AllDigits(whole) && AllDigits(fraction)
    ensures IsWord(h + ":" + m + "/" + whole + "." + fraction)
  {
  }

  lemma WordSplits(h: string, m: string, t: string)
    requires AllDigits(h) && AllDigits(m)
    ensures SplitOnce(h + ":" + m + "/" + t, '/') == Some((h + ":" + m, t))
    ensures SplitOnce(h + ":" + m, ':') == Some((h, m))
  {
    var time := h + ":" + m;
    assert '/' !in time && ':' !in h;
    assert time + "/" + t == time + ['/'] + t;
    SplitsAtFirst(time, '/', t);
    assert time == h + [':'] + m;
    SplitsAtFirst(h, ':', m);
  }

  lemma WordParses(word: string, time: string, h: string, m: string, t: string, x: real, q: Quad)
    requires SplitOnce(word, '/') == Some((time, t)) && SplitOnce(time, ':') == Some((h, m))
    requires ParseUnsigned(h, 0x100) == Some(q.hour) && ParseUnsigned(m, 0x100) == Some(q.minute)
    requires ParseReal(t) == Some(x) && RoundToU16(x * 10.0) == Tenths(q)
    requires q.hour <= 24 && q.minute <= 59
    ensures WordQuad(word) == Kept(q)
  {
    QuadPacks(q, x);
  }

  lemma QuadPacks(q: Quad, x: real)
    requires Possible(q) && RoundToU16(x * 10.0) == Tenths(q)
    ensures PackQuad(Some(q.hour), Some(q.minute), Some(x)) == Kept(q)
  {
    HighAndLow(q);
  }

  lemma HighAndLow(q: Quad)
    ensures Tenths(q) / 256 == q.high && Tenths(q) % 256 == q.low
  {
  }

  /** A printed transition parses back to itself, exactly when its temperature is
      in range. */
  lemma TransitionParses(q: Quad)
    requires q.hour <= 24 && q.minute <= 59
    ensures IsWord(TransitionText(q))
    ensures WordQuad(TransitionText(q)) == Kept(q)
  {
    var h, m := Padded(q.hour, 2), Padded(q.minute, 2);
    var whole, fraction := Digits(Tenths(q) / 10), Digits(Tenths(q) % 10);
    WordOfDigits(h, m, whole, fraction);
    assert TransitionText(q) == h + ":" + m + "/" + (whole + "." + fraction);
    var x := OneDecimalParses(Tenths(q));
    WordSplits(h, m, whole + "." + fraction);
    DigitsParse(h, 0x100);
    DigitsParse(m, 0x100);
    WordParses(TransitionText(q), h + ":" + m, h, m, whole + "." + fraction, x, q);
  }

  /** Whether every temperature of a payload is one the packer accepts. */
  predicate InRange(quads: seq<Quad>) {
    forall i :: 0 <= i < |quads| ==> MIN_TENTHS <= Tenths(quads[i]) <= MAX_TENTHS
  }

  lemma TransitionsParse(quads: seq<Quad>)
    requires Transitions(quads).Some?
    ensures var parts := Transitions(quads).value;
            |parts| == |quads| && (forall i :: 0 <= i < |parts| ==> IsWord(parts[i])) &&
            WordQuads(parts) == if InRange(quads) then Some(quads) else None
  {
    var parts := Transitions(quads).value;
    var texts := Texts(quads);
    CollectIsAllOrNothing(texts);
    var parsed := Parsed(parts);
    forall i | 0 <= i < |quads|
      ensures IsWord(parts[i]) && parsed[i] == Kept(quads[i])
    {
      assert texts[i] == Some(parts[i]);
      TransitionParses(quads[i]);
    }
    KeepsAll(parsed, quads);
  }

  /** A transition if the packer accepts its temperature. */
  function Kept(q: Quad): Option<Quad> {
    if MIN_TENTHS <= Tenths(q) <= MAX_TENTHS then Some(q) else None
  }

  lemma KeepsAll(parsed: seq<Option<Quad>>, quads: seq<Quad>)
    requires |parsed| == |quads| && forall i :: 0 <= i < |quads| ==> parsed[i] == Kept(quads[i])
    ensures Collect(parsed) == if InRange(quads) then Some(quads) else None
  {
    CollectIsAllOrNothing(parsed);
    if InRange(quads) {
      assert Collect(parsed).value == quads;
    }
  }

  lemma PrintedEncodes(day: byte, quads: seq<Quad>)
    requires quads != [] && Transitions(quads).Some?
    ensures EncodeText(day, Joined(Transitions(quads).value)) ==
            if InRange(quads) then Some([day] + Flat(quads)) else None
  {
    TransitionsParse(quads);
    WordsOfJoined(Transitions(quads).value);
  }

  /** Packing what was unpacked gives the payload back if and only if every
      temperature is in the range the packer enforces. */
  lemma BytesRoundTrip(bytes: seq<byte>)
    requires DecodeText(bytes).Some?
    ensures EncodeText(bytes[0], DecodeText(bytes).value) ==
            if InRange(Quads(bytes[1..])) then Some(bytes) else None
  {
    var quads := Quads(bytes[1..]);
    assert quads != [] && Transitions(quads).Some? && DecodeText(bytes).value == Joined(Transitions(quads).value);
    PrintedEncodes(bytes[0], quads);
    assert [bytes[0]] + Flat(quads) == bytes by {
      FlatOfQuads(bytes[1..]);
    }
  }

  lemma WordsDecide(words: seq<string>)
    ensures WordQuads(words).Some? <==> forall i :: 0 <= i < |words| ==> Parsed(words)[i].Some?
  {
    CollectIsAllOrNothing(Parsed(words));
  }

  /** A text is accepted exactly when it has a transition and every one of its
      words is a valid one: a single out-of-range part refuses the whole. */
  lemma EncodesExactly(day: byte, text: string)
    ensures var words := WordsOf(text);
            EncodeText(day, text).Some? <==> words != [] && forall i :: 0 <= i < |words| ==> Parsed(words)[i].Some?
  {
    WordsDecide(WordsOf(text));
  }

  lemma WordQuadInRange(word: string)
    requires WordQuad(word).Some?
    ensures var q := WordQuad(word).value;
            q.hour <= 24 && q.minute <= 59 && MIN_TENTHS <= Tenths(q) <= MAX_TENTHS
  {
    var tenths := RoundToU16(ParseReal(SplitOnce(word, '/').value.1).value * 10.0);
    assert 256 * (tenths / 256) + tenths % 256 == tenths;
  }

  lemma AcceptedInRange(words: seq<string>)
    requires WordQuads(words).Some?
    ensures var quads := WordQuads(words).value;
            |quads| == |words| && InRange(quads) && forall i :: 0 <= i < |quads| ==> Possible(quads[i])
  {
    var quads := WordQuads(words).value;
    CollectIsAllOrNothing(Parsed(words));
    forall i | 0 <= i < |quads|
      ensures Possible(quads[i]) && MIN_TENTHS <= Tenths(quads[i]) <= MAX_TENTHS
    {
      assert Parsed(words)[i] == Some(quads[i]);
      WordQuadInRange(words[i]);
    }
  }

  lemma PossibleTimesDecode(quads: seq<Quad>)
    requires forall i :: 0 <= i < |quads| ==> Possible(quads[i])
    ensures Transitions(quads).Some?
  {
    CollectIsAllOrNothing(Texts(quads));
  }

  /** Every accepted text has a canonical form: unpacking its bytes gives a text
      that packs to the very same bytes. */
  lemma TextRoundTrip(day: byte, text: string)
    requires EncodeText(day, text).Some?
    ensures var bytes := EncodeText(day, text).value;
            DecodeText(bytes).Some? && EncodeText(day, DecodeText(bytes).value) == Some(bytes)
  {
    var quads := WordQuads(WordsOf(text)).value;
    AcceptedInRange(WordsOf(text));
    PossibleTimesDecode(quads);
    PackedDecodes(day, quads);
    BytesRoundTrip([day] + Flat(quads));
  }

  lemma PackedDecodes(day: byte, quads: seq<Quad>)
    requires quads != [] && Transitions(quads).Some?
    ensures DecodeText([day] + Flat(quads)).Some? && Quads(([day] + Flat(quads))[1..]) == quads
  {
    QuadsOfFlat(quads);
    assert ([day] + Flat(quads))[1..] == Flat(quads);
  }
}
