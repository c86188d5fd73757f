/** The text form of 64-bit addresses. */
module IeeeText {
  import opened Wrappers
  import opened Words

  function HexChar(d: nat): (c: char)
    requires d < 16
    ensures Lower(c) == c
  {
    if d < 10 then ('0' as int + d) as char else ('a' as int + d - 10) as char
  }

  function HexValue(c: char): (d: Option<nat>)
    ensures d.Some? ==> d.value < 16 && HexChar(d.value) == Lower(c)
  {
    if '0' <= c <= '9' then Some(c as int - '0' as int)
    else if 'a' <= c <= 'f' then Some(c as int - 'a' as int + 10)
    else if 'A' <= c <= 'F' then Some(c as int - 'A' as int + 10)
    else None
  }

  function Lower(c: char): char {
    if 'A' <= c <= 'Z' then (c as int + 32) as char else c
  }

  function LowerAll(s: string): (t: string)
    ensures |t| == |s| && forall i :: 0 <= i < |s| ==> t[i] == Lower(s[i])
  {
    seq(|s|, i requires 0 <= i < |s| => Lower(s[i]))
  }

  lemma HexCharReads(d: nat)
    requires d < 16
    ensures HexValue(HexChar(d)) == Some(d)
  {
  }

  /** The low `width` hex digits of a number. */
  function Hex(n: nat, width: nat): (s: string)
    ensures |s| == width
  {
    if width == 0 then [] else Hex(n / 16, width - 1) + [HexChar(n % 16)]
  }

  function Pow16(n: nat): (p: nat)
    ensures p > 0
  {
    if n == 0 then 1 else 16 * Pow16(n - 1)
  }

  function HexNumber(s: string): (n: Option<nat>)
    ensures n.Some? ==> n.value < Pow16(|s|)
  {
    if s == [] then Some(0)
    else
      var high, low := HexNumber(s[..|s| - 1]), HexValue(s[|s| - 1]);
      if high.None? || low.None? then None else Some(16 * high.value + low.value)
  }

  lemma Pow16Of16()
    ensures Pow16(16) == TWO_TO_64
  {
    assert Pow16(4) == 0x1_0000;
    assert Pow16(8) == 0x1_0000 * Pow16(4);
    assert Pow16(12) == 0x1_0000 * Pow16(8);
  }

  function Display(ieee: u64): string { "0x" + Hex(ieee, 16) }

  function Body(s: string): string {
    if |s| >= 2 && s[0] == '0' && (s[1] == 'x' || s[1] == 'X') then s[2..] else s
  }

  /** Sixteen characters of hex, with or without the prefix. The number parser
      underneath takes a leading plus sign in place of the first digit. */
  function Parse(s: string): Option<u64> {
    var body := Body(s);
    if |body| != 16 then None
    else
      Pow16Of16();
      var digits := if body[0] == '+' then body[1..] else body;
      assert Pow16(15) <= Pow16(16);
      HexNumber(digits)
  }

  lemma {:induction false} HexRoundTrip(n: nat, width: nat)
    requires n < Pow16(width)
    ensures HexNumber(Hex(n, width)) == Some(n)
  {
    if width > 0 {
      HexRoundTrip(n / 16, width - 1);
      HexCharReads(n % 16);
      assert Hex(n, width)[..width - 1] == Hex(n / 16, width - 1);
    }
  }

  lemma LastDigit(high: nat, low: nat)
    requires low < 16
    ensures (16 * high + low) / 16 == high && (16 * high + low) % 16 == low
  {
  }

  lemma {:induction false} HexOfNumber(s: string)
    requires HexNumber(s).Some?
    ensures Hex(HexNumber(s).value, |s|) == LowerAll(s)
  {
    if s != [] {
      var high, low := s[..|s| - 1], s[|s| - 1];
      HexOfNumber(high);
      LastDigit(HexNumber(high).value, HexValue(low).value);
      assert LowerAll(s) == LowerAll(high) + [Lower(low)];
    }
  }

  /** Every address parses back from its text. */
  lemma DisplayParses(ieee: u64)
    ensures Parse(Display(ieee)) == Some(ieee)
    ensures |Display(ieee)| == 18 && '-' !in Display(ieee)
  {
    Pow16Of16();
    HexRoundTrip(ieee, 16);
    assert Body(Display(ieee)) == Hex(ieee, 16);
    HexHasNo(ieee, 16, '-');
    HexHasNo(ieee, 16, '+');
    assert Hex(ieee, 16)[0] in Hex(ieee, 16);
  }

  lemma {:induction false} HexHasNo(n: nat, width: nat, c: char)
    requires c == '-' || c == '+'
    ensures c !in Hex(n, width)
  {
    if width > 0 {
      HexHasNo(n / 16, width - 1, c);
    }
  }

  /** What parses is shown as the lower-case form of what was given, exactly when
      it did not start with a plus sign. */
  lemma ParsedDisplays(s: string)
    requires Parse(s).Some?
    ensures Display(Parse(s).value) == "0x" + LowerAll(Body(s)) <==> Body(s)[0] != '+'
  {
    var body := Body(s);
    if body[0] == '+' {
      HexHasNo(Parse(s).value, 16, '+');
      assert ("0x" + LowerAll(body))[2] == '+';
      assert Hex(Parse(s).value, 16)[0] in Hex(Parse(s).value, 16);
    } else {
      HexOfNumber(body);
    }
  }
}
