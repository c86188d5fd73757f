/** UTF-8 as RFC 3629 (section 3) defines it: valid text is exactly what
    encoding a sequence of Unicode scalar values produces. */
module Utf8 {
  import opened Wrappers
  import opened Words

  function EncodeChar(c: char): (s: seq<byte>)
    ensures 1 <= |s| <= 4
  {
    var n := c as int;
    if n < 0x80 then [n]
    else if n < 0x800 then [0xC0 + n / 64, 0x80 + n % 64]
    else if n < 0x1_0000 then [0xE0 + n / 4096, 0x80 + n / 64 % 64, 0x80 + n % 64]
    else [0xF0 + n / 262144, 0x80 + n / 4096 % 64, 0x80 + n / 64 % 64, 0x80 + n % 64]
  }

  function Encode(text: string): seq<byte> {
    if text == [] then [] else EncodeChar(text[0]) + Encode(text[1..])
  }

  predicate IsScalar(n: int) {
    0 <= n < 0xD800 || 0xE000 <= n < 0x11_0000
  }

  /** The number a sequence of the given width spells, valid or not. */
  function Spelled(bs: seq<byte>): int
    requires 1 <= |bs| <= 4
  {
    var b: seq<int> := seq(|bs|, i requires 0 <= i < |bs| => bs[i]);
    if |b| == 1 then b[0]
    else if |b| == 2 then (b[0] - 0xC0) * 64 + (b[1] - 0x80)
    else if |b| == 3 then (b[0] - 0xE0) * 4096 + (b[1] - 0x80) * 64 + (b[2] - 0x80)
    else (b[0] - 0xF0) * 262144 + (b[1] - 0x80) * 4096 + (b[2] - 0x80) * 64 + (b[3] - 0x80)
  }

  /** The first character and its width; overlong and surrogate forms are
      refused because they do not re-encode to themselves. */
  function DecodeHead(bs: seq<byte>): (r: Option<(char, nat)>)
    requires bs != []
    ensures r.Some? ==> 1 <= r.value.1 <= |bs| && EncodeChar(r.value.0) == bs[..r.value.1]
  {
    var lead := bs[0];
    var width := if lead < 0x80 then 1 else if lead < 0xE0 then 2 else if lead < 0xF0 then 3 else 4;
    if |bs| < width then None
    else
      var n := Spelled(bs[..width]);
      if IsScalar(n) && EncodeChar(n as char) == bs[..width] then Some((n as char, width)) else None
  }

  /** The text `bs` holds, or `None` when it is not valid UTF-8. */
  function Decode(bs: seq<byte>): Option<string>
    decreases |bs|
  {
    if bs == [] then Some("")
    else
      match DecodeHead(bs)
      case None => None
      case Some(head) =>
        match Decode(bs[head.1..])
        case None => None
        case Some(rest) => Some([head.0] + rest)
  }

  lemma SpelledChar(c: char)
    ensures Spelled(EncodeChar(c)) == c as int
  {
    var n := c as int;
    assert n / 64 == n / 4096 * 64 + n / 64 % 64;
    assert n / 4096 == n / 262144 * 64 + n / 4096 % 64;
  }

  lemma DecodeHeadOfEncoded(c: char, tail: seq<byte>)
    ensures DecodeHead(EncodeChar(c) + tail) == Some((c, |EncodeChar(c)|))
  {
    var e := EncodeChar(c);
    assert (e + tail)[0] == e[0];
    assert (e + tail)[..|e|] == e;
    SpelledChar(c);
  }

  lemma {:induction false} RoundTrip(text: string)
    ensures Decode(Encode(text)) == Some(text)
  {
    if text != [] {
      var e, rest := EncodeChar(text[0]), Encode(text[1..]);
      DecodeHeadOfEncoded(text[0], rest);
      assert Encode(text) == e + rest;
      assert (e + rest)[|e|..] == rest;
      RoundTrip(text[1..]);
      assert [text[0]] + text[1..] == text;
    }
  }

  /** Valid bytes are the encoding of the text they decode to, so no two byte
      strings hold the same text. */
  lemma {:induction false} EncodeDecoded(bs: seq<byte>)
    requires Decode(bs).Some?
    ensures Encode(Decode(bs).value) == bs
    decreases |bs|
  {
    if bs != [] {
      var (c, width) := DecodeHead(bs).value;
      EncodeDecoded(bs[width..]);
      var rest := Decode(bs[width..]).value;
      assert ([c] + rest)[1..] == rest;
      assert Encode([c] + rest) == EncodeChar(c) + Encode(rest);
      assert bs == bs[..width] + bs[width..];
    }
  }

  lemma {:induction false} EncodeJoined(a: string, b: string)
    ensures Encode(a + b) == Encode(a) + Encode(b)
  {
    if a == [] {
      assert a + b == b;
    } else {
      assert (a + b)[1..] == a[1..] + b;
      EncodeJoined(a[1..], b);
    }
  }

  /** Text followed by bytes that are not valid is not valid. */
  lemma {:induction false} BrokenAfter(text: string, tail: seq<byte>)
    requires tail != [] && Decode(tail) == None
    ensures Decode(Encode(text) + tail) == None
  {
    if text == [] {
      assert Encode(text) + tail == tail;
    } else {
      var e, rest := EncodeChar(text[0]), Encode(text[1..]) + tail;
      assert Encode(text) + tail == e + rest;
      DecodeHeadOfEncoded(text[0], rest);
      assert (e + rest)[|e|..] == rest;
      BrokenAfter(text[1..], tail);
    }
  }
}
