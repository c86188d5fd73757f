/** Decimal printing and parsing, splitting and joining: the pieces of the text
    formats the store and the thermostat schedules use. */
module Text {
  import opened Wrappers

  predicate IsDigit(c: char) { '0' <= c <= '9' }

  function DigitChar(d: nat): (c: char)
    requires d < 10
    ensures IsDigit(c) && DigitValue(c) == d
  {
    ('0' as int + d) as char
  }

  function DigitValue(c: char): nat
    requires IsDigit(c)
  {
    c as int - '0' as int
  }

  predicate AllDigits(s: string) { forall i :: 0 <= i < |s| ==> IsDigit(s[i]) }

  /** The number a string of digits spells. */
  function Number(s: string): nat
    requires AllDigits(s)
  {
    if s == [] then 0 else 10 * Number(s[..|s| - 1]) + DigitValue(s[|s| - 1])
  }

  function Digits(n: nat): (s: string)
    ensures |s| >= 1 && AllDigits(s) && Number(s) == n
  {
    if n < 10 then
      assert Number([DigitChar(n)]) == 10 * Number([]) + n;
      [DigitChar(n)]
    else
      var s := Digits(n / 10) + [DigitChar(n % 10)];
      assert s[..|s| - 1] == Digits(n / 10);
      s
  }

  function Zeros(n: nat): (s: string)
    ensures |s| == n && forall i :: 0 <= i < n ==> s[i] == '0'
  {
    seq(n, _ => '0')
  }

  /** Digits with zeros in front up to a minimum width. */
  function Padded(n: nat, width: nat): (s: string)
    ensures |s| >= 1 && |s| >= width && AllDigits(s) && Number(s) == n
  {
    var d := Digits(n);
    var zeros := if |d| < width then width - |d| else 0;
    NumberIgnoresZeros(zeros, d);
    Zeros(zeros) + d
  }

  lemma {:induction false} NumberIgnoresZeros(zeros: nat, d: string)
    requires AllDigits(d)
    ensures AllDigits(Zeros(zeros) + d) && Number(Zeros(zeros) + d) == Number(d)
    decreases |d|, zeros
  {
    var s := Zeros(zeros) + d;
    if d != [] {
      NumberIgnoresZeros(zeros, d[..|d| - 1]);
      assert s[..|s| - 1] == Zeros(zeros) + d[..|d| - 1];
    } else if zeros > 0 {
      NumberIgnoresZeros(zeros - 1, d);
      assert s[..|s| - 1] == Zeros(zeros - 1) + d;
    }
  }

  /** An unsigned integer below a limit: an optional plus sign, then digits. */
  function ParseUnsigned(s: string, limit: nat): (r: Option<nat>)
    ensures r.Some? ==> r.value < limit
  {
    var body := if s != [] && s[0] == '+' then s[1..] else s;
    if body != [] && AllDigits(body) && Number(body) < limit then Some(Number(body)) else None
  }

  lemma DigitsParse(s: string, limit: nat)
    requires s != [] && AllDigits(s)
    ensures ParseUnsigned(s, limit) == if Number(s) < limit then Some(Number(s)) else None
  {
    assert s[0] != '+';
  }

  lemma NonDigitRefused(s: string, limit: nat, i: nat)
    requires i < |s| && !IsDigit(s[i]) && s[i] != '+'
    ensures ParseUnsigned(s, limit) == None
  {
    if s[0] == '+' {
      assert s[1..][i - 1] == s[i];
    }
  }

  /** Splits at the first occurrence of a separator. */
  function SplitOnce(s: string, sep: char): Option<(string, string)> {
    if s == [] then None
    else if s[0] == sep then Some(([], s[1..]))
    else
      match SplitOnce(s[1..], sep)
      case None => None
      case Some((a, b)) => Some(([s[0]] + a, b))
  }

  /** Splits at the last occurrence of a separator. */
  function RSplitOnce(s: string, sep: char): Option<(string, string)> {
    if s == [] then None
    else if s[|s| - 1] == sep then Some((s[..|s| - 1], []))
    else
      match RSplitOnce(s[..|s| - 1], sep)
      case None => None
      case Some((a, b)) => Some((a, b + [s[|s| - 1]]))
  }

  lemma {:induction false} SplitsAtFirst(a: string, sep: char, b: string)
    requires sep !in a
    ensures SplitOnce(a + [sep] + b, sep) == Some((a, b))
  {
    var s := a + [sep] + b;
    if a == [] {
      assert s[1..] == b;
    } else {
      assert s[0] == a[0] && s[1..] == a[1..] + [sep] + b;
      SplitsAtFirst(a[1..], sep, b);
      assert [a[0]] + a[1..] == a;
    }
  }

  lemma {:induction false} NothingToSplit(s: string, sep: char)
    requires sep !in s
    ensures SplitOnce(s, sep) == None
  {
    if s != [] {
      NothingToSplit(s[1..], sep);
    }
  }

  lemma {:induction false} SplitsAtLast(a: string, sep: char, b: string)
    requires sep !in b
    ensures RSplitOnce(a + [sep] + b, sep) == Some((a, b))
    decreases |b|
  {
    var s := a + [sep] + b;
    if b == [] {
      assert s[..|s| - 1] == a;
    } else {
      assert s[|s| - 1] == b[|b| - 1] && s[..|s| - 1] == a + [sep] + b[..|b| - 1];
      SplitsAtLast(a, sep, b[..|b| - 1]);
      assert b[..|b| - 1] + [b[|b| - 1]] == b;
    }
  }

  lemma {:induction false} SplitParts(s: string, sep: char)
    ensures RSplitOnce(s, sep).Some? <==> sep in s
    ensures RSplitOnce(s, sep).Some? ==>
              var (a, b) := RSplitOnce(s, sep).value; s == a + [sep] + b && sep !in b
  {
    if s != [] {
      SplitParts(s[..|s| - 1], sep);
      assert s == s[..|s| - 1] + [s[|s| - 1]];
    }
  }

  /** Unicode White_Space. */
  predicate IsWhitespace(c: char) {
    var n := c as int;
    0x09 <= n <= 0x0d || n == 0x20 || n == 0x85 || n == 0xa0 || n == 0x1680 || 0x2000 <= n <= 0x200a
    || n == 0x2028 || n == 0x2029 || n == 0x202f || n == 0x205f || n == 0x3000
  }

  predicate IsWord(s: string) { s != [] && forall i :: 0 <= i < |s| ==> !IsWhitespace(s[i]) }

  function WordLength(s: string): (n: nat)
    ensures n <= |s|
  {
    if s == [] || IsWhitespace(s[0]) then 0 else 1 + WordLength(s[1..])
  }

  /** The maximal runs without whitespace. */
  function WordsOf(s: string): seq<string>
    decreases |s|
  {
    if s == [] then []
    else if IsWhitespace(s[0]) then WordsOf(s[1..])
    else [s[..WordLength(s)]] + WordsOf(s[WordLength(s)..])
  }

  /** Parts separated by single spaces. */
  function Joined(parts: seq<string>): string {
    if parts == [] then []
    else if |parts| == 1 then parts[0]
    else parts[0] + " " + Joined(parts[1..])
  }

  lemma {:induction false} WordLengthOf(word: string, rest: string)
    requires forall i :: 0 <= i < |word| ==> !IsWhitespace(word[i])
    requires rest != [] ==> IsWhitespace(rest[0])
    ensures WordLength(word + rest) == |word|
  {
    if word == [] {
      assert word + rest == rest;
    } else {
      assert (word + rest)[0] == word[0] && (word + rest)[1..] == word[1..] + rest;
      WordLengthOf(word[1..], rest);
    }
  }

  /** Joining words and splitting on whitespace gives the words back. */
  lemma {:induction false} WordsOfJoined(parts: seq<string>)
    requires forall i :: 0 <= i < |parts| ==> IsWord(parts[i])
    ensures WordsOf(Joined(parts)) == parts
    decreases |parts|
  {
    if parts != [] {
      var first, others := parts[0], parts[1..];
      var rest := if others == [] then [] else " " + Joined(others);
      var all := first + rest;
      assert Joined(parts) == all by {
        if others == [] { assert first + [] == first; }
      }
      WordLengthOf(first, rest);
      assert all[0] == first[0] && all[..|first|] == first && all[|first|..] == rest;
      WordsOfJoined(others);
      if others != [] {
        assert rest[1..] == Joined(others);
      }
      assert parts == [first] + others;
    }
  }
}
