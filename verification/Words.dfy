/** Fixed-width integers and their byte layouts.

    Machine words are bounded naturals, and shifts and masks are division and
    remainder by powers of 256, so the wrap-around of each width is explicit. */
module Words {
  type byte = n: nat | n < 0x100
  type u16 = n: nat | n < 0x1_0000
  type u32 = n: nat | n < 0x1_0000_0000
  type u64 = n: nat | n < 0x1_0000_0000_0000_0000
  type i32 = x: int | -0x8000_0000 <= x < 0x8000_0000
  type i64 = x: int | -0x8000_0000_0000_0000 <= x < 0x8000_0000_0000_0000

  const TWO_TO_63 := 0x8000_0000_0000_0000
  const TWO_TO_64 := 0x1_0000_0000_0000_0000

  function Min(a: nat, b: nat): nat { if a < b then a else b }

  /** How many values fit in `n` bytes. */
  function Pow256(n: nat): (p: nat)
    ensures p >= 1
  {
    if n == 0 then 1 else 256 * Pow256(n - 1)
  }

  lemma Pow256Values()
    ensures Pow256(0) == 1 && Pow256(1) == 0x100 && Pow256(2) == 0x1_0000
    ensures Pow256(3) == 0x100_0000 && Pow256(4) == 0x1_0000_0000
    ensures Pow256(5) == 0x100_0000_0000 && Pow256(6) == 0x1_0000_0000_0000
    ensures Pow256(7) == 0x100_0000_0000_0000 && Pow256(8) == TWO_TO_64
  {
    assert Pow256(2) == 256 * Pow256(1);
    assert Pow256(4) == 256 * Pow256(3);
    assert Pow256(6) == 256 * Pow256(5);
    assert Pow256(8) == 256 * Pow256(7);
  }

  lemma {:induction false} Pow256Monotone(m: nat, n: nat)
    requires m <= n
    ensures Pow256(m) <= Pow256(n)
    decreases n
  {
    if m < n {
      Pow256Monotone(m, n - 1);
    }
  }

  /** The low `n` bytes of `v`, least significant first. */
  function LeBytes(v: nat, n: nat): (s: seq<byte>)
    ensures |s| == n
  {
    if n == 0 then [] else [v % 256] + LeBytes(v / 256, n - 1)
  }

  /** The number whose little-endian bytes are `s`. */
  function LeValue(s: seq<byte>): nat {
    if s == [] then 0 else s[0] + 256 * LeValue(s[1..])
  }

  /** The low `n` bytes of `v`, most significant first. */
  function BeBytes(v: nat, n: nat): (s: seq<byte>)
    ensures |s| == n
  {
    if n == 0 then [] else BeBytes(v / 256, n - 1) + [v % 256]
  }

  /** The number whose big-endian bytes are `s`. */
  function BeValue(s: seq<byte>): nat {
    if s == [] then 0 else 256 * BeValue(s[..|s| - 1]) + s[|s| - 1]
  }

  lemma DivModUnique(v: int, m: int, q: int, r: int)
    requires v == m * q + r && 0 <= r < m
    ensures v / m == q && v % m == r
  {
    var d := q - v / m;
    assert m * d == v % m - r by {
      assert v == m * (v / m) + v % m;
      assert m * d == m * q - m * (v / m);
    }
    assert d >= 1 ==> m * d >= m;
    assert d <= -1 ==> m * d <= -m;
  }

  /** Splitting a remainder at its lowest byte. */
  lemma ModSplit(v: nat, p: nat)
    requires p > 0
    ensures v % (256 * p) == v % 256 + 256 * (v / 256 % p)
    ensures v / (256 * p) == v / 256 / p
  {
    var q, r := v / 256 / p, v / 256 % p;
    assert v / 256 == p * q + r;
    assert v == (256 * p) * q + (256 * r + v % 256) by {
      assert 256 * (p * q) == (256 * p) * q;
    }
    assert 256 * r + v % 256 < 256 * p;
    DivModUnique(v, 256 * p, q, 256 * r + v % 256);
  }

  /** Writing then reading little-endian bytes truncates to the width written. */
  lemma {:induction false} LeRoundTrip(v: nat, n: nat)
    ensures LeValue(LeBytes(v, n)) == v % Pow256(n)
    ensures v < Pow256(n) ==> LeValue(LeBytes(v, n)) == v
  {
    if n > 0 {
      LeRoundTrip(v / 256, n - 1);
      ModSplit(v, Pow256(n - 1));
    }
  }

  /** Big-endian bytes read back as the same number, truncated to the width. */
  lemma {:induction false} BeRoundTrip(v: nat, n: nat)
    ensures BeValue(BeBytes(v, n)) == v % Pow256(n)
    ensures v < Pow256(n) ==> BeValue(BeBytes(v, n)) == v
  {
    if n > 0 {
      BeRoundTrip(v / 256, n - 1);
      ModSplit(v, Pow256(n - 1));
    }
  }

  lemma {:induction false} LeValueBound(s: seq<byte>)
    ensures LeValue(s) < Pow256(|s|)
  {
    if s != [] {
      LeValueBound(s[1..]);
    }
  }

  lemma {:induction false} BeValueBound(s: seq<byte>)
    ensures BeValue(s) < Pow256(|s|)
  {
    if s != [] {
      BeValueBound(s[..|s| - 1]);
    }
  }

  /** The bytes are the only ones of their width with that value. */
  lemma {:induction false} LeBytesOfValue(s: seq<byte>)
    ensures LeBytes(LeValue(s), |s|) == s
  {
    if s != [] {
      LeBytesOfValue(s[1..]);
      assert LeValue(s) % 256 == s[0] && LeValue(s) / 256 == LeValue(s[1..]);
      assert s == [s[0]] + s[1..];
    }
  }

  lemma {:induction false} LePrefix(v: nat, n: nat, k: nat)
    requires k <= n
    ensures LeBytes(v, n)[..k] == LeBytes(v, k)
  {
    if k > 0 {
      LePrefix(v / 256, n - 1, k - 1);
      assert LeBytes(v, n)[..k] == [v % 256] + LeBytes(v / 256, n - 1)[..k - 1];
    }
  }

  lemma Associates(a: seq<byte>, b: seq<byte>, c: seq<byte>)
    ensures a + (b + c) == a + b + c
  {
  }

  /** One more byte on the right weighs 256 to the number of bytes before it. */
  lemma {:induction false} LeValueSnoc(s: seq<byte>, b: byte)
    ensures LeValue(s + [b]) == LeValue(s) + Pow256(|s|) * b
  {
    if s == [] {
      assert s + [b] == [b];
      assert LeValue([b]) == b + 256 * LeValue([]);
    } else {
      assert (s + [b])[1..] == s[1..] + [b];
      LeValueSnoc(s[1..], b);
      assert 256 * (Pow256(|s| - 1) * b) == Pow256(|s|) * b;
    }
  }

  /** One more byte written is the next eight bits of the value. */
  lemma {:induction false} LeBytesSnoc(v: nat, n: nat)
    ensures LeBytes(v, n + 1) == LeBytes(v, n) + [v / Pow256(n) % 256]
  {
    if n == 0 {
      assert LeBytes(v, 1) == [v % 256] + LeBytes(v / 256, 0);
    } else {
      LeBytesSnoc(v / 256, n - 1);
      ModSplit(v, Pow256(n - 1));
      assert LeBytes(v, n + 1) == [v % 256] + LeBytes(v / 256, n);
    }
  }
}
