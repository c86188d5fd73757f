/** Backup ids: printed from a clock, a counter, an adapter name and an address,
    parsed back for a listing, and ordered as text. */
module BackupId {
  import opened Wrappers
  import opened Words
  import opened Text
  import IeeeText

  datatype Meta = Meta(id: string, taken: u64, adapter: string, coordinator: u64)

  /** One save: the clock in milliseconds, the process counter, and what is saved. */
  datatype Save = Save(millis: u64, counter: u64, adapter: string, coordinator: u64)

  function Stamp(s: Save): string { Padded(s.millis, 13) + "-" + Padded(s.counter, 4) }

  function IdOf(s: Save): string { Stamp(s) + "-" + s.adapter + "-" + IeeeText.Display(s.coordinator) }

  function MetaOf(s: Save): Meta { Meta(IdOf(s), s.millis, s.adapter, s.coordinator) }

  /** Parses an id from the right. */
  function ParseId(id: string): Option<Meta> {
    match RSplitOnce(id, '-')
    case None => None
    case Some((head, coordinator)) =>
      match IeeeText.Parse(coordinator)
      case None => None
      case Some(ieee) =>
        match RSplitOnce(head, '-')
        case None => None
        case Some((stamp, adapter)) =>
          match RSplitOnce(stamp, '-')
          case None => None
          case Some((millis, _)) =>
            match ParseUnsigned(millis, TWO_TO_64)
            case None => None
            case Some(taken) => Some(Meta(id, taken, adapter, ieee))
  }

  // ---------------------------------------------------------------------
  // Text order

  predicate Less(a: string, b: string) {
    b != [] && (a == [] || a[0] < b[0] || (a[0] == b[0] && Less(a[1..], b[1..])))
  }

  lemma {:induction false} LessIrreflexive(a: string)
    ensures !Less(a, a)
  {
    if a != [] {
      LessIrreflexive(a[1..]);
    }
  }

  lemma {:induction false} NotLessTransitive(a: string, b: string, c: string)
    requires !Less(a, b) && !Less(b, c)
    ensures !Less(a, c)
  {
    if a != [] && b != [] && c != [] && a[0] == b[0] && b[0] == c[0] {
      NotLessTransitive(a[1..], b[1..], c[1..]);
    }
  }

  lemma {:induction false} LessAsymmetric(a: string, b: string)
    requires Less(a, b)
    ensures !Less(b, a)
  {
    if a != [] && a[0] == b[0] {
      LessAsymmetric(a[1..], b[1..]);
    }
  }

  lemma {:induction false} LessAfterPrefix(p: string, a: string, b: string)
    ensures Less(p + a, p + b) == Less(a, b)
  {
    if p == [] {
      assert p + a == a && p + b == b;
    } else {
      assert (p + a)[1..] == p[1..] + a && (p + b)[1..] == p[1..] + b;
      LessAfterPrefix(p[1..], a, b);
    }
  }

  // ---------------------------------------------------------------------
  // Listing

  function InsertNewest(m: Meta, sorted: seq<Meta>): seq<Meta> {
    if sorted == [] then [m]
    else if Less(m.id, sorted[0].id) then [sorted[0]] + InsertNewest(m, sorted[1..])
    else [m] + sorted
  }

  /** Sorted by descending id. */
  function Newest(metas: seq<Meta>): seq<Meta> {
    if metas == [] then [] else InsertNewest(metas[0], Newest(metas[1..]))
  }

  function Parsed(ids: seq<string>): seq<Meta> {
    if ids == [] then []
    else
      Parsed(ids[..|ids| - 1])
      + match ParseId(ids[|ids| - 1]) case None => [] case Some(m) => [m]
  }

  /** The backups whose file names parse, newest first; other files are skipped. */
  method ListBackups(ids: seq<string>) returns (out: seq<Meta>)
    ensures out == Newest(Parsed(ids))
    ensures multiset(out) == multiset(Parsed(ids)) && Descending(out)
  {
    out := [];
    for i := 0 to |ids|
      invariant out == Parsed(ids[..i])
    {
      assert ids[..i + 1][..i] == ids[..i];
      match ParseId(ids[i])
      case Some(m) => out := out + [m];
      case None =>
    }
    assert ids[..|ids|] == ids;
    NewestSorts(out);
    out := Newest(out);
  }

  predicate Descending(metas: seq<Meta>) {
    forall i, j :: 0 <= i < j < |metas| ==> !Less(metas[i].id, metas[j].id)
  }

  lemma {:induction false} InsertSorts(m: Meta, sorted: seq<Meta>)
    requires Descending(sorted)
    ensures Descending(InsertNewest(m, sorted))
    ensures multiset(InsertNewest(m, sorted)) == multiset{m} + multiset(sorted)
  {
    if sorted != [] {
      var rest := sorted[1..];
      assert sorted == [sorted[0]] + rest && Descending(rest);
      if Less(m.id, sorted[0].id) {
        InsertSorts(m, rest);
        LessAsymmetric(m.id, sorted[0].id);
        var after := InsertNewest(m, rest);
        forall j | 0 <= j < |after|
          ensures !Less(sorted[0].id, after[j].id)
        {
          assert after[j] in multiset(after);
          if after[j] != m {
            StaysBelow(sorted, after[j]);
          }
        }
        DescendingCons(sorted[0], after);
      } else {
        forall j | 0 <= j < |sorted|
          ensures !Less(m.id, sorted[j].id)
        {
          if j > 0 {
            NotLessTransitive(m.id, sorted[0].id, sorted[j].id);
          }
        }
        DescendingCons(m, sorted);
      }
    }
  }

  lemma DescendingCons(m: Meta, sorted: seq<Meta>)
    requires Descending(sorted) && forall j :: 0 <= j < |sorted| ==> !Less(m.id, sorted[j].id)
    ensures Descending([m] + sorted)
  {
  }

  lemma StaysBelow(sorted: seq<Meta>, m: Meta)
    requires Descending(sorted) && sorted != [] && m in multiset(sorted[1..])
    ensures !Less(sorted[0].id, m.id)
  {
    var k :| 0 <= k < |sorted| - 1 && sorted[1..][k] == m;
    assert sorted[k + 1] == m;
  }

  lemma {:induction false} NewestSorts(metas: seq<Meta>)
    ensures Descending(Newest(metas)) && multiset(Newest(metas)) == multiset(metas)
  {
    if metas != [] {
      NewestSorts(metas[1..]);
      InsertSorts(metas[0], Newest(metas[1..]));
      assert metas == [metas[0]] + metas[1..];
    }
  }

  // ---------------------------------------------------------------------
  // Printing and parsing

  lemma StampHasNoMore(s: Save)
    ensures '-' !in Padded(s.millis, 13) && '-' !in Padded(s.counter, 4) && '-' in Stamp(s)
  {
    assert Stamp(s)[|Padded(s.millis, 13)|] == '-';
  }

  lemma HeadOfId(s: Save)
    ensures RSplitOnce(IdOf(s), '-') == Some((Stamp(s) + "-" + s.adapter, IeeeText.Display(s.coordinator)))
    ensures IeeeText.Parse(IeeeText.Display(s.coordinator)) == Some(s.coordinator)
  {
    IeeeText.DisplayParses(s.coordinator);
    SplitsAtLast(Stamp(s) + "-" + s.adapter, '-', IeeeText.Display(s.coordinator));
    assert IdOf(s) == (Stamp(s) + "-" + s.adapter) + ['-'] + IeeeText.Display(s.coordinator);
  }

  lemma HyphenRefused(text: string)
    requires '-' in text
    ensures ParseUnsigned(text, TWO_TO_64) == None
  {
    var i :| 0 <= i < |text| && text[i] == '-';
    NonDigitRefused(text, TWO_TO_64, i);
  }

  lemma PlainRoundTrip(s: Save)
    requires '-' !in s.adapter
    ensures ParseId(IdOf(s)) == Some(MetaOf(s))
  {
    HeadOfId(s);
    StampHasNoMore(s);
    var millis, counter := Padded(s.millis, 13), Padded(s.counter, 4);
    assert Stamp(s) + "-" + s.adapter == Stamp(s) + ['-'] + s.adapter;
    SplitsAtLast(Stamp(s), '-', s.adapter);
    assert Stamp(s) == millis + ['-'] + counter;
    SplitsAtLast(millis, '-', counter);
    DigitsParse(millis, TWO_TO_64);
  }

  lemma HyphenedRefused(s: Save)
    requires '-' in s.adapter
    ensures ParseId(IdOf(s)) == None
  {
    HeadOfId(s);
    var a, b := AdapterSplits(s);
    TwoHyphensBefore(s, a);
    RefusedByTime(IdOf(s), Stamp(s) + "-" + s.adapter, IeeeText.Display(s.coordinator), Stamp(s) + "-" + a, b);
  }

  lemma AdapterSplits(s: Save) returns (a: string, b: string)
    requires '-' in s.adapter
    ensures RSplitOnce(Stamp(s) + "-" + s.adapter, '-') == Some((Stamp(s) + "-" + a, b))
  {
    SplitParts(s.adapter, '-');
    var split := RSplitOnce(s.adapter, '-').value;
    a, b := split.0, split.1;
    var stamp := Stamp(s) + "-" + a;
    assert Stamp(s) + "-" + s.adapter == stamp + ['-'] + b;
    SplitsAtLast(stamp, '-', b);
  }

  lemma RefusedByTime(id: string, head: string, coordinator: string, stamp: string, adapter: string)
    requires RSplitOnce(id, '-') == Some((head, coordinator))
    requires RSplitOnce(head, '-') == Some((stamp, adapter))
    requires RSplitOnce(stamp, '-').Some? ==> ParseUnsigned(RSplitOnce(stamp, '-').value.0, TWO_TO_64) == None
    ensures ParseId(id) == None
  {
  }

  /** The id of every save parses back to its time, adapter and coordinator, if and
      only if the adapter name has no hyphen; with one it is not recognised at all. */
  lemma IdRoundTrip(s: Save)
    ensures ParseId(IdOf(s)) == if '-' in s.adapter then None else Some(MetaOf(s))
  {
    if '-' in s.adapter {
      HyphenedRefused(s);
    } else {
      PlainRoundTrip(s);
    }
  }

  /** With part of an adapter name still in it, the stamp does not parse as a time. */
  lemma TwoHyphensBefore(s: Save, a: string)
    ensures var split := RSplitOnce(Stamp(s) + "-" + a, '-');
            split.Some? && ParseUnsigned(split.value.0, TWO_TO_64) == None
  {
    StampHasNoMore(s);
    if '-' in a {
      SplitParts(a, '-');
      var (c, d) := RSplitOnce(a, '-').value;
      assert Stamp(s) + "-" + a == (Stamp(s) + "-" + c) + ['-'] + d;
      SplitsAtLast(Stamp(s) + "-" + c, '-', d);
      assert (Stamp(s) + "-" + c)[|Stamp(s)|] == '-';
      HyphenRefused(Stamp(s) + "-" + c);
    } else {
      SplitsAtLast(Stamp(s), '-', a);
      assert Stamp(s) + "-" + a == Stamp(s) + ['-'] + a;
      HyphenRefused(Stamp(s));
    }
  }

  // ---------------------------------------------------------------------
  // Order

  function Pow10(n: nat): (p: nat)
    ensures p >= 1
  {
    if n == 0 then 1 else 10 * Pow10(n - 1)
  }

  lemma {:induction false} DigitsFit(n: nat, width: nat)
    requires width >= 1 && n < Pow10(width)
    ensures |Digits(n)| <= width && |Padded(n, width)| == width
    decreases width
  {
    if n >= 10 {
      assert width > 1;
      DigitsFit(n / 10, width - 1);
    }
  }

  lemma {:induction false} SameNumberSameDigits(a: string, b: string)
    requires AllDigits(a) && AllDigits(b) && |a| == |b| && Number(a) == Number(b)
    ensures a == b
    decreases |a|
  {
    if a != [] {
      SameNumberSameDigits(a[..|a| - 1], b[..|b| - 1]);
      assert a == a[..|a| - 1] + [a[|a| - 1]] && b == b[..|b| - 1] + [b[|b| - 1]];
    }
  }

  /** Digits of one width compare as their numbers do, whatever follows. */
  lemma {:induction false} DigitsCompare(a: string, b: string, x: string, y: string)
    requires AllDigits(a) && AllDigits(b) && |a| == |b| && Number(a) < Number(b)
    ensures Less(a + x, b + y)
    decreases |a|
  {
    var p, q, c, d := a[..|a| - 1], b[..|b| - 1], a[|a| - 1], b[|b| - 1];
    assert a + x == p + ([c] + x) && b + y == q + ([d] + y);
    if Number(p) < Number(q) {
      DigitsCompare(p, q, [c] + x, [d] + y);
    } else {
      SameNumberSameDigits(p, q);
      LessAfterPrefix(p, [c] + x, [d] + y);
      assert ([c] + x)[0] < ([d] + y)[0];
    }
  }

  /** A number without its last digits. */
  function Leading(n: nat, dropped: nat): nat {
    if dropped == 0 then n else Leading(n / 10, dropped - 1)
  }

  lemma {:induction false} NumberOfPrefix(b: string, k: nat)
    requires AllDigits(b) && k <= |b|
    ensures AllDigits(b[..k]) && Number(b[..k]) == Leading(Number(b), |b| - k)
    decreases |b|
  {
    if k == |b| {
      assert b[..k] == b;
    } else {
      var shorter := b[..|b| - 1];
      NumberOfPrefix(shorter, k);
      assert shorter[..k] == b[..k];
      assert Number(b) / 10 == Number(shorter);
    }
  }

  /** How digits of different widths compare, followed by a hyphen each: by the
      longer one's leading digits, and a hyphen sorts before any further digit. */
  lemma DigitsOrder(a: string, b: string, x: string, y: string)
    requires AllDigits(a) && AllDigits(b) && |a| <= |b| && Number(a) < Number(b)
    requires x != [] && x[0] == '-'
    ensures if |a| == |b| || Number(a) <= Leading(Number(b), |b| - |a|) then Less(a + x, b + y) else Less(b + y, a + x)
  {
    if |a| == |b| {
      DigitsCompare(a, b, x, y);
    } else {
      LeadingDecides(a, b, x, y);
    }
  }

  lemma LeadingDecides(a: string, b: string, x: string, y: string)
    requires AllDigits(a) && AllDigits(b) && |a| < |b|
    requires x != [] && x[0] == '-'
    ensures if Number(a) <= Leading(Number(b), |b| - |a|) then Less(a + x, b + y) else Less(b + y, a + x)
  {
    var p, z := b[..|a|], b[|a|..] + y;
    NumberOfPrefix(b, |a|);
    SplitDigits(b, |a|, y);
    LongerDigits(a, p, x, z);
  }

  lemma SplitDigits(b: string, k: nat, y: string)
    requires AllDigits(b) && k < |b|
    ensures b + y == b[..k] + (b[k..] + y) && IsDigit((b[k..] + y)[0])
  {
    assert (b[k..] + y)[0] == b[k];
  }

  lemma LongerDigits(a: string, p: string, x: string, y: string)
    requires AllDigits(a) && AllDigits(p) && |a| == |p|
    requires x != [] && x[0] == '-' && y != [] && IsDigit(y[0])
    ensures if Number(a) <= Number(p) then Less(a + x, p + y) else Less(p + y, a + x)
  {
    if Number(a) < Number(p) {
      DigitsCompare(a, p, x, y);
    } else if Number(a) == Number(p) {
      SameNumberSameDigits(a, p);
      LessAfterPrefix(a, x, y);
    } else {
      DigitsCompare(p, a, y, x);
    }
  }

  lemma {:induction false} DigitsGrow(a: nat, b: nat)
    requires a <= b
    ensures |Digits(a)| <= |Digits(b)|
    decreases b
  {
    if a >= 10 {
      DigitsGrow(a / 10, b / 10);
    }
  }

  lemma PaddedGrows(a: nat, b: nat, width: nat)
    requires a <= b
    ensures |Padded(a, width)| <= |Padded(b, width)|
  {
    DigitsGrow(a, b);
  }

  /** A later save: the clock has not gone back, and the counter has gone up. */
  predicate Later(s: Save, t: Save) { s.millis <= t.millis && s.counter < t.counter }

  /** Whether two numbers padded to a width keep their order as text: they come out
      equally wide, or the smaller is at most the larger one's leading digits. */
  predicate Keeps(a: nat, b: nat, width: nat) {
    var m, n := |Padded(a, width)|, |Padded(b, width)|;
    n <= m || a <= Leading(b, n - m)
  }

  /** Whether the ids of two saves sort as the saves: by the clock if it has moved,
      whatever the counter, and otherwise by the counter. */
  predicate InOrder(s: Save, t: Save) {
    if s.millis < t.millis then Keeps(s.millis, t.millis, 13) else Keeps(s.counter, t.counter, 4)
  }

  function Tail(s: Save): string { "-" + s.adapter + "-" + IeeeText.Display(s.coordinator) }

  lemma IdParts(s: Save)
    ensures IdOf(s) == Padded(s.millis, 13) + ("-" + (Padded(s.counter, 4) + Tail(s)))
  {
  }

  /** The ids of any two saves of one process differ, and a later save has the
      greater id exactly when the padding of what tells them apart keeps order. */
  lemma OrderExactly(s: Save, t: Save)
    requires Later(s, t)
    ensures if InOrder(s, t) then Less(IdOf(s), IdOf(t)) else Less(IdOf(t), IdOf(s))
    ensures IdOf(s) != IdOf(t)
  {
    if s.millis < t.millis {
      ClockDecides(s, t);
    } else {
      CounterDecides(s, t);
    }
    LessIrreflexive(IdOf(s));
  }

  lemma ClockDecides(s: Save, t: Save)
    requires s.millis < t.millis
    ensures if Keeps(s.millis, t.millis, 13) then Less(IdOf(s), IdOf(t)) else Less(IdOf(t), IdOf(s))
  {
    IdParts(s);
    IdParts(t);
    PaddedGrows(s.millis, t.millis, 13);
    DigitsOrder(Padded(s.millis, 13), Padded(t.millis, 13),
                "-" + (Padded(s.counter, 4) + Tail(s)), "-" + (Padded(t.counter, 4) + Tail(t)));
  }

  lemma CounterDecides(s: Save, t: Save)
    requires s.millis == t.millis && s.counter < t.counter
    ensures if Keeps(s.counter, t.counter, 4) then Less(IdOf(s), IdOf(t)) else Less(IdOf(t), IdOf(s))
  {
    IdParts(s);
    IdParts(t);
    var a, c, d := Padded(s.millis, 13), Padded(s.counter, 4) + Tail(s), Padded(t.counter, 4) + Tail(t);
    PaddedGrows(s.counter, t.counter, 4);
    DigitsOrder(Padded(s.counter, 4), Padded(t.counter, 4), Tail(s), Tail(t));
    LessUnderPrefix(a, c, d);
    LessUnderPrefix(a, d, c);
  }

  lemma LessUnderPrefix(p: string, a: string, b: string)
    ensures Less(p + ("-" + a), p + ("-" + b)) == Less(a, b)
  {
    LessAfterPrefix(p, "-" + a, "-" + b);
    LessAfterPrefix("-", a, b);
  }

  lemma Fits(n: nat, m: nat, width: nat)
    requires width >= 1 && n <= m < Pow10(width)
    ensures Keeps(n, m, width)
  {
    DigitsFit(n, width);
    DigitsFit(m, width);
  }

  /** With thirteen digits of clock, a later save has a greater id whenever the clock
      has moved, and within one millisecond up to four digits of counter. */
  lemma LaterIsGreater(s: Save, t: Save)
    requires Later(s, t) && t.millis < 10_000_000_000_000
    requires s.millis < t.millis || t.counter < 10_000
    ensures InOrder(s, t) && Less(IdOf(s), IdOf(t))
  {
    assert Pow10(3) == 1_000 && Pow10(4) == 10_000;
    assert Pow10(7) == 1_000 * Pow10(4);
    assert Pow10(10) == 1_000 * Pow10(7);
    assert Pow10(13) == 1_000 * Pow10(10);
    if s.millis < t.millis {
      Fits(s.millis, t.millis, 13);
    } else {
      Fits(s.counter, t.counter, 4);
    }
    OrderExactly(s, t);
  }

  lemma {:induction false} DigitsCount(n: nat, width: nat)
    requires width >= 1 && n >= Pow10(width - 1) && n < Pow10(width)
    ensures |Digits(n)| == width || (n == 0 && width == 1)
    decreases width
  {
    if width > 1 {
      DigitsCount(n / 10, width - 1);
    }
  }

  /** Within one millisecond, every step of the counter from four digits to five
      breaks the order unless it goes far enough up. */
  lemma CounterOverflowReorders(s: Save, t: Save)
    requires Later(s, t) && s.millis == t.millis && 1_000 <= s.counter < 10_000 <= t.counter < 100_000
    ensures Less(IdOf(t), IdOf(s)) <==> s.counter > t.counter / 10
  {
    assert Pow10(1) == 10 && Pow10(3) == 1_000 && Pow10(4) == 10_000;
    assert Pow10(5) == 10 * Pow10(4);
    DigitsCount(s.counter, 4);
    DigitsCount(t.counter, 5);
    OrderExactly(s, t);
    assert Leading(t.counter, 1) == Leading(t.counter / 10, 0);
    if Less(IdOf(t), IdOf(s)) {
      LessAsymmetric(IdOf(t), IdOf(s));
    }
  }

  lemma Cancel<T>(x: T, a: multiset<T>, b: multiset<T>)
    requires multiset{x} + a == multiset{x} + b
    ensures a == b
  {
    assert a == (multiset{x} + a) - multiset{x};
    assert b == (multiset{x} + b) - multiset{x};
  }

  lemma SameRest(a: seq<Meta>, b: seq<Meta>)
    requires a != [] && b != [] && a[0] == b[|b| - 1] && multiset(a) == multiset(b)
    ensures multiset(a[1..]) == multiset(b[..|b| - 1])
  {
    assert a == [a[0]] + a[1..] && b == b[..|b| - 1] + [b[|b| - 1]];
    Cancel(a[0], multiset(a[1..]), multiset(b[..|b| - 1]));
  }

  function Reversed(metas: seq<Meta>): (r: seq<Meta>)
    ensures |r| == |metas|
  {
    if metas == [] then [] else [metas[|metas| - 1]] + Reversed(metas[..|metas| - 1])
  }

  predicate Ascending(metas: seq<Meta>) {
    forall i, j :: 0 <= i < j < |metas| ==> Less(metas[i].id, metas[j].id)
  }

  lemma GreatestIsLast(metas: seq<Meta>, q: nat)
    requires Ascending(metas) && q < |metas|
    ensures metas[q] == metas[|metas| - 1] || Less(metas[q].id, metas[|metas| - 1].id)
  {
  }

  lemma FirstIsGreatest(sorted: seq<Meta>, p: nat)
    requires Descending(sorted) && p < |sorted|
    ensures sorted[p] == sorted[0] || !Less(sorted[0].id, sorted[p].id)
  {
  }

  /** Strictly ascending ids have one descending arrangement: the reverse. */
  lemma {:induction false} DescendingIsReverse(metas: seq<Meta>, sorted: seq<Meta>)
    requires Ascending(metas) && Descending(sorted) && multiset(sorted) == multiset(metas)
    ensures sorted == Reversed(metas)
    decreases |metas|
  {
    assert |multiset(sorted)| == |multiset(metas)|;
    if metas != [] {
      var before, last := metas[..|metas| - 1], metas[|metas| - 1];
      assert metas == before + [last];
      assert last in multiset(sorted);
      var p :| 0 <= p < |sorted| && sorted[p] == last;
      assert sorted[0] in multiset(metas);
      var q :| 0 <= q < |metas| && metas[q] == sorted[0];
      GreatestIsLast(metas, q);
      FirstIsGreatest(sorted, p);
      LessIrreflexive(last.id);
      SameRest(sorted, metas);
      DescendingIsReverse(before, sorted[1..]);
    }
  }

  lemma {:induction false} ReversedAt(metas: seq<Meta>, k: nat)
    requires k < |metas|
    ensures Reversed(metas)[|metas| - 1 - k] == metas[k]
    decreases |metas|
  {
    if k < |metas| - 1 {
      ReversedAt(metas[..|metas| - 1], k);
    }
  }

  function MetasOf(saves: seq<Save>): seq<Meta> {
    seq(|saves|, i requires 0 <= i < |saves| => MetaOf(saves[i]))
  }

  /** The saves a listing can recognise: those whose adapter name has no hyphen. */
  function Recognised(saves: seq<Save>): seq<Save> {
    if saves == [] then []
    else
      Recognised(saves[..|saves| - 1])
      + if '-' in saves[|saves| - 1].adapter then [] else [saves[|saves| - 1]]
  }

  lemma {:induction false} ParsedSaves(saves: seq<Save>, ids: seq<string>)
    requires |ids| == |saves| && forall i :: 0 <= i < |ids| ==> ids[i] == IdOf(saves[i])
    ensures Parsed(ids) == MetasOf(Recognised(saves))
  {
    if ids != [] {
      var last := |saves| - 1;
      ParsedSaves(saves[..last], ids[..last]);
      assert ids[last] == IdOf(saves[last]);
      IdRoundTrip(saves[last]);
      ParsedStep(ids);
      MetasConcat(Recognised(saves[..last]), [saves[last]]);
      assert MetasOf([saves[last]]) == [MetaOf(saves[last])];
    } else {
      assert MetasOf([]) == [];
    }
  }

  lemma ParsedStep(ids: seq<string>)
    requires ids != []
    ensures ParseId(ids[|ids| - 1]).None? ==> Parsed(ids) == Parsed(ids[..|ids| - 1])
    ensures ParseId(ids[|ids| - 1]).Some? ==> Parsed(ids) == Parsed(ids[..|ids| - 1]) + [ParseId(ids[|ids| - 1]).value]
  {
  }

  lemma {:induction false} RecognisedCounts(saves: seq<Save>, s: Save)
    ensures multiset(Recognised(saves))[s] == if '-' in s.adapter then 0 else multiset(saves)[s]
  {
    if saves != [] {
      RecognisedCounts(saves[..|saves| - 1], s);
      assert saves == saves[..|saves| - 1] + [saves[|saves| - 1]];
    }
  }

  lemma RecognisedPermute(a: seq<Save>, b: seq<Save>)
    requires multiset(a) == multiset(b)
    ensures multiset(Recognised(a)) == multiset(Recognised(b))
  {
    forall s
      ensures multiset(Recognised(a))[s] == multiset(Recognised(b))[s]
    {
      RecognisedCounts(a, s);
      RecognisedCounts(b, s);
    }
  }

  predicate InTime(saves: seq<Save>) {
    forall i, j :: 0 <= i < j < |saves| ==> Later(saves[i], saves[j])
  }

  lemma {:induction false} RecognisedLater(history: seq<Save>)
    requires InTime(history)
    ensures InTime(Recognised(history)) && forall s :: s in Recognised(history) ==> s in history
  {
    if history != [] {
      var before, last := history[..|history| - 1], history[|history| - 1];
      RecognisedLater(before);
      var saves := Recognised(before);
      forall i | 0 <= i < |saves|
        ensures Later(saves[i], last)
      {
        assert saves[i] in before;
        var k :| 0 <= k < |before| && before[k] == saves[i];
        assert history[k] == saves[i];
      }
      var after := Recognised(history);
      assert after == saves || after == saves + [last];
      InTimeSnoc(saves, last);
    }
  }

  lemma InTimeSnoc(saves: seq<Save>, last: Save)
    requires InTime(saves) && forall i :: 0 <= i < |saves| ==> Later(saves[i], last)
    ensures InTime(saves + [last])
  {
  }

  /** Whether the ids of a history sort in the order of the saves. */
  predicate AllInOrder(saves: seq<Save>) {
    forall i, j :: 0 <= i < j < |saves| ==> InOrder(saves[i], saves[j])
  }

  /** A listing is the history of the saves it recognises, newest first, with every
      field recovered and in whatever order the directory gives the files, if and
      only if the ids of those saves are in order. */
  lemma ListingIsHistory(history: seq<Save>, found: seq<Save>, ids: seq<string>)
    requires InTime(history) && multiset(found) == multiset(history)
    requires |ids| == |found| && forall i :: 0 <= i < |ids| ==> ids[i] == IdOf(found[i])
    ensures Newest(Parsed(ids)) == Reversed(MetasOf(Recognised(history))) <==> AllInOrder(Recognised(history))
  {
    var saves := Recognised(history);
    ParsedSaves(found, ids);
    NewestSorts(Parsed(ids));
    RecognisedPermute(found, history);
    MetasPermute(Recognised(found), saves);
    RecognisedLater(history);
    if AllInOrder(saves) {
      forall i, j | 0 <= i < j < |saves|
        ensures Less(MetasOf(saves)[i].id, MetasOf(saves)[j].id)
      {
        OrderExactly(saves[i], saves[j]);
      }
      DescendingIsReverse(MetasOf(saves), Newest(Parsed(ids)));
    } else {
      var i, j :| 0 <= i < j < |saves| && !InOrder(saves[i], saves[j]);
      OutOfOrderShows(saves, i, j);
    }
  }

  lemma OutOfOrderShows(saves: seq<Save>, i: nat, j: nat)
    requires i < j < |saves| && Later(saves[i], saves[j]) && !InOrder(saves[i], saves[j])
    ensures !Descending(Reversed(MetasOf(saves)))
  {
    var metas := MetasOf(saves);
    OrderExactly(saves[i], saves[j]);
    ReversedAt(metas, i);
    ReversedAt(metas, j);
    assert Less(Reversed(metas)[|metas| - 1 - j].id, Reversed(metas)[|metas| - 1 - i].id);
  }

  lemma {:induction false} MetasPermute(a: seq<Save>, b: seq<Save>)
    requires multiset(a) == multiset(b)
    ensures multiset(MetasOf(a)) == multiset(MetasOf(b))
    decreases |a|
  {
    assert |multiset(a)| == |multiset(b)|;
    if a == [] {
      assert MetasOf(a) == MetasOf(b);
    } else {
      assert a[0] in multiset(b);
      var k :| 0 <= k < |b| && b[k] == a[0];
      var rest := b[..k] + b[k + 1..];
      assert a == [a[0]] + a[1..] && b == b[..k] + [b[k]] + b[k + 1..];
      Cancel(a[0], multiset(a[1..]), multiset(rest));
      MetasPermute(a[1..], rest);
      MetasWithout(a, 0);
      assert a[..0] + a[1..] == a[1..];
      MetasWithout(b, k);
    }
  }

  lemma MetasWithout(b: seq<Save>, k: nat)
    requires k < |b|
    ensures multiset(MetasOf(b)) == multiset{MetaOf(b[k])} + multiset(MetasOf(b[..k] + b[k + 1..]))
  {
    var before, after := b[..k], b[k + 1..];
    assert b == before + [b[k]] + after;
    MetasConcat(before, [b[k]] + after);
    MetasConcat([b[k]], after);
    MetasConcat(before, after);
    assert MetasOf([b[k]]) == [MetaOf(b[k])];
    assert b == before + ([b[k]] + after);
  }

  lemma MetasConcat(a: seq<Save>, b: seq<Save>)
    ensures MetasOf(a + b) == MetasOf(a) + MetasOf(b)
  {
  }
}
