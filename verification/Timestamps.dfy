/**
  `rfc3339_utc` of prover/host/src/release.rs: the timestamps of release manifests and their order as text. A
  timestamp is six numbers of fixed width, most significant first, with fixed separators between them: the order
  of texts is decided field by field, and each field by its digits, as long as no field outgrows its width.
*/
module Timestamps {
  import opened Calendar
  import opened Encoding
  import opened Sequences
  import C = Canonicalizers

  function Pow10(w: nat): nat {
    if w == 0 then 1 else 10 * Pow10(w - 1)
  }

  /** The last `w` decimal digits. */
  function Pad(n: nat, w: nat): (s: string)
    ensures |s| == w
  {
    if w == 0 then "" else Pad(n / 10, w - 1) + [('0' as nat + n % 10) as char]
  }

  /** `{:0w}`: wider numbers are not cut. */
  function Padded(n: nat, w: nat): string {
    if n < Pow10(w) then Pad(n, w) else C.Digits(n)
  }

  function ClockText(h: nat, m: nat, s: nat): string {
    Padded(h, 2) + (":" + (Padded(m, 2) + (":" + (Padded(s, 2) + "Z"))))
  }

  function TimeText(timeOfDay: nat): string {
    ClockText(timeOfDay / 3600, timeOfDay % 3600 / 60, timeOfDay % 60)
  }

  function DateText(date: Date, rest: string): string
    requires date.year >= 0 && date.month >= 0 && date.day >= 0
  {
    Padded(date.year, 4) + ("-" + (Padded(date.month, 2) + ("-" + (Padded(date.day, 2) + ("T" + rest)))))
  }

  /** Section 5.6 of RFC 3339, UTC to the second. */
  function Rfc3339(secs: nat): string {
    YearIsPresent(secs / 86400);
    AlwaysValid(secs / 86400);
    DateText(CivilFromDays(secs / 86400), TimeText(secs % 86400))
  }

  // ------------------------------------------------------------ the order of dates

  predicate Before(a: Date, b: Date) {
    a.year < b.year || (a.year == b.year && (a.month < b.month || (a.month == b.month && a.day < b.day)))
  }

  /** Dates of which each is before the next. */
  lemma {:induction false} StepsGoForward(date: int -> Date, a: int, b: int)
    requires a < b && forall d | a <= d < b :: Before(date(d), date(d + 1))
    ensures Before(date(a), date(b))
    decreases b - a
  {
    if a < b - 1 {
      StepsGoForward(date, a, b - 1);
      assert Before(date(b - 1), date(b - 1 + 1));
      BeforeTransitive(date(a), date(b - 1), date(b));
    }
  }

  lemma LaterDaysAreLater(a: int, b: int)
    requires a < b
    ensures Before(CivilFromDays(a), CivilFromDays(b))
  {
    forall d | a <= d < b ensures Before(CivilFromDays(d), CivilFromDays(d + 1)) {
      OneDayLater(d);
    }
    StepsGoForward(CivilFromDays, a, b);
  }

  lemma OneDayLater(days: int)
    ensures Before(CivilFromDays(days), CivilFromDays(days + 1))
  {
    Successor(days);
    AlwaysValid(days);
    NextIsLater(CivilFromDays(days));
  }

  lemma NextIsLater(date: Date)
    requires Valid(date)
    ensures Before(date, NextDay(date))
  {}

  lemma BeforeTransitive(a: Date, b: Date, c: Date)
    requires Before(a, b) && Before(b, c)
    ensures Before(a, c)
  {}

  /** No day since 1970 has a year before it. */
  lemma YearIsPresent(days: nat)
    ensures CivilFromDays(days).year >= 1970
  {
    Epoch();
    if days > 0 { LaterDaysAreLater(0, days); }
  }

  // ------------------------------------------------------------ the order of texts

  /** As text, in scalar values, which is also the order of bytes and of UTF-16 units here. */
  predicate TextBefore(a: string, b: string) {
    LexLt(CodePoints(a), CodePoints(b))
  }

  lemma TextPrefix(p: string, a: string, b: string)
    ensures TextBefore(p + a, p + b) == TextBefore(a, b)
  {
    assert CodePoints(p + a) == CodePoints(p) + CodePoints(a) && CodePoints(p + b) == CodePoints(p) + CodePoints(b);
    LexCommonPrefix(CodePoints(p), CodePoints(a), CodePoints(b));
  }

  /** Fields of equal width decide before what follows them. */
  lemma {:induction false} FieldDecides(p: string, q: string, a: string, b: string)
    requires |p| == |q| && TextBefore(p, q)
    ensures TextBefore(p + a, q + b)
  {
    var x, y := CodePoints(p + a), CodePoints(q + b);
    assert x[0] == p[0] as nat && y[0] == q[0] as nat && CodePoints(p)[0] == p[0] as nat
           && CodePoints(q)[0] == q[0] as nat;
    if p[0] == q[0] {
      assert CodePoints(p)[1..] == CodePoints(p[1..]) && CodePoints(q)[1..] == CodePoints(q[1..]);
      FieldDecides(p[1..], q[1..], a, b);
      assert x[1..] == CodePoints(p[1..] + a) && y[1..] == CodePoints(q[1..] + b);
    }
  }

  lemma {:induction false} PadOrder(n: nat, m: nat, w: nat)
    requires n < m < Pow10(w)
    ensures TextBefore(Pad(n, w), Pad(m, w))
  {
    var c, d := ('0' as nat + n % 10) as char, ('0' as nat + m % 10) as char;
    if n / 10 < m / 10 {
      PadOrder(n / 10, m / 10, w - 1);
      FieldDecides(Pad(n / 10, w - 1), Pad(m / 10, w - 1), [c], [d]);
    } else {
      assert n / 10 == m / 10 && n % 10 < m % 10;
      TextPrefix(Pad(n / 10, w - 1), [c], [d]);
      assert CodePoints([c]) == [c as nat] && CodePoints([d]) == [d as nat];
    }
  }

  /** One field and the rest of the text. */
  lemma NextField(n: nat, m: nat, w: nat, a: string, b: string)
    requires n < Pow10(w) && m < Pow10(w) && (n < m || (n == m && TextBefore(a, b)))
    ensures TextBefore(Padded(n, w) + a, Padded(m, w) + b)
  {
    if n < m {
      PadOrder(n, m, w);
      FieldDecides(Pad(n, w), Pad(m, w), a, b);
    } else {
      TextPrefix(Pad(n, w), a, b);
    }
  }

  lemma Pow10Values()
    ensures Pow10(2) == 100 && Pow10(4) == 10000
  {
    assert Pow10(1) == 10 && Pow10(2) == 10 * Pow10(1) && Pow10(3) == 10 * Pow10(2);
  }

  lemma ClockOrder(h: nat, m: nat, s: nat, h': nat, m': nat, s': nat)
    requires h < 24 && m < 60 && s < 60 && h' < 24 && m' < 60 && s' < 60
    requires h < h' || (h == h' && (m < m' || (m == m' && s < s')))
    ensures TextBefore(ClockText(h, m, s), ClockText(h', m', s'))
  {
    Pow10Values();
    var a2, b2 := Padded(s, 2) + "Z", Padded(s', 2) + "Z";
    var a1, b1 := Padded(m, 2) + (":" + a2), Padded(m', 2) + (":" + b2);
    if h == h' {
      if m == m' {
        NextField(s, s', 2, "Z", "Z");
        TextPrefix(":", a2, b2);
      }
      NextField(m, m', 2, ":" + a2, ":" + b2);
      TextPrefix(":", a1, b1);
    }
    NextField(h, h', 2, ":" + a1, ":" + b1);
  }

  lemma TimeOrder(s: nat, t: nat)
    requires s < t < 86400
    ensures TextBefore(TimeText(s), TimeText(t))
  {
    ClockOrder(s / 3600, s % 3600 / 60, s % 60, t / 3600, t % 3600 / 60, t % 60);
  }

  lemma DateOrder(x: Date, y: Date, a: string, b: string)
    requires Valid(x) && Valid(y) && 0 <= x.year < 10000 && 0 <= y.year < 10000
    requires Before(x, y) || (x == y && TextBefore(a, b))
    ensures TextBefore(DateText(x, a), DateText(y, b))
  {
    Pow10Values();
    var x2, y2 := Padded(x.day, 2) + ("T" + a), Padded(y.day, 2) + ("T" + b);
    var x1, y1 := Padded(x.month, 2) + ("-" + x2), Padded(y.month, 2) + ("-" + y2);
    if x.year == y.year {
      if x.month == y.month {
        TextPrefix("T", a, b);
        NextField(x.day, y.day, 2, "T" + a, "T" + b);
        TextPrefix("-", x2, y2);
      }
      NextField(x.month, y.month, 2, "-" + x2, "-" + y2);
      TextPrefix("-", x1, y1);
    }
    NextField(x.year, y.year, 4, "-" + x1, "-" + y1);
  }

  lemma DayTimeOrder(d: nat, s: nat, e: nat, t: nat)
    requires s < 86400 && t < 86400 && (d < e || (d == e && s < t))
    requires 0 <= CivilFromDays(d).year < 10000 && 0 <= CivilFromDays(e).year < 10000
    requires CivilFromDays(d).month >= 0 && CivilFromDays(d).day >= 0 && CivilFromDays(e).month >= 0
             && CivilFromDays(e).day >= 0
    ensures TextBefore(DateText(CivilFromDays(d), TimeText(s)), DateText(CivilFromDays(e), TimeText(t)))
  {
    AlwaysValid(d);
    AlwaysValid(e);
    if d < e { LaterDaysAreLater(d, e); } else { TimeOrder(s, t); }
    DateOrder(CivilFromDays(d), CivilFromDays(e), TimeText(s), TimeText(t));
  }

  /** Up to the year 9999, later times have later texts. */
  lemma StrictlyIncreasing(s: nat, t: nat)
    requires s < t && CivilFromDays(s / 86400).year < 10000 && CivilFromDays(t / 86400).year < 10000
    ensures TextBefore(Rfc3339(s), Rfc3339(t))
  {
    YearIsPresent(s / 86400);
    YearIsPresent(t / 86400);
    AlwaysValid(s / 86400);
    AlwaysValid(t / 86400);
    DayTimeOrder(s / 86400, s % 86400, t / 86400, t % 86400);
  }

  // ------------------------------------------------------------ reading a timestamp

  lemma {:induction false} PadReadsBack(n: nat, w: nat)
    requires n < Pow10(w)
    ensures C.DigitsValue(Pad(n, w)) == n
  {
    if w > 0 {
      PadReadsBack(n / 10, w - 1);
      var s := Pad(n, w);
      assert s[..|s| - 1] == Pad(n / 10, w - 1);
    }
  }

  /** Whatever its width, a number is not cut. */
  lemma PaddedReadsBack(n: nat, w: nat)
    ensures C.DigitsValue(Padded(n, w)) == n && |Padded(n, w)| >= w
  {
    if n < Pow10(w) {
      PadReadsBack(n, w);
    } else {
      C.DigitsReadBack(n);
      EnoughDigits(n, w);
    }
  }

  lemma {:induction false} EnoughDigits(n: nat, w: nat)
    requires n >= Pow10(w)
    ensures |C.Digits(n)| > w
  {
    if w > 0 { EnoughDigits(n / 10, w - 1); }
  }

  /** The digits from `i` to `j`, as a number. */
  function Read(text: string, i: nat, j: nat): nat
    requires i <= j <= |text|
  {
    C.DigitsValue(text[i..j])
  }

  lemma Piece(text: string, before: string, piece: string, rest: string)
    requires text == before + (piece + rest)
    ensures |text| == |before| + |piece| + |rest|
    ensures text[|before|..|before| + |piece|] == piece && text[|before| + |piece|..] == rest
  {}

  /** A field, what stands before it and what follows it. */
  lemma FieldReads(text: string, before: string, n: nat, w: nat, rest: string)
    requires text == before + (Padded(n, w) + rest) && n < Pow10(w)
    ensures |text| == |before| + w + |rest| && Read(text, |before|, |before| + w) == n
    ensures text[|before| + w..] == rest
  {
    PadReadsBack(n, w);
    Piece(text, before, Padded(n, w), rest);
  }

  predicate Separated(text: string) {
    |text| == 20 && text[4] == '-' && text[7] == '-' && text[10] == 'T' && text[13] == ':' && text[16] == ':'
    && text[19] == 'Z'
  }

  lemma ClockReads(text: string, date: string, h: nat, m: nat, s: nat)
    requires |date| == 11 && text == date + ClockText(h, m, s) && h < 100 && m < 100 && s < 100
    ensures |text| == 20 && text[13] == ':' && text[16] == ':' && text[19] == 'Z'
    ensures Read(text, 11, 13) == h && Read(text, 14, 16) == m && Read(text, 17, 19) == s
  {
    Pow10Values();
    var a2 := Padded(s, 2) + "Z";
    var a1 := Padded(m, 2) + (":" + a2);
    FieldReads(text, date, h, 2, ":" + a1);
    var d2 := date + Padded(h, 2) + ":";
    assert text == d2 + a1;
    FieldReads(text, d2, m, 2, ":" + a2);
    var d3 := d2 + Padded(m, 2) + ":";
    assert text == d3 + a2;
    FieldReads(text, d3, s, 2, "Z");
  }

  lemma Pieces(text: string, a: string, b: string, c: string, rest: string)
    requires text == a + ("-" + (b + ("-" + (c + ("T" + rest))))) && |a| == 4 && |b| == 2 && |c| == 2
    ensures |text| == 11 + |rest| && text[4] == '-' && text[7] == '-' && text[10] == 'T' && text[11..] == rest
    ensures text[..4] == a && text[5..7] == b && text[8..10] == c
  {
    var t2 := c + ("T" + rest);
    var t1 := b + ("-" + t2);
    assert text[5..] == t1;
    assert text[8..] == t1[3..] == t2;
    assert text[11..] == t2[3..];
    assert text[5..7] == t1[..2] && text[8..10] == t2[..2];
  }

  lemma DateReads(text: string, date: Date, rest: string)
    requires 0 <= date.year < 10000 && 0 <= date.month < 100 && 0 <= date.day < 100 && text == DateText(date, rest)
    ensures |text| == 11 + |rest| && text[4] == '-' && text[7] == '-' && text[10] == 'T' && text[11..] == rest
    ensures Read(text, 0, 4) == date.year && Read(text, 5, 7) == date.month && Read(text, 8, 10) == date.day
  {
    Pow10Values();
    Pieces(text, Padded(date.year, 4), Padded(date.month, 2), Padded(date.day, 2), rest);
    PadReadsBack(date.year, 4);
    PadReadsBack(date.month, 2);
    PadReadsBack(date.day, 2);
  }

  /** The six fields of a text, by their places. */
  predicate Shows(text: string, date: Date, h: nat, m: nat, s: nat) {
    && Separated(text)
    && Read(text, 0, 4) == date.year && Read(text, 5, 7) == date.month && Read(text, 8, 10) == date.day
    && Read(text, 11, 13) == h && Read(text, 14, 16) == m && Read(text, 17, 19) == s
  }

  lemma TextShows(date: Date, h: nat, m: nat, s: nat)
    requires 0 <= date.year < 10000 && 0 <= date.month < 100 && 0 <= date.day < 100 && h < 100 && m < 100 && s < 100
    ensures Shows(DateText(date, ClockText(h, m, s)), date, h, m, s)
  {
    var text := DateText(date, ClockText(h, m, s));
    DateReads(text, date, ClockText(h, m, s));
    assert text == text[..11] + text[11..];
    ClockReads(text, text[..11], h, m, s);
  }

  /**
    Up to the year 9999, the six fields of a timestamp are a valid date and time of day,
      and give back the seconds it was
    made from.
  */
  lemma FieldsGiveSeconds(secs: nat)
    requires CivilFromDays(secs / 86400).year < 10000
    ensures Separated(Rfc3339(secs))
    ensures var text := Rfc3339(secs);
            var date := Date(Read(text, 0, 4), Read(text, 5, 7), Read(text, 8, 10));
            var (h, m, s) := (Read(text, 11, 13), Read(text, 14, 16), Read(text, 17, 19));
            && Valid(date) && h < 24 && m < 60 && s < 60
            && secs == DaysFromCivil(date) * 86400 + h * 3600 + m * 60 + s
  {
    var days, time := secs / 86400, secs % 86400;
    YearIsPresent(days);
    AlwaysValid(days);
    var date := CivilFromDays(days);
    Bijection(days, date);
    TextShows(date, time / 3600, time % 3600 / 60, time % 60);
    SecondsOf(secs, days, date, time / 3600, time % 3600 / 60, time % 60, Rfc3339(secs));
  }

  lemma SecondsOf(secs: nat, days: nat, date: Date, h: nat, m: nat, s: nat, text: string)
    requires days == secs / 86400 && h == secs % 86400 / 3600 && m == secs % 86400 % 3600 / 60 && s == secs % 86400 % 60
    requires Shows(text, date, h, m, s) && DaysFromCivil(date) == days
    ensures Separated(text)
    ensures date == Date(Read(text, 0, 4), Read(text, 5, 7), Read(text, 8, 10)) && h < 24 && m < 60 && s < 60
    ensures secs == DaysFromCivil(date) * 86400 + h * 3600 + m * 60 + s
  {}
}
