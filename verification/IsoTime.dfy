/** Timestamps as text: `iso_time` (`src/ircd/proto.rs`) and `parse_iso_time` (`src/bridge/history.rs`),
    the `date-time` of section 5.6 of RFC 3339. */
module IsoTime {
  import opened Strings
  import opened Decimal
  import opened Calendar

  const U64_MAX: nat := 0xFFFF_FFFF_FFFF_FFFF

  /** Non-negative days fall in 1970 or later. */
  lemma YearBounds(days: nat)
    ensures var (y, m, d) := CivilFromDays(days);
      1970 <= y <= days + 2000 && 1 <= m <= 12 && 1 <= d <= 31
  {
    hide YearOfEra;
    var z := days + 719_468;
    YearOfEraFinds(z % 146_097);
    DaysOfCivil(days);
    var (y, m, d) := CivilFromDays(days);
    if y < 1970 {
      DaysOrdered(y, m, d, 1970, 1, 1);
    }
  }

  /** `iso_time`: milliseconds since the epoch as `YYYY-MM-DDTHH:MM:SS.mmmZ`. */
  function Render(ms: nat): string {
    var secs, millis := ms / 1000, ms % 1000;
    var days, tod := secs / 86_400, secs % 86_400;
    YearBounds(days);
    var (y, m, d) := CivilFromDays(days);
    DateText(y, m, d) + "T" + (ClockText(tod) + "." + (Pad(millis, 3) + "Z"))
  }

  function DateText(y: nat, m: nat, d: nat): string {
    Pad(y, 4) + "-" + (Pad(m, 2) + "-" + Pad(d, 2))
  }

  function ClockText(tod: nat): string {
    Pad(tod / 3600, 2) + ":" + (Pad(tod % 3600 / 60, 2) + ":" + Pad(tod % 60, 2))
  }

  /** `split_once`: the parts before and after the first separator. */
  function SplitOnce(s: string, sep: char): Option<(string, string)> {
    var k := Find(Only(sep), s);
    if k < |s| then Some((s[..k], s[k + 1..])) else None
  }

  /** The first three parts between separators, as integers; more parts are ignored. */
  function ThreeNumbers(s: string, sep: char): Option<(int, int, int)> {
    var parts := Split(s, sep);
    if |parts| < 3 then None
    else
      match (ParseI64(parts[0]), ParseI64(parts[1]), ParseI64(parts[2]))
      case (Some(a), Some(b), Some(c)) => Some((a, b, c))
      case _ => None
  }

  /** Milliseconds from the fraction: its first three digits, padded on the right; 0 if it is no number. */
  function Fraction(frac: string): nat {
    if frac == "" then 0
    else
      var padded := frac + (if |frac| < 3 then seq(3 - |frac|, _ => '0') else "");
      var v := ParseUnsigned(padded[..3], 10, U64_MAX);
      if v.Some? then v.value else 0
  }

  function Abs(n: int): nat { if n < 0 then -n else n }

  /** `parse_iso_time`. */
  function Parse(text: string): Option<nat> {
    var s := TrimEnd(Only('Z'), text);
    var halves := SplitOnce(s, 'T');
    if halves.None? then None
    else
      var (date, rest) := halves.value;
      var point := SplitOnce(rest, '.');
      var (hms, frac) := if point.Some? then point.value else (rest, "");
      match (ThreeNumbers(date, '-'), ThreeNumbers(hms, ':'))
      case (Some((y, m, d)), Some((h, mi, se))) =>
        var secs := DaysFromCivil(y, m, d) * 86_400 + h * 3600 + mi * 60 + se;
        Some(Abs(secs) * 1000 + Fraction(frac))
      case _ => None
  }

  // ---------- round trip ----------

  lemma DigitsFree(s: string, c: char)
    requires (forall i | 0 <= i < |s| :: IsDigit(s[i])) && !IsDigit(c)
    ensures Free(Only(c), s)
  {
  }

  lemma SplitOnceAt(a: string, sep: char, b: string)
    requires Free(Only(sep), a)
    ensures SplitOnce(a + [sep] + b, sep) == Some((a, b))
  {
    FindAt(Only(sep), a, sep, b);
    assert a + [sep] + b == a + ([sep] + b);
  }

  /** Three printed numbers between separators are read back. */
  lemma ThreeNumbersPrinted(a: nat, wa: nat, b: nat, c: nat, sep: char)
    requires !IsDigit(sep) && a <= I64_MAX && b <= I64_MAX && c <= I64_MAX
    ensures ThreeNumbers(Pad(a, wa) + [sep] + (Pad(b, 2) + [sep] + Pad(c, 2)), sep) == Some((a, b, c))
  {
    hide Pad, ParseI64;
    var x, y, z := Pad(a, wa), Pad(b, 2), Pad(c, 2);
    DigitsFree(x, sep);
    DigitsFree(y, sep);
    DigitsFree(z, sep);
    SplitOne(z, sep);
    SplitCons(y, z, sep);
    SplitCons(x, y + [sep] + z, sep);
    assert Split(x + [sep] + (y + [sep] + z), sep) == [x] + ([y] + [z]);
    ParsePad(a, wa);
    ParsePad(b, 2);
    ParsePad(c, 2);
  }

  lemma FractionPrinted(millis: nat)
    requires millis < 1000
    ensures Fraction(Pad(millis, 3)) == millis
  {
    hide Digits;
    var p := Print(millis);
    assert Pow10(3) == 1000 by { assert Pow10(1) == 10 && Pow10(2) == 100; }
    PrintLength(millis, 3);
    DigitsPrint(millis);
    if |p| < 3 {
      DigitsZeros(3 - |p|, p);
    }
    var q := Pad(millis, 3);
    assert q + "" == q && q[..3] == q;
    assert q[0] != '+';
  }

  lemma TextFree(a: string, sep: char, b: string, c: string, x: char)
    requires Free(Only(x), a) && Free(Only(x), b) && Free(Only(x), c) && x != sep
    ensures Free(Only(x), a + [sep] + (b + [sep] + c))
  {
  }

  lemma DateFree(y: nat, m: nat, d: nat, x: char)
    requires !IsDigit(x) && x != '-'
    ensures Free(Only(x), DateText(y, m, d))
  {
    hide Pad;
    DigitsFree(Pad(y, 4), x);
    DigitsFree(Pad(m, 2), x);
    DigitsFree(Pad(d, 2), x);
    TextFree(Pad(y, 4), '-', Pad(m, 2), Pad(d, 2), x);
  }

  lemma ClockFree(tod: nat, x: char)
    requires !IsDigit(x) && x != ':'
    ensures Free(Only(x), ClockText(tod))
  {
    hide Pad;
    DigitsFree(Pad(tod / 3600, 2), x);
    DigitsFree(Pad(tod % 3600 / 60, 2), x);
    DigitsFree(Pad(tod % 60, 2), x);
    TextFree(Pad(tod / 3600, 2), ':', Pad(tod % 3600 / 60, 2), Pad(tod % 60, 2), x);
  }

  /** The trailing `Z` is trimmed, and nothing else. */
  lemma TrimZ(s: string)
    requires s != "" && s[|s| - 1] != 'Z'
    ensures TrimEnd(Only('Z'), s + "Z") == s
  {
    assert (s + "Z")[..|s|] == s;
    TrimEndIdle(Only('Z'), s);
  }

  /** The pieces of a rendered time, as the parser cuts them. */
  lemma RenderCuts(date: string, clock: string, frac: string)
    requires Free(Only('T'), date) && Free(Only('.'), clock)
    requires frac != "" && frac[|frac| - 1] != 'Z'
    ensures var s := TrimEnd(Only('Z'), date + "T" + (clock + "." + (frac + "Z")));
      SplitOnce(s, 'T') == Some((date, clock + "." + frac)) && SplitOnce(clock + "." + frac, '.') == Some((clock, frac))
  {
    hide TrimEnd, SplitOnce;
    var s := date + "T" + (clock + "." + frac);
    assert date + "T" + (clock + "." + (frac + "Z")) == s + "Z";
    assert s[|s| - 1] == frac[|frac| - 1];
    TrimZ(s);
    SplitOnceAt(date, 'T', clock + "." + frac);
    SplitOnceAt(clock, '.', frac);
  }

  lemma ClockValue(tod: nat)
    ensures tod / 3600 * 3600 + tod % 3600 / 60 * 60 + tod % 60 == tod
  {
  }

  /** Reading a rendered time gives the time back, for every 64-bit number of milliseconds. */
  lemma ParseRender(ms: nat)
    requires ms <= U64_MAX
    ensures Parse(Render(ms)) == Some(ms)
  {
    hide TrimEnd, SplitOnce, DateText, ClockText, ThreeNumbers, Fraction, Pad, CivilFromDays, DaysFromCivil;
    var secs, millis := ms / 1000, ms % 1000;
    var days, tod := secs / 86_400, secs % 86_400;
    YearBounds(days);
    DaysOfCivil(days);
    var (y, m, d) := CivilFromDays(days);
    var date, clock, frac := DateText(y, m, d), ClockText(tod), Pad(millis, 3);
    DateFree(y, m, d, 'T');
    ClockFree(tod, '.');
    assert IsDigit(frac[|frac| - 1]);
    RenderCuts(date, clock, frac);
    DateRead(y, m, d);
    ClockRead(tod);
    FractionPrinted(millis);
    ClockValue(tod);
  }

  lemma DateRead(y: nat, m: nat, d: nat)
    requires y <= I64_MAX && m <= I64_MAX && d <= I64_MAX
    ensures ThreeNumbers(DateText(y, m, d), '-') == Some((y as int, m as int, d as int))
  {
    ThreeNumbersPrinted(y, 4, m, d, '-');
  }

  lemma ClockRead(tod: nat)
    requires tod < 86_400
    ensures ThreeNumbers(ClockText(tod), ':')
      == Some(((tod / 3600) as int, (tod % 3600 / 60) as int, (tod % 60) as int))
  {
    ThreeNumbersPrinted(tod / 3600, 2, tod % 3600 / 60, tod % 60, ':');
  }

  // ---------- order ----------

  /** Lexicographic order of strings. */
  predicate Before(a: string, b: string) {
    b != "" && (a == "" || a[0] < b[0] || (a[0] == b[0] && Before(a[1..], b[1..])))
  }

  lemma {:induction false} BeforeConcat(a: string, b: string, c: string, d: string)
    requires |a| == |c|
    ensures Before(a, c) ==> Before(a + b, c + d)
    ensures a == c ==> (Before(a + b, c + d) <==> Before(b, d))
  {
    if a == "" {
      assert a + b == b && c + d == d;
    } else {
      assert (a + b)[1..] == a[1..] + b && (c + d)[1..] == c[1..] + d;
      assert a == [a[0]] + a[1..] && c == [c[0]] + c[1..];
      BeforeConcat(a[1..], b, c[1..], d);
    }
  }

  /** Exactly `w` decimal digits. */
  function Fixed(n: nat, w: nat): (s: string)
    ensures |s| == w
  {
    if w == 0 then "" else Fixed(n / 10, w - 1) + [DigitChar(n % 10)]
  }

  lemma {:induction false} FixedZero(w: nat)
    ensures Fixed(0, w) == seq(w, _ => '0')
  {
    if w > 0 {
      FixedZero(w - 1);
      assert seq(w - 1, _ => '0') + ['0'] == seq(w, _ => '0');
    }
  }

  lemma {:induction false} PadIsFixed(n: nat, w: nat)
    requires w >= 1 && n < Pow10(w)
    ensures Pad(n, w) == Fixed(n, w)
  {
    PrintLength(n, w);
    PrintIsFixed(n, w);
  }

  lemma {:induction false} PrintIsFixed(n: nat, w: nat)
    requires w >= 1 && |Print(n)| <= w
    ensures seq(w - |Print(n)|, _ => '0') + Print(n) == Fixed(n, w)
    ensures |Print(n)| == w ==> Print(n) == Fixed(n, w)
  {
    var p := Print(n);
    if n < 10 {
      FixedZero(w - 1);
      assert n / 10 == 0 && n % 10 == n;
    } else {
      PrintIsFixed(n / 10, w - 1);
      var zeros := seq(w - |p|, _ => '0');
      assert p == Print(n / 10) + [DigitChar(n % 10)];
      Assoc(zeros, Print(n / 10), [DigitChar(n % 10)]);
    }
  }

  lemma {:induction false} FixedOrdered(m: nat, n: nat, w: nat)
    requires m < n < Pow10(w)
    ensures Before(Fixed(m, w), Fixed(n, w))
  {
    assert w > 0;
    var a, b := [DigitChar(m % 10)], [DigitChar(n % 10)];
    if m / 10 < n / 10 {
      assert n / 10 < Pow10(w - 1);
      FixedOrdered(m / 10, n / 10, w - 1);
    } else {
      assert Before(a, b);
    }
    BeforeConcat(Fixed(m / 10, w - 1), a, Fixed(n / 10, w - 1), b);
  }

  /** Padded numbers of the same width are ordered as the numbers are. */
  lemma PadOrdered(m: nat, n: nat, w: nat)
    requires w >= 1 && m < Pow10(w) && n < Pow10(w)
    ensures |Pad(m, w)| == |Pad(n, w)| == w
    ensures m < n ==> Before(Pad(m, w), Pad(n, w))
    ensures m == n ==> Pad(m, w) == Pad(n, w)
  {
    PadIsFixed(m, w);
    PadIsFixed(n, w);
    if m < n {
      FixedOrdered(m, n, w);
    }
  }

  lemma Powers()
    ensures Pow10(2) == 100 && Pow10(3) == 1000 && Pow10(4) == 10000
  {
    assert Pow10(1) == 10;
  }

  /** Three padded numbers are ordered as the triples are. */
  lemma TripleOrdered(w: nat, sep: char, a: nat, b: nat, c: nat, a': nat, b': nat, c': nat)
    requires w >= 1 && a < Pow10(w) && a' < Pow10(w) && b < 100 && b' < 100 && c < 100 && c' < 100
    ensures var s := Pad(a, w) + [sep] + (Pad(b, 2) + [sep] + Pad(c, 2));
      var s' := Pad(a', w) + [sep] + (Pad(b', 2) + [sep] + Pad(c', 2));
      && |s| == |s'| == w + 6
      && (DateBefore((a, b, c), (a', b', c')) ==> Before(s, s'))
      && ((a, b, c) == (a', b', c') ==> s == s')
  {
    hide Pad, Before;
    Powers();
    PadOrdered(a, a', w);
    PadOrdered(b, b', 2);
    PadOrdered(c, c', 2);
    var x, x' := Pad(b, 2) + [sep], Pad(b', 2) + [sep];
    BeforeConcat(Pad(b, 2), [sep], Pad(b', 2), [sep]);
    BeforeConcat(x, Pad(c, 2), x', Pad(c', 2));
    BeforeConcat(Pad(a, w), [sep], Pad(a', w), [sep]);
    BeforeConcat(Pad(a, w) + [sep], x + Pad(c, 2), Pad(a', w) + [sep], x' + Pad(c', 2));
  }

  lemma ClockOrdered(t: nat, t': nat)
    requires t < t'
    ensures DateBefore((t / 3600, t % 3600 / 60, t % 60), (t' / 3600, t' % 3600 / 60, t' % 60))
  {
    var r, r' := t % 3600, t' % 3600;
    assert t / 3600 < t' / 3600 || (t / 3600 == t' / 3600 && r < r');
    assert t % 60 == r % 60 && t' % 60 == r' % 60;
    assert r < r' ==> r / 60 < r' / 60 || (r / 60 == r' / 60 && r % 60 < r' % 60);
  }

  /** Year, month and day of a time. */
  function DateOf(ms: nat): (int, int, int) {
    CivilFromDays(ms / 1000 / 86_400)
  }

  lemma NewYear10000()
    ensures CivilFromDays(2_932_897) == (10000, 1, 1) && CivilFromDays(2_932_896) == (9999, 12, 31)
  {
    hide CivilFromDays;
    CivilOfDays(10000, 1, 1);
    CivilOfDays(9999, 12, 31);
  }

  /** The time at which year 10000 starts. */
  const YEAR_10000: nat := 253_402_300_800_000

  lemma DaysBelow10000(days: nat)
    ensures CivilFromDays(days).0 < 10000 <==> days < 2_932_897
  {
    hide CivilFromDays;
    NewYear10000();
    if days < 2_932_896 {
      CivilOrdered(days, 2_932_896);
    } else if days > 2_932_897 {
      CivilOrdered(2_932_897, days);
    }
  }

  /** The times before it are those whose year has at most four digits. */
  lemma BelowYear10000(ms: nat)
    ensures DateOf(ms).0 < 10000 <==> ms < YEAR_10000
  {
    hide CivilFromDays;
    DaysBelow10000(ms / 1000 / 86_400);
    assert ms / 1000 / 86_400 < 2_932_897 <==> ms < YEAR_10000;
  }

  lemma DateTextOrdered(days: nat, days': nat)
    requires days <= days' < 2_932_897
    ensures var (y, m, d) := CivilFromDays(days);
      var (y', m', d') := CivilFromDays(days');
      y >= 0 && m >= 0 && d >= 0 && y' >= 0 && m' >= 0 && d' >= 0
      && |DateText(y, m, d)| == |DateText(y', m', d')| == 10
      && (days < days' ==> Before(DateText(y, m, d), DateText(y', m', d')))
      && (days == days' ==> DateText(y, m, d) == DateText(y', m', d'))
  {
    hide Before, Pad, CivilFromDays;
    YearBounds(days);
    YearBounds(days');
    DaysBelow10000(days);
    DaysBelow10000(days');
    if days < days' {
      CivilOrdered(days, days');
    }
    Powers();
    var (y, m, d) := CivilFromDays(days);
    var (y', m', d') := CivilFromDays(days');
    TripleOrdered(4, '-', y, m, d, y', m', d');
  }

  lemma ClockTextOrdered(t: nat, t': nat)
    requires t <= t' < 86_400
    ensures |ClockText(t)| == |ClockText(t')| == 8
    ensures t < t' ==> Before(ClockText(t), ClockText(t'))
  {
    hide Before, Pad;
    if t < t' {
      ClockOrdered(t, t');
    }
    Powers();
    TripleOrdered(2, ':', t / 3600, t % 3600 / 60, t % 60, t' / 3600, t' % 3600 / 60, t' % 60);
  }

  /** Section 5.1 of RFC 3339: below year 10000, times render to 24 characters each and sort as
      strings in the order of time. */
  lemma RenderOrdered(a: nat, b: nat)
    requires a < b < YEAR_10000
    ensures |Render(a)| == |Render(b)| == 24 && Before(Render(a), Render(b))
  {
    hide Before, Pad, CivilFromDays, DateText, ClockText;
    var days, days' := a / 1000 / 86_400, b / 1000 / 86_400;
    var t, t' := a / 1000 % 86_400, b / 1000 % 86_400;
    var (y, m, d) := CivilFromDays(days);
    var (y', m', d') := CivilFromDays(days');
    DateTextOrdered(days, days');
    var date, date' := DateText(y, m, d) + "T", DateText(y', m', d') + "T";
    var clock, clock' := ClockText(t) + ".", ClockText(t') + ".";
    var frac, frac' := Pad(a % 1000, 3) + "Z", Pad(b % 1000, 3) + "Z";
    Powers();
    PadOrdered(a % 1000, b % 1000, 3);
    BeforeConcat(Pad(a % 1000, 3), "Z", Pad(b % 1000, 3), "Z");
    ClockTextOrdered(if t <= t' then t else t', if t <= t' then t' else t);
    BeforeConcat(ClockText(t), ".", ClockText(t'), ".");
    BeforeConcat(clock, frac, clock', frac');
    BeforeConcat(DateText(y, m, d), "T", DateText(y', m', d'), "T");
    BeforeConcat(date, clock + frac, date', clock' + frac');
  }

  lemma RenderHead(ms: nat)
    ensures DateOf(ms).0 >= 0 && Render(ms) != "" && Render(ms)[0] == Pad(DateOf(ms).0, 4)[0]
  {
    hide Pad, CivilFromDays, ClockText;
    YearBounds(ms / 1000 / 86_400);
  }

  /** The bound is sharp: the first time of year 10000 sorts before the last time of year 9999. */
  lemma YearTenThousandDisorder()
    ensures DateOf(YEAR_10000 - 1).0 == 9999 && DateOf(YEAR_10000).0 == 10000
    ensures !Before(Render(YEAR_10000 - 1), Render(YEAR_10000))
  {
    hide Before, Pad, CivilFromDays, Render;
    var b := YEAR_10000;
    NewYear10000();
    assert b / 1000 / 86_400 == 2_932_897 && (b - 1) / 1000 / 86_400 == 2_932_896;
    RenderHead(b);
    RenderHead(b - 1);
    FirstDigit(9999, '9');
    FirstDigit(10000, '1');
    StartsLater(Render(b - 1), Render(b));
  }

  /** Times sort as text up to a bound exactly when the bound is not past the start of year 10000. */
  lemma OrderedBelowIff(n: nat)
    ensures (forall a: nat, b: nat | a < b < n :: Before(Render(a), Render(b))) <==> n <= YEAR_10000
  {
    hide Before, Render;
    YearTenThousandDisorder();
    if n <= YEAR_10000 {
      forall a: nat, b: nat | a < b < n
        ensures Before(Render(a), Render(b))
      {
        RenderOrdered(a, b);
      }
    } else {
      assert YEAR_10000 - 1 < YEAR_10000 < n;
    }
  }

  lemma FirstDigit(n: nat, c: char)
    requires (n == 9999 && c == '9') || (n == 10000 && c == '1')
    ensures Pad(n, 4)[0] == c
  {
    if n == 9999 {
      assert Print(9) == "9" && Print(99) == "99" && Print(999) == "999";
    } else {
      assert Print(1) == "1" && Print(10) == "10" && Print(100) == "100" && Print(1000) == "1000";
    }
  }

  lemma StartsLater(a: string, b: string)
    requires a != "" && b != "" && a[0] > b[0]
    ensures !Before(a, b)
  {
  }

  // ---------- the format ----------

  lemma PadWidth(n: nat, w: nat)
    requires w >= 1 && n < Pow10(w)
    ensures |Pad(n, w)| == w
  {
    PrintLength(n, w);
  }

  /** `YYYY-MM-DDTHH:MM:SS.mmmZ`: the signs stand where section 5.6 of RFC 3339 has them, and everything else
      is a digit. */
  lemma RenderShape(ms: nat, i: nat)
    requires ms < YEAR_10000 && i < 24
    ensures |Render(ms)| == 24
    ensures var c := Render(ms)[i];
      if i == 4 || i == 7 then c == '-'
      else if i == 10 then c == 'T'
      else if i == 13 || i == 16 then c == ':'
      else if i == 19 then c == '.'
      else if i == 23 then c == 'Z'
      else IsDigit(c)
  {
    hide Pad, CivilFromDays;
    var days, tod := ms / 1000 / 86_400, ms / 1000 % 86_400;
    YearBounds(days);
    BelowYear10000(ms);
    Powers();
    var (y, m, d) := CivilFromDays(days);
    PadWidth(y, 4);
    PadWidth(m, 2);
    PadWidth(d, 2);
    PadWidth(tod / 3600, 2);
    PadWidth(tod % 3600 / 60, 2);
    PadWidth(tod % 60, 2);
    PadWidth(ms % 1000, 3);
    ShapeIs(Pad(y, 4), Pad(m, 2), Pad(d, 2), Pad(tod / 3600, 2), Pad(tod % 3600 / 60, 2), Pad(tod % 60, 2),
      Pad(ms % 1000, 3), i);
  }

  lemma ShapeIs(y: string, m: string, d: string, h: string, mi: string, se: string, f: string, i: nat)
    requires |y| == 4 && |m| == |d| == |h| == |mi| == |se| == 2 && |f| == 3 && i < 24
    requires AllMatchDigit(y) && AllMatchDigit(m) && AllMatchDigit(d) && AllMatchDigit(h) && AllMatchDigit(mi)
    requires AllMatchDigit(se) && AllMatchDigit(f)
    ensures var s := y + "-" + (m + "-" + d) + "T" + ((h + ":" + (mi + ":" + se)) + "." + (f + "Z"));
      && |s| == 24
      && (if i == 4 || i == 7 then s[i] == '-'
          else if i == 10 then s[i] == 'T'
          else if i == 13 || i == 16 then s[i] == ':'
          else if i == 19 then s[i] == '.'
          else if i == 23 then s[i] == 'Z'
          else IsDigit(s[i]))
  {
  }

  predicate AllMatchDigit(s: string) {
    forall i | 0 <= i < |s| :: IsDigit(s[i])
  }

  // ---------- what is read ----------

  /** A fraction is thousandths: missing digits are zeros and digits behind the third are ignored. */
  lemma FractionDigits(a: nat, b: nat, c: nat, more: string)
    requires a < 10 && b < 10 && c < 10
    ensures Fraction("") == 0
    ensures Fraction([DigitChar(a)]) == 100 * a
    ensures Fraction([DigitChar(a), DigitChar(b)]) == 100 * a + 10 * b
    ensures Fraction([DigitChar(a), DigitChar(b), DigitChar(c)] + more) == 100 * a + 10 * b + c
  {
    hide Digits;
    ReadThree(a, 0, 0);
    ReadThree(a, b, 0);
    ReadThree(a, b, c);
    assert seq(2, _ => '0') == ['0', '0'] && seq(1, _ => '0') == ['0'];
    assert [DigitChar(a)] + ['0', '0'] == [DigitChar(a), DigitChar(0), DigitChar(0)];
    assert [DigitChar(a), DigitChar(b)] + ['0'] == [DigitChar(a), DigitChar(b), DigitChar(0)];
    assert [DigitChar(a), DigitChar(b), DigitChar(0)][..3] == [DigitChar(a), DigitChar(b), DigitChar(0)];
    assert [DigitChar(a), DigitChar(0), DigitChar(0)][..3] == [DigitChar(a), DigitChar(0), DigitChar(0)];
    var s := [DigitChar(a), DigitChar(b), DigitChar(c)] + more;
    assert s + "" == s && s[..3] == [DigitChar(a), DigitChar(b), DigitChar(c)];
  }

  lemma ReadThree(a: nat, b: nat, c: nat)
    requires a < 10 && b < 10 && c < 10
    ensures Digits([DigitChar(a), DigitChar(b), DigitChar(c)], 10) == Some(100 * a + 10 * b + c)
  {
    var d := [DigitChar(a), DigitChar(b), DigitChar(c)];
    assert d[..2] == [DigitChar(a), DigitChar(b)] && d[..2][..1] == [DigitChar(a)] && d[..2][..1][..0] == [];
    assert Digits([], 10) == Some(0);
    assert Digits([DigitChar(a)], 10) == Some(a);
    assert Digits([DigitChar(a), DigitChar(b)], 10) == Some(10 * a + b);
  }

  function Clock(h: nat, mi: nat, se: nat): string {
    Pad(h, 2) + [':'] + (Pad(mi, 2) + [':'] + Pad(se, 2))
  }

  /** A date and a clock, with or without a fraction, are read as the seconds they count to, whatever range
      their numbers have; a time before 1970 loses its sign. */
  lemma ParseDateTime(y: nat, m: nat, d: nat, h: nat, mi: nat, se: nat, frac: string)
    requires y <= I64_MAX && m <= I64_MAX && d <= I64_MAX && h <= I64_MAX && mi <= I64_MAX && se <= I64_MAX
    requires frac != "" && frac[|frac| - 1] != 'Z'
    ensures var secs := DaysFromCivil(y, m, d) * 86_400 + h * 3600 + mi * 60 + se;
      var size := if secs < 0 then -secs else secs;
      var date, clock := DateText(y, m, d), Clock(h, mi, se);
      && Parse(date + "T" + (clock + "Z")) == Some(size * 1000)
      && Parse(date + "T" + (clock + "." + (frac + "Z"))) == Some(size * 1000 + Fraction(frac))
  {
    hide TrimEnd, SplitOnce, DateText, Clock, ThreeNumbers, Fraction, Pad, DaysFromCivil;
    var date, clock := DateText(y, m, d), Clock(h, mi, se);
    DateFree(y, m, d, 'T');
    ClockShape(h, mi, se);
    DateRead(y, m, d);
    ThreeNumbersPrinted(h, 2, mi, se, ':');
    assert ThreeNumbers(clock, ':') == Some((h as int, mi as int, se as int)) by { ClockIs(h, mi, se); }
    RenderCuts(date, clock, frac);
    WholeCuts(date, clock);
    assert Fraction("") == 0 by { FractionDigits(0, 0, 0, ""); }
  }

  lemma ClockIs(h: nat, mi: nat, se: nat)
    ensures Clock(h, mi, se) == Pad(h, 2) + [':'] + (Pad(mi, 2) + [':'] + Pad(se, 2))
  {
  }

  lemma ClockShape(h: nat, mi: nat, se: nat)
    ensures var clock := Clock(h, mi, se); clock != "" && Free(Only('.'), clock) && clock[|clock| - 1] != 'Z'
  {
    hide Pad;
    DigitsFree(Pad(h, 2), '.');
    DigitsFree(Pad(mi, 2), '.');
    DigitsFree(Pad(se, 2), '.');
    TextFree(Pad(h, 2), ':', Pad(mi, 2), Pad(se, 2), '.');
    assert Clock(h, mi, se)[|Clock(h, mi, se)| - 1] == Pad(se, 2)[|Pad(se, 2)| - 1];
  }

  lemma WholeCuts(date: string, clock: string)
    requires Free(Only('T'), date) && Free(Only('.'), clock) && clock != "" && clock[|clock| - 1] != 'Z'
    ensures var s := TrimEnd(Only('Z'), date + "T" + (clock + "Z"));
      SplitOnce(s, 'T') == Some((date, clock)) && SplitOnce(clock, '.') == None
  {
    hide TrimEnd;
    var s := date + "T" + clock;
    assert date + "T" + (clock + "Z") == s + "Z";
    assert s[|s| - 1] == clock[|clock| - 1];
    TrimZ(s);
    SplitOnceAt(date, 'T', clock);
    FindSkip(Only('.'), clock, "");
    assert clock + "" == clock;
  }

  /** Anything behind the third number is ignored. */
  lemma MoreParts(a: string, b: string, c: string, more: string, sep: char)
    requires Free(Only(sep), a) && Free(Only(sep), b) && Free(Only(sep), c)
    ensures ThreeNumbers(a + [sep] + (b + [sep] + (c + [sep] + more)), sep)
      == ThreeNumbers(a + [sep] + (b + [sep] + c), sep)
    ensures ThreeNumbers(a + [sep] + b, sep) == None && ThreeNumbers(a, sep) == None
  {
    hide ParseI64, Split;
    SplitCons(c, more, sep);
    SplitCons(b, c + [sep] + more, sep);
    SplitCons(a, b + [sep] + (c + [sep] + more), sep);
    SplitOne(c, sep);
    SplitCons(b, c, sep);
    SplitCons(a, b + [sep] + c, sep);
    SplitOne(b, sep);
    SplitCons(a, b, sep);
    SplitOne(a, sep);
    assert [a] + ([b] + ([c] + Split(more, sep))) == [a, b, c] + Split(more, sep);
    assert [a] + ([b] + [c]) == [a, b, c];
  }
}
