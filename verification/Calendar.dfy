/** Days and dates: Hinnant's algorithm in `civil_from_days` (`src/ircd/proto.rs`) and its inverse
    inside `parse_iso_time` (`src/bridge/history.rs`). */
module Calendar {

  /** Years count from March here, so that a leap day is the last day of its year. */
  function YearOfEra(doe: int): int {
    (doe - doe / 1460 + doe / 36524 - doe / 146_096) / 365
  }

  function YearStart(yoe: int): int {
    365 * yoe + yoe / 4 - yoe / 100
  }

  function Month(mp: int): int {
    if mp < 10 then mp + 3 else mp - 9
  }

  /** `civil_from_days`: days since 1970-01-01 to year, month and day. */
  function CivilFromDays(days: int): (int, int, int) {
    var z := days + 719_468;
    var era, doe := z / 146_097, z % 146_097;
    var yoe := YearOfEra(doe);
    var doy := doe - YearStart(yoe);
    var mp := (5 * doy + 2) / 153;
    var m := Month(mp);
    (yoe + era * 400 + (if m <= 2 then 1 else 0), m, doy - (153 * mp + 2) / 5 + 1)
  }

  /** The day count that `parse_iso_time` computes. */
  function DaysFromCivil(y: int, m: int, d: int): int {
    var yy := if m <= 2 then y - 1 else y;
    var era, yoe := yy / 400, yy % 400;
    var mp := if m > 2 then m - 3 else m + 9;
    var doy := (153 * mp + 2) / 5 + d - 1;
    var doe := yoe * 365 + yoe / 4 - yoe / 100 + doy;
    era * 146_097 + doe - 719_468
  }

  predicate Leap(y: int) {
    y % 4 == 0 && (y % 100 != 0 || y % 400 == 0)
  }

  function MonthLength(y: int, m: int): int
    requires 1 <= m <= 12
  {
    if m == 2 then (if Leap(y) then 29 else 28)
    else if m in {4, 6, 9, 11} then 30
    else 31
  }

  /** A date of the Gregorian calendar. */
  predicate ValidDate(y: int, m: int, d: int) {
    1 <= m <= 12 && 1 <= d <= MonthLength(y, m)
  }

  // ---------- the year ----------

  /** A day of the 400-year era given by century, leap cycle and day of the cycle. */
  lemma CycleQuotients(c: int, q: int, f: int)
    requires 0 <= c <= 3 && 0 <= q <= 24 && 0 <= f <= 1460 && (q == 24 ==> f < 1460)
    ensures var doe := 36524 * c + 1461 * q + f;
      doe / 36524 == c && doe / 146_096 == 0 && doe / 1460 == 25 * c + q + (if 24 * c + q + f >= 1460 then 1 else 0)
  {
  }

  lemma CycleYear(c: int, q: int, f: int)
    requires 0 <= c <= 3 && 0 <= q <= 24 && 0 <= f <= 1460 && (q == 24 ==> f < 1460)
    ensures YearOfEra(36524 * c + 1461 * q + f) == 100 * c + 4 * q + (if f == 1460 then 3 else f / 365)
  {
    CycleQuotients(c, q, f);
  }

  lemma CycleStart(c: int, q: int, r: int)
    requires 0 <= c <= 3 && 0 <= q <= 24 && 0 <= r <= 3
    ensures var y := 100 * c + 4 * q + r;
      && YearStart(y) == 36524 * c + 1461 * q + 365 * r
      && (Leap(y + 1) <==> r == 3 && (q < 24 || c == 3))
  {
    var y := 100 * c + 4 * q + r;
    assert y / 4 == 25 * c + q && y / 100 == c;
  }

  /** The day lies in the year. */
  predicate InYear(doe: int, yoe: int) {
    0 <= yoe <= 399 && 0 <= doe - YearStart(yoe) <= (if Leap(yoe + 1) then 365 else 364)
  }

  lemma CycleInYear(c: int, q: int, f: int)
    requires 0 <= c <= 3 && 0 <= q <= 24 && 0 <= f <= 1460 && (q == 24 ==> f < 1460)
    ensures var doe := 36524 * c + 1461 * q + f; InYear(doe, YearOfEra(doe))
  {
    var r := if f == 1460 then 3 else f / 365;
    CycleYear(c, q, f);
    CycleStart(c, q, r);
  }

  /** The closed formula finds the year a day lies in. */
  lemma YearOfEraFinds(doe: int)
    requires 0 <= doe < 146_097
    ensures InYear(doe, YearOfEra(doe))
  {
    if doe < 146_096 {
      var c, e := doe / 36524, doe % 36524;
      CycleInYear(c, e / 1461, e % 1461);
    }
  }

  lemma NextYear(y: int)
    requires 0 <= y < 399
    ensures YearStart(y + 1) == YearStart(y) + (if Leap(y + 1) then 366 else 365)
  {
    hide YearStart, Leap;
    var c, q, r := y / 100, y % 100 / 4, y % 4;
    CycleStart(c, q, r);
    if r < 3 {
      CycleStart(c, q, r + 1);
    } else if q < 24 {
      CycleStart(c, q + 1, 0);
    } else {
      CycleStart(c + 1, 0, 0);
    }
  }

  lemma {:induction false} YearsApart(y: int, z: int)
    requires 0 <= y < z <= 399
    ensures YearStart(y) + (if Leap(y + 1) then 366 else 365) <= YearStart(z)
    decreases z
  {
    hide YearStart, Leap;
    NextYear(z - 1);
    if y < z - 1 {
      YearsApart(y, z - 1);
    }
  }

  /** A day lies in one year only. */
  lemma YearUnique(doe: int, y: int, z: int)
    requires InYear(doe, y) && InYear(doe, z)
    ensures y == z
  {
    if y < z {
      YearsApart(y, z);
    } else if z < y {
      YearsApart(z, y);
    }
  }

  // ---------- the month ----------

  /** Length of the `mp`-th month, March being 0. */
  function MarchMonthLength(mp: int, leap: bool): int {
    if mp == 11 then (if leap then 29 else 28) else if mp in {1, 3, 6, 8} then 30 else 31
  }

  lemma MonthFinds(doy: int, leap: bool)
    requires 0 <= doy <= if leap then 365 else 364
    ensures var mp := (5 * doy + 2) / 153;
      0 <= mp <= 11 && 1 <= doy - (153 * mp + 2) / 5 + 1 <= MarchMonthLength(mp, leap)
  {
  }

  lemma MonthUnique(mp: int, d: int, leap: bool)
    requires 0 <= mp <= 11 && 1 <= d <= MarchMonthLength(mp, leap)
    ensures var doy := (153 * mp + 2) / 5 + d - 1;
      0 <= doy <= (if leap then 365 else 364) && (5 * doy + 2) / 153 == mp
  {
  }

  // ---------- both ways ----------

  lemma Mod4(t: int, k: int)
    ensures (4 * t + k) % 4 == k % 4
  {
    assert 4 * t + k == 4 * (t + k / 4) + k % 4;
  }

  lemma Mod100(t: int, k: int)
    ensures (100 * t + k) % 100 == k % 100
  {
    assert 100 * t + k == 100 * (t + k / 100) + k % 100;
  }

  lemma Mod400(t: int, k: int)
    ensures (400 * t + k) % 400 == k % 400
  {
    assert 400 * t + k == 400 * (t + k / 400) + k % 400;
  }

  lemma LeapShift(era: int, k: int)
    ensures Leap(400 * era + k) <==> Leap(k)
  {
    var y := 400 * era + k;
    Mod4(100 * era, k);
    Mod100(4 * era, k);
    Mod400(era, k);
    assert y == 4 * (100 * era) + k && y == 100 * (4 * era) + k;
  }

  lemma MonthLengthOf(mp: int, era: int, yoe: int)
    requires 0 <= mp <= 11
    ensures var y := yoe + era * 400 + (if Month(mp) <= 2 then 1 else 0);
      1 <= Month(mp) <= 12 && MonthLength(y, Month(mp)) == MarchMonthLength(mp, Leap(yoe + 1))
  {
    LeapShift(era, yoe + 1);
  }

  /** Every day count yields a date of the calendar, and that date counts back to the day. */
  lemma DaysOfCivil(days: int)
    ensures var (y, m, d) := CivilFromDays(days); ValidDate(y, m, d) && DaysFromCivil(y, m, d) == days
  {
    hide YearOfEra, Leap, MonthLength, MarchMonthLength;
    var z := days + 719_468;
    var era, doe := z / 146_097, z % 146_097;
    YearOfEraFinds(doe);
    var yoe := YearOfEra(doe);
    var doy := doe - YearStart(yoe);
    MonthFinds(doy, Leap(yoe + 1));
    var mp := (5 * doy + 2) / 153;
    MonthLengthOf(mp, era, yoe);
    Euclid(era, yoe);
  }

  lemma Euclid(era: int, yoe: int)
    requires 0 <= yoe <= 399
    ensures (yoe + era * 400) / 400 == era && (yoe + era * 400) % 400 == yoe
  {
  }

  /** Every date of the calendar is the date of its day count. */
  lemma CivilOfDays(y: int, m: int, d: int)
    requires ValidDate(y, m, d)
    ensures CivilFromDays(DaysFromCivil(y, m, d)) == (y, m, d)
  {
    hide YearOfEra, Leap, MonthLength, MarchMonthLength;
    var yy := if m <= 2 then y - 1 else y;
    var era, yoe := yy / 400, yy % 400;
    var mp := if m > 2 then m - 3 else m + 9;
    assert Month(mp) == m;
    MonthLengthOf(mp, era, yoe);
    MonthUnique(mp, d, Leap(yoe + 1));
    var doy := (153 * mp + 2) / 5 + d - 1;
    var doe := YearStart(yoe) + doy;
    InEra(yoe, doy);
    YearOfEraFinds(doe);
    YearUnique(doe, yoe, YearOfEra(doe));
    EraOf(era, doe);
  }

  lemma InEra(yoe: int, doy: int)
    requires 0 <= yoe <= 399 && 0 <= doy <= if Leap(yoe + 1) then 365 else 364
    ensures 0 <= YearStart(yoe) + doy < 146_097 && InYear(YearStart(yoe) + doy, yoe)
  {
    if yoe < 399 {
      YearsApart(yoe, 399);
    }
  }

  lemma EraOf(era: int, doe: int)
    requires 0 <= doe < 146_097
    ensures (era * 146_097 + doe) / 146_097 == era && (era * 146_097 + doe) % 146_097 == doe
  {
  }

  // ---------- order ----------

  predicate DateBefore(a: (int, int, int), b: (int, int, int)) {
    a.0 < b.0 || (a.0 == b.0 && (a.1 < b.1 || (a.1 == b.1 && a.2 < b.2)))
  }

  /** First day of the March year, counted as `DaysFromCivil` does. */
  function MarchYear(yy: int): int {
    (yy / 400) * 146_097 + YearStart(yy % 400)
  }

  lemma MarchYearsApart(y: int, z: int)
    requires y < z
    ensures MarchYear(y) + (if Leap(y + 1) then 366 else 365) <= MarchYear(z)
  {
    hide Leap;
    var e, f := y / 400, z / 400;
    LeapShift(e, y % 400 + 1);
    assert y + 1 == 400 * e + (y % 400 + 1);
    if e == f {
      YearsApart(y % 400, z % 400);
    } else {
      InEra(y % 400, if Leap(y % 400 + 1) then 365 else 364);
      assert YearStart(z % 400) >= 0;
      assert f * 146_097 >= (e + 1) * 146_097;
    }
  }

  /** Later dates have larger day counts. */
  lemma DaysOrdered(y: int, m: int, d: int, y': int, m': int, d': int)
    requires ValidDate(y, m, d) && ValidDate(y', m', d') && DateBefore((y, m, d), (y', m', d'))
    ensures DaysFromCivil(y, m, d) < DaysFromCivil(y', m', d')
  {
    hide Leap, MonthLength, MarchMonthLength;
    var yy, mp := MarchForm(y, m, d);
    var yy', mp' := MarchForm(y', m', d');
    if yy < yy' {
      MarchYearsApart(yy, yy');
    } else {
      MonthsOrdered(mp, d, mp', d', Leap(yy + 1));
    }
  }

  /** A valid date counted from March: its year, and its month number in that year. */
  lemma MarchForm(y: int, m: int, d: int) returns (yy: int, mp: int)
    requires ValidDate(y, m, d)
    ensures yy == (if m <= 2 then y - 1 else y) && mp == (if m > 2 then m - 3 else m + 9)
    ensures 0 <= mp <= 11 && 1 <= d <= MarchMonthLength(mp, Leap(yy + 1))
    ensures DaysFromCivil(y, m, d) == MarchYear(yy) + (153 * mp + 2) / 5 + d - 1 - 719_468
    ensures 0 <= (153 * mp + 2) / 5 + d - 1 <= if Leap(yy + 1) then 365 else 364
  {
    hide Leap;
    yy := if m <= 2 then y - 1 else y;
    mp := if m > 2 then m - 3 else m + 9;
    MonthUnique(mp, d, Leap(yy + 1));
  }

  lemma MonthsOrdered(mp: int, d: int, mp': int, d': int, leap: bool)
    requires 0 <= mp <= 11 && 1 <= d <= MarchMonthLength(mp, leap)
    requires 0 <= mp' <= 11 && 1 <= d' <= MarchMonthLength(mp', leap)
    requires mp < mp' || (mp == mp' && d < d')
    ensures (153 * mp + 2) / 5 + d - 1 < (153 * mp' + 2) / 5 + d' - 1
  {
  }

  /** Later days have later dates. */
  lemma CivilOrdered(a: int, b: int)
    requires a < b
    ensures DateBefore(CivilFromDays(a), CivilFromDays(b))
  {
    hide CivilFromDays, DaysFromCivil, ValidDate;
    DaysOfCivil(a);
    DaysOfCivil(b);
    var (y, m, d) := CivilFromDays(a);
    var (y', m', d') := CivilFromDays(b);
    if DateBefore((y', m', d'), (y, m, d)) {
      DaysOrdered(y', m', d', y, m, d);
    }
  }
}
