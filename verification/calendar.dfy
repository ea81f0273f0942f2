/**
  The program's calendar arithmetic: Hinnant's algorithm forward (main.rs) and backward
  (mbox.rs, and again main.rs), and the year formula with a month loop (jmap.rs), against
  a calendar that only counts days.
*/
module Calendar {
  import opened Common

  // ---- the counting calendar ----

  predicate IsLeap(y: int) {
    (y % 4 == 0 && y % 100 != 0) || y % 400 == 0
  }

  function YearLength(y: int): int {
    if IsLeap(y) then 366 else 365
  }

  function MonthLength(y: int, m: int): int {
    if m == 2 then (if IsLeap(y) then 29 else 28)
    else if m in {4, 6, 9, 11} then 30
    else 31
  }

  predicate IsDate(y: int, m: int, d: int) {
    1 <= m <= 12 && 1 <= d <= MonthLength(y, m)
  }

  /** Days from 1970-01-01 to the first of January of year y. */
  function YearStart(y: int): int
    decreases if y < 1970 then 1970 - y else y - 1970
  {
    if y == 1970 then 0
    else if y > 1970 then YearStart(y - 1) + YearLength(y - 1)
    else YearStart(y + 1) - YearLength(y)
  }

  /** Days of year y before month m. */
  function MonthStart(y: int, m: int): int
    requires 1 <= m <= 13
  {
    if m == 1 then 0 else MonthStart(y, m - 1) + MonthLength(y, m - 1)
  }

  function DayNumber(y: int, m: int, d: int): int
    requires 1 <= m <= 13
  {
    YearStart(y) + MonthStart(y, m) + d - 1
  }

  // ---- the program's three ----

  /** Days of the civil date, from the first of March of year 0 on. */
  function MarchDays(y: int, m: int, d: int): int {
    var y' := if m <= 2 then y - 1 else y;
    var era := y' / 400;
    var yoe := y' - era * 400;
    var doy := (153 * (if m > 2 then m - 3 else m + 9) + 2) / 5 + d - 1;
    era * 146097 + yoe * 365 + yoe / 4 - yoe / 100 + doy
  }

  function CivilToUnix(y: int, m: int, d: int, h: int, mi: int, s: int): int {
    (MarchDays(y, m, d) - 719468) * 86400 + h * 3600 + mi * 60 + s
  }

  datatype Civil = Civil(year: int, month: int, day: int, hour: int, minute: int, second: int)

  const U32: int := 0x1_0000_0000

  function YearOfEra(doe: int): int {
    (doe - doe / 1460 + doe / 36524 - doe / 146096) / 365
  }

  function DayOfYear(doe: int): int {
    var yoe := YearOfEra(doe);
    doe - (365 * yoe + yoe / 4 - yoe / 100)
  }

  function MonthOf(doy: int): int {
    var mp := (5 * doy + 2) / 153;
    if mp < 10 then mp + 3 else mp - 9
  }

  function DayOf(doy: int): int {
    doy - (153 * ((5 * doy + 2) / 153) + 2) / 5 + 1
  }

  /** Year, month and day of a day counted from the first of March of year 0. */
  function CivilFromDays(z: int): (int, int, int) {
    var era := z / 146097;
    var doe := z - era * 146097;
    var y := YearOfEra(doe) + era * 400;
    var month := MonthOf(DayOfYear(doe));
    (if month <= 2 then y + 1 else y, month, DayOf(DayOfYear(doe)))
  }

  /** The decomposition of mbox.rs; the year is cast to 32 bits before January and
      February move it on. */
  function CivilFromUnix(secs: nat): Civil {
    var s := secs % 86400;
    var z := secs / 86400 + 719468;
    var era := z / 146097;
    var doe := z - era * 146097;
    var y := (YearOfEra(doe) + era * 400) % U32;
    var month := MonthOf(DayOfYear(doe));
    Civil(if month <= 2 then (y + 1) % U32 else y, month, DayOf(DayOfYear(doe)),
          s / 3600, s % 3600 / 60, s % 60)
  }

  /** The year, month and day that format_unix prints: no cast. */
  function FormattedDate(secs: nat): (int, int, int) {
    CivilFromDays(secs / 86400 + 719468)
  }

  /** The first of the month that the JMAP date parser counts from: the loop over the months
      does nothing before February. */
  function LoopMonth(month: int): int {
    if month < 1 then 1 else month
  }

  /** The JMAP date parser's count: a closed form for the year, a loop over the months. None when
      the loop indexes past December, behind the table's end. On valid dates the count is that
      of the forward algorithm. */
  method JmapDateToUnix(year: int, month: int, day: int, hour: int, min: int, sec: int) returns (t: Option<int>)
    ensures t.None? <==> month > 13
    ensures t.Some? ==> t.value == DayNumber(year, LoopMonth(month), day) * 86400 + hour * 3600 + min * 60 + sec
    ensures IsDate(year, month, day) ==> t == Some(CivilToUnix(year, month, day, hour, min, sec))
  {
    var daysInMonth := [0, 31, 28, 31, 30, 31, 30, 31, 31, 30, 31, 30, 31];
    var leap := (year % 4 == 0 && year % 100 != 0) || year % 400 == 0;
    var days := (year - 1970) * 365 + (year - 1969) / 4 - (year - 1901) / 100 + (year - 1601) / 400;
    YearStartClosed(year);
    var m := 1;
    while m < month
      invariant 1 <= m <= 13 && (m <= month || m == 1) && days == YearStart(year) + MonthStart(year, m)
      decreases month - m
    {
      if m >= |daysInMonth| {
        return None;
      }
      days := days + daysInMonth[m];
      if m == 2 && leap {
        days := days + 1;
      }
      m := m + 1;
    }
    days := days + day - 1;
    if IsDate(year, month, day) {
      ForwardCountsSeconds(year, month, day, hour, min, sec);
    }
    t := Some(days * 86400 + hour * 3600 + min * 60 + sec);
  }

  // ---- agreement ----

  /** Leap days up to the end of year y. */
  function Leaps(y: int): int {
    y / 4 - y / 100 + y / 400
  }

  lemma LeapsStep(y: int)
    ensures Leaps(y) == Leaps(y - 1) + if IsLeap(y) then 1 else 0
  {
    Step4(y);
    Step100(y);
    Step400(y);
  }

  lemma Step4(y: int)
    ensures y / 4 == (y - 1) / 4 + if y % 4 == 0 then 1 else 0
  {
  }

  lemma Step100(y: int)
    ensures y / 100 == (y - 1) / 100 + if y % 100 == 0 then 1 else 0
    ensures y % 100 == 0 ==> y % 4 == 0
  {
    assert y == 100 * (y / 100) + y % 100;
  }

  lemma Step400(y: int)
    ensures y / 400 == (y - 1) / 400 + if y % 400 == 0 then 1 else 0
    ensures y % 400 == 0 ==> y % 100 == 0
  {
    var q, r := (y - 1) / 400, (y - 1) % 400;
    if r == 399 {
      Divides400(q + 1, 0);
      Divides100(4 * (q + 1));
    } else {
      Divides400(q, r + 1);
    }
  }

  lemma Divides400(q: int, r: int)
    requires 0 <= r < 400
    ensures (400 * q + r) / 400 == q && (400 * q + r) % 400 == r
  {
  }

  lemma Divides100(q: int)
    ensures (100 * q) % 100 == 0
  {
  }

  lemma {:induction false} YearStartCounts(y: int)
    ensures YearStart(y) == 365 * (y - 1970) + Leaps(y - 1) - 477
    decreases if y < 1970 then 1970 - y else y - 1970
  {
    if y > 1970 {
      YearStartCounts(y - 1);
      LeapsStep(y - 1);
    } else if y < 1970 {
      YearStartCounts(y + 1);
      LeapsStep(y);
    }
  }

  lemma {:induction false} YearStartClosed(y: int)
    ensures YearStart(y) == (y - 1970) * 365 + (y - 1969) / 4 - (y - 1901) / 100 + (y - 1601) / 400
  {
    YearStartCounts(y);
    assert (y - 1969) / 4 == (y - 1) / 4 - 492;
    assert (y - 1901) / 100 == (y - 1) / 100 - 19;
    assert (y - 1601) / 400 == (y - 1) / 400 - 4;
  }

  lemma {:induction false} MonthStarts(y: int)
    ensures MonthStart(y, 1) == 0 && MonthStart(y, 2) == 31
    ensures var f := if IsLeap(y) then 1 else 0;
      && MonthStart(y, 3) == 59 + f && MonthStart(y, 4) == 90 + f && MonthStart(y, 5) == 120 + f
      && MonthStart(y, 6) == 151 + f && MonthStart(y, 7) == 181 + f && MonthStart(y, 8) == 212 + f
      && MonthStart(y, 9) == 243 + f && MonthStart(y, 10) == 273 + f && MonthStart(y, 11) == 304 + f
      && MonthStart(y, 12) == 334 + f && MonthStart(y, 13) == 365 + f
  {
    assert MonthStart(y, 3) == MonthStart(y, 2) + MonthLength(y, 2);
    assert MonthStart(y, 5) == MonthStart(y, 4) + MonthLength(y, 4);
    assert MonthStart(y, 7) == MonthStart(y, 6) + MonthLength(y, 6);
    assert MonthStart(y, 9) == MonthStart(y, 8) + MonthLength(y, 8);
    assert MonthStart(y, 11) == MonthStart(y, 10) + MonthLength(y, 10);
    assert MonthStart(y, 13) == MonthStart(y, 12) + MonthLength(y, 12);
  }

  /** A March-based year in closed form. */
  lemma MarchYear(y: int)
    ensures var era := y / 400; var yoe := y - era * 400;
      && 0 <= yoe < 400
      && era * 146097 + yoe * 365 + yoe / 4 - yoe / 100 == 365 * y + Leaps(y)
  {
    var era := y / 400;
    assert y / 4 == 100 * era + (y - era * 400) / 4;
    assert y / 100 == 4 * era + (y - era * 400) / 100;
  }

  /** The forward algorithm counts days. */
  lemma ForwardCountsDays(y: int, m: int, d: int)
    requires 1 <= m <= 12
    ensures MarchDays(y, m, d) - 719468 == DayNumber(y, m, d)
  {
    MonthStarts(y);
    YearStartCounts(y);
    LeapsStep(y);
    MarchYear(if m <= 2 then y - 1 else y);
  }

  lemma ForwardCountsSeconds(y: int, m: int, d: int, h: int, mi: int, s: int)
    requires 1 <= m <= 12
    ensures CivilToUnix(y, m, d, h, mi, s) == DayNumber(y, m, d) * 86400 + h * 3600 + mi * 60 + s
  {
    ForwardCountsDays(y, m, d);
  }

  // ---- backward ----

  /** A day of an era of 400 years, from its century, olympiad and year within them. */
  lemma YearOfEraAt(c: int, q: int, p: int, doy: int)
    requires 0 <= c <= 3 && 0 <= q <= 24 && 0 <= p <= 3 && 0 <= doy <= 365
    requires doy == 365 ==> p == 3 && (q == 24 ==> c == 3)
    ensures var doe := 36524 * c + 1461 * q + 365 * p + doy;
      0 <= doe < 146097 && YearOfEra(doe) == 100 * c + 4 * q + p && DayOfYear(doe) == doy
  {
    var doe, yoe := 36524 * c + 1461 * q + 365 * p + doy, 100 * c + 4 * q + p;
    assert yoe / 4 == 25 * c + q && yoe / 100 == c;
    if doe < 146096 {
      var e := if 24 * c + q + 365 * p + doy >= 1460 then 1 else 0;
      EraQuotients(c, q, p, doy);
      Div365(yoe, doy - e);
    }
  }

  lemma EraQuotients(c: int, q: int, p: int, doy: int)
    requires 0 <= c <= 3 && 0 <= q <= 24 && 0 <= p <= 3 && 0 <= doy <= 365
    requires doy == 365 ==> p == 3 && (q == 24 ==> c == 3)
    requires 36524 * c + 1461 * q + 365 * p + doy < 146096
    ensures var doe := 36524 * c + 1461 * q + 365 * p + doy;
      && doe / 1460 == 25 * c + q + (if 24 * c + q + 365 * p + doy >= 1460 then 1 else 0)
      && doe / 36524 == c && doe / 146096 == 0
  {
    var over := 24 * c + q + 365 * p + doy;
    var e := if over >= 1460 then 1 else 0;
    Div1460(25 * c + q + e, over - 1460 * e);
    Div36524(c, 1461 * q + 365 * p + doy);
  }

  lemma Div1460(k: int, r: int)
    requires 0 <= r < 1460
    ensures (1460 * k + r) / 1460 == k
  {
  }

  lemma Div36524(k: int, r: int)
    requires 0 <= r < 36524
    ensures (36524 * k + r) / 36524 == k
  {
  }

  lemma Div365(k: int, r: int)
    requires 0 <= r < 365
    ensures (365 * k + r) / 365 == k
  {
  }

  predicate IsDayOfEra(yoe: int, doy: int) {
    0 <= yoe < 400 && 0 <= doy <= 365 && (doy == 365 ==> IsLeap(yoe + 1))
  }

  lemma YearOfEraInverts(yoe: int, doy: int)
    requires IsDayOfEra(yoe, doy)
    ensures var doe := yoe * 365 + yoe / 4 - yoe / 100 + doy;
      0 <= doe < 146097 && YearOfEra(doe) == yoe && DayOfYear(doe) == doy
  {
    var c, r := yoe / 100, yoe % 100;
    var q, p := r / 4, r % 4;
    assert yoe == 100 * c + 4 * q + p;
    assert yoe / 4 == 25 * c + q;
    YearOfEraAt(c, q, p, doy);
  }

  lemma YearOfEraRange(doe: int)
    requires 0 <= doe < 146097
    ensures IsDayOfEra(YearOfEra(doe), DayOfYear(doe))
  {
    hide YearOfEra, DayOfYear, IsLeap;
    var c := if doe / 36524 < 3 then doe / 36524 else 3;
    var t := doe - 36524 * c;
    var q := t / 1461;
    var u := t - 1461 * q;
    var p := if u / 365 < 3 then u / 365 else 3;
    assert 0 <= t <= 36524 && 0 <= u <= 1460;
    YearOfEraAt(c, q, p, u - 365 * p);
    if u == 1460 {
      LastYearIsLeap(c, q);
    }
  }

  lemma LastYearIsLeap(c: int, q: int)
    requires 0 <= c <= 3 && 0 <= q <= 24 && (q == 24 ==> c == 3)
    ensures IsLeap(100 * c + 4 * q + 3 + 1)
  {
    Mod100(4 * q + 4, c);
  }

  lemma MonthAndDayInvert(m: int, d: int)
    requires 1 <= m <= 12 && 1 <= d <= (if m == 2 then 29 else MonthLength(1, m))
    ensures var doy := (153 * (if m > 2 then m - 3 else m + 9) + 2) / 5 + d - 1;
      0 <= doy <= 365 && (doy == 365 <==> m == 2 && d == 29) && MonthOf(doy) == m && DayOf(doy) == d
  {
  }

  lemma MonthAndDayRange(doy: int)
    requires 0 <= doy <= 365
    ensures var m, d := MonthOf(doy), DayOf(doy);
      && 1 <= m <= 12 && 1 <= d <= (if m == 2 then (if doy == 365 then 29 else 28) else MonthLength(1, m))
      && (153 * (if m > 2 then m - 3 else m + 9) + 2) / 5 + d - 1 == doy
  {
  }

  lemma Mod4(a: int, k: int)
    ensures (4 * k + a) % 4 == a % 4
  {
  }

  lemma Mod60(a: int, k: int)
    ensures (60 * k + a) % 60 == a % 60
  {
  }

  lemma Mod100(a: int, k: int)
    ensures (100 * k + a) % 100 == a % 100
  {
  }

  lemma Mod400(a: int, k: int)
    ensures (400 * k + a) % 400 == a % 400
  {
  }

  lemma LeapRepeats(era: int, y: int)
    ensures IsLeap(era * 400 + y) == IsLeap(y)
  {
    Mod4(y, 100 * era);
    Mod100(y, 4 * era);
    Mod400(y, era);
  }

  lemma DateAt(era: int, yoe: int, doy: int)
    requires era >= 0 && IsDayOfEra(yoe, doy)
    ensures var m, d := MonthOf(doy), DayOf(doy);
      var y := if m <= 2 then yoe + era * 400 + 1 else yoe + era * 400;
      && y >= 0 && IsDate(y, m, d)
      && MarchDays(y, m, d) == era * 146097 + (yoe * 365 + yoe / 4 - yoe / 100 + doy)
  {
    MonthAndDayRange(doy);
    LeapRepeats(era, yoe + 1);
    assert (yoe + era * 400) / 400 == era;
  }

  lemma DaysRoundTrip(z: int)
    requires z >= 0
    ensures var (y, m, d) := CivilFromDays(z);
      IsDate(y, m, d) && MarchDays(y, m, d) == z && y >= 0
  {
    hide MarchDays, MonthOf, DayOf, IsDate, YearOfEra, IsDayOfEra;
    var era := z / 146097;
    var doe := z - era * 146097;
    assert 0 <= doe < 146097;
    YearOfEraRange(doe);
    DateAt(era, YearOfEra(doe), DayOfYear(doe));
  }

  /** The backward algorithm finds the valid date with this day number. */
  lemma BackwardFindsDate(secs: nat)
    ensures var (y, m, d) := FormattedDate(secs);
      IsDate(y, m, d) && DayNumber(y, m, d) == secs / 86400
  {
    hide MarchDays, YearOfEra, DayOfYear, MonthOf, DayOf;
    DaysRoundTrip(secs / 86400 + 719468);
    var (y, m, d) := FormattedDate(secs);
    ForwardCountsDays(y, m, d);
  }

  lemma MarchYearDay(y: int, m: int, d: int)
    requires IsDate(y, m, d)
    ensures var y' := if m <= 2 then y - 1 else y;
      IsDayOfEra(y' - y' / 400 * 400, (153 * (if m > 2 then m - 3 else m + 9) + 2) / 5 + d - 1)
  {
    var y' := if m <= 2 then y - 1 else y;
    MonthAndDayInvert(m, d);
    LeapRepeats(y' / 400, y' - y' / 400 * 400 + 1);
  }

  lemma DaysInvert(y: int, m: int, d: int)
    requires IsDate(y, m, d)
    ensures CivilFromDays(MarchDays(y, m, d)) == (y, m, d)
  {
    hide YearOfEra, DayOfYear, MonthOf, DayOf, IsDayOfEra;
    var y' := if m <= 2 then y - 1 else y;
    var era := y' / 400;
    var yoe := y' - era * 400;
    var doy := (153 * (if m > 2 then m - 3 else m + 9) + 2) / 5 + d - 1;
    MarchYearDay(y, m, d);
    MonthAndDayInvert(m, d);
    YearOfEraInverts(yoe, doy);
    EraOf(era, yoe * 365 + yoe / 4 - yoe / 100 + doy);
  }

  lemma EraOf(era: int, doe: int)
    requires 0 <= doe < 146097
    ensures (era * 146097 + doe) / 146097 == era
  {
  }

  /** Every valid date is the one the backward algorithm finds for its timestamp. */
  lemma BackwardInvertsForward(y: int, m: int, d: int, h: int, mi: int, s: int)
    requires IsDate(y, m, d) && 0 <= h < 24 && 0 <= mi < 60 && 0 <= s < 60
    requires CivilToUnix(y, m, d, h, mi, s) >= 0
    ensures FormattedDate(CivilToUnix(y, m, d, h, mi, s)) == (y, m, d)
  {
    hide MarchDays, CivilFromDays;
    DaysInvert(y, m, d);
  }

  lemma TimeOfDay(s: int)
    requires 0 <= s < 86400
    ensures s / 3600 * 3600 + s % 3600 / 60 * 60 + s % 60 == s
    ensures 0 <= s / 3600 < 24 && 0 <= s % 3600 / 60 < 60
  {
    var r := s % 3600;
    assert s == 60 * (60 * (s / 3600)) + r;
    Mod60(r, 60 * (s / 3600));
  }

  lemma WrapThenStep(y: int)
    ensures (y % U32 + 1) % U32 == (y + 1) % U32
  {
  }

  /** The 32-bit cast replaces the year by its low 32 bits and nothing else. */
  lemma CastKeepsDate(secs: nat)
    ensures var (y, m, d) := FormattedDate(secs); var c := CivilFromUnix(secs);
      var s := secs % 86400;
      c == Civil(y % U32, m, d, s / 3600, s % 3600 / 60, s % 60)
  {
    var z := secs / 86400 + 719468;
    var era := z / 146097;
    WrapThenStep(YearOfEra(z - era * 146097) + era * 400);
  }

  lemma EarlierYearIsEarlier(y: int, y': int, m: int, d: int)
    requires y < y' && 1 <= m <= 12
    ensures DayNumber(y, m, d) < DayNumber(y', m, d)
    decreases y' - y
  {
    MonthStarts(y);
    MonthStarts(y + 1);
    YearStartCounts(y);
    YearStartCounts(y + 1);
    LeapsStep(y);
    if y + 1 < y' {
      EarlierYearIsEarlier(y + 1, y', m, d);
    }
  }

  /** civil_to_unix undoes civil_from_unix exactly when the year fits 32 bits. */
  lemma ForwardInvertsBackwardIff(secs: nat)
    ensures var c := CivilFromUnix(secs);
      CivilToUnix(c.year, c.month, c.day, c.hour, c.minute, c.second) == secs <==> FormattedDate(secs).0 < U32
  {
    hide CivilFromDays, CivilFromUnix, MarchDays, DayNumber;
    var c := CivilFromUnix(secs);
    var (y, m, d) := FormattedDate(secs);
    CastKeepsDate(secs);
    TimeOfDay(secs % 86400);
    hide MarchDays, YearOfEra, DayOfYear, MonthOf, DayOf;
    DaysRoundTrip(secs / 86400 + 719468);
    BackwardFindsDate(secs);
    ForwardCountsDays(c.year, m, d);
    assert secs == secs / 86400 * 86400 + secs % 86400;
    if y >= U32 {
      EarlierYearIsEarlier(c.year, y, m, d);
    }
  }

  lemma SplitTime(days: int, h: int, mi: int, s: int)
    requires 0 <= h < 24 && 0 <= mi < 60 && 0 <= s < 60
    ensures var t := days * 86400 + h * 3600 + mi * 60 + s;
      t / 86400 == days && t % 86400 == h * 3600 + mi * 60 + s
    ensures var r := h * 3600 + mi * 60 + s;
      r / 3600 == h && r % 3600 / 60 == mi && r % 60 == s
  {
    var r := h * 3600 + mi * 60 + s;
    assert r / 3600 == h && r % 3600 == mi * 60 + s;
    Mod60(s, 60 * h + mi);
  }

  /** civil_from_unix undoes civil_to_unix on every valid date and time from 1970 on
      whose year fits 32 bits. */
  lemma CivilRoundTrip(y: int, m: int, d: int, h: int, mi: int, s: int)
    requires IsDate(y, m, d) && 0 <= h < 24 && 0 <= mi < 60 && 0 <= s < 60
    requires CivilToUnix(y, m, d, h, mi, s) >= 0 && y < U32
    ensures CivilFromUnix(CivilToUnix(y, m, d, h, mi, s)) == Civil(y, m, d, h, mi, s)
  {
    hide CivilFromDays, MarchDays, CivilFromUnix;
    var secs := CivilToUnix(y, m, d, h, mi, s);
    BackwardInvertsForward(y, m, d, h, mi, s);
    CastKeepsDate(secs);
    hide MarchDays, YearOfEra, DayOfYear, MonthOf, DayOf;
    DaysRoundTrip(secs / 86400 + 719468);
    SplitTime(MarchDays(y, m, d) - 719468, h, mi, s);
  }
}
