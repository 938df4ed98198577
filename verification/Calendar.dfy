/** Civil dates and day numbers: kernel/src/crypto/x509.rs and the inverse in
    kernel/src/apps/terminal.rs. */
module Calendar {
  import opened Arith
  import opened Octets
  import opened Wrappers

  // ---- the calendar itself --------------------------------------------------------

  predicate Leap(y: int)
  {
    y % 4 == 0 && (y % 100 != 0 || y % 400 == 0)
  }

  function MonthLength(y: int, m: int): int
    requires 1 <= m <= 12
  {
    if m == 2 then (if Leap(y) then 29 else 28)
    else if m == 4 || m == 6 || m == 9 || m == 11 then 30
    else 31
  }

  datatype Date = Date(y: int, m: int, d: int) {
    predicate Valid()
    {
      1 <= m <= 12 && 1 <= d <= MonthLength(y, m)
    }
  }

  /** The day after a date. */
  function NextDay(c: Date): (n: Date)
    requires c.Valid()
    ensures n.Valid()
  {
    if c.d < MonthLength(c.y, c.m) then Date(c.y, c.m, c.d + 1)
    else if c.m < 12 then Date(c.y, c.m + 1, 1)
    else Date(c.y + 1, 1, 1)
  }

  predicate Before(a: Date, b: Date)
  {
    a.y < b.y || (a.y == b.y && (a.m < b.m || (a.m == b.m && a.d < b.d)))
  }

  // ---- days_from_civil ------------------------------------------------------------

  /** Division that truncates toward zero, as the source's does. */
  function Quotient(a: int, b: int): int
    requires b > 0
  {
    if a >= 0 then a / b else -((-a) / b)
  }

  function DaysFromCivil(y0: int, m: int, d: int): int
    requires 1 <= m <= 12
  {
    var y := if m <= 2 then y0 - 1 else y0;
    var era := Quotient(if y >= 0 then y else y - 399, 400);
    var yoe := y - era * 400;
    var mp := (m + 9) % 12;
    var doy := (153 * mp + 2) / 5 + d - 1;
    var doe := yoe * 365 + yoe / 4 - yoe / 100 + doy;
    era * 146097 + doe - 719468
  }

  /** Days before the March-based year y, counted from 0000-03-01. */
  function YearStart(y: int): int
  {
    365 * y + y / 4 - y / 100 + y / 400
  }

  lemma FloorEra(y: int)
    ensures Quotient(if y >= 0 then y else y - 399, 400) == y / 400
  {
  }

  lemma EraShift(e: int, yoe: int)
    requires 0 <= yoe < 400
    ensures (400 * e + yoe) / 4 == 100 * e + yoe / 4
    ensures (400 * e + yoe) / 100 == 4 * e + yoe / 100
    ensures (400 * e + yoe) / 400 == e
  {
  }

  /** Days of the year before month m, years starting in March. */
  function DaysBefore(m: int): int
    requires 1 <= m <= 12
  {
    (153 * ((m + 9) % 12) + 2) / 5
  }

  function MarchYear(y: int, m: int): int
  {
    if m <= 2 then y - 1 else y
  }

  /** The eras cancel: a closed form with floor divisions. */
  lemma ClosedForm(y: int, m: int, d: int)
    requires 1 <= m <= 12
    ensures DaysFromCivil(y, m, d) == YearStart(MarchYear(y, m)) + DaysBefore(m) + d - 1 - 719468
  {
    var y' := MarchYear(y, m);
    FloorEra(y');
    EraShift(y' / 400, y' % 400);
  }

  /** Day numbers are consecutive: the whole function follows from this and one date. */
  lemma DaysStep(c: Date)
    requires c.Valid()
    ensures DaysFromCivil(NextDay(c).y, NextDay(c).m, NextDay(c).d) == DaysFromCivil(c.y, c.m, c.d) + 1
  {
    hide DaysFromCivil, YearStart, MonthLength, Leap;
    var n := NextDay(c);
    ClosedForm(c.y, c.m, c.d);
    ClosedForm(n.y, n.m, n.d);
    YearGrows(c.y - 1);
    MonthStarts(c.y, c.m);
  }

  /** The March-based year y + 1 ends with the February of year y + 1. */
  lemma YearGrows(y: int)
    ensures YearStart(y + 1) == YearStart(y) + 365 + if Leap(y + 1) then 1 else 0
  {
    NextQuotient(y, 4);
    NextQuotient(y, 100);
    NextQuotient(y, 400);
    Multiples(y + 1);
  }

  lemma NextQuotient(y: int, k: int)
    requires k > 1
    ensures (y + 1) / k == y / k + if (y + 1) % k == 0 then 1 else 0
  {
    var q, r := y / k, y % k;
    assert y == q * k + r;
    if r == k - 1 { DivModUnique(y + 1, q + 1, 0, k); } else { DivModUnique(y + 1, q, r + 1, k); }
  }

  lemma Multiples(y: int)
    ensures y % 100 == 0 ==> y % 4 == 0
    ensures y % 400 == 0 ==> y % 100 == 0
  {
  }

  lemma DaysBeforeTable()
    ensures DaysBefore(3) == 0 && DaysBefore(4) == 31 && DaysBefore(5) == 61 && DaysBefore(6) == 92
    ensures DaysBefore(7) == 122 && DaysBefore(8) == 153 && DaysBefore(9) == 184 && DaysBefore(10) == 214
    ensures DaysBefore(11) == 245 && DaysBefore(12) == 275 && DaysBefore(1) == 306 && DaysBefore(2) == 337
  {
  }

  lemma MonthStarts(y: int, m: int)
    requires 1 <= m <= 12
    ensures m == 2 ==> DaysBefore(m) + MonthLength(y, m) == 365 + if Leap(y) then 1 else 0
    ensures m != 2 ==> DaysBefore(m) + MonthLength(y, m) == DaysBefore(if m == 12 then 1 else m + 1)
  {
    hide Leap, DaysBefore;
    DaysBeforeTable();
  }

  lemma Epoch()
    ensures DaysFromCivil(1970, 1, 1) == 0
  {
  }

  // ---- the inverse -------------------------------------------------------------------

  function YearWithin(doe: int): int
  {
    (doe - doe / 1460 + doe / 36524 - doe / 146096) / 365
  }

  function YearDays(yoe: int): int
  {
    365 * yoe + yoe / 4 - yoe / 100
  }

  /** The date of day `doy` of the March-based year y. */
  function MonthAndDay(y: int, doy: int): Date
  {
    var mp := (5 * doy + 2) / 153;
    var d := doy - (153 * mp + 2) / 5 + 1;
    var m := if mp < 10 then mp + 3 else mp - 9;
    Date(if m <= 2 then y + 1 else y, m, d)
  }

  /** The date that print_date shows for a day number. */
  function CivilFromDays(days: nat): Date
  {
    var z := days + 719468;
    var era := z / 146097;
    var doe := z - era * 146097;
    var yoe := YearWithin(doe);
    MonthAndDay(yoe + era * 400, doe - YearDays(yoe))
  }

  lemma CenturyOf(c: int, t: int)
    requires 0 <= c < 4 && 0 <= t <= 36524 && (t == 36524 ==> c == 3)
    ensures (36524 * c + t) / 36524 - (36524 * c + t) / 146096 == c
  {
    if t == 36524 {
    } else {
      DivModUnique(36524 * c + t, c, t, 36524);
      DivModUnique(36524 * c + t, 0, 36524 * c + t, 146096);
    }
  }

  /** Century, four-year cycle, year and day recover the year of the era. */
  lemma YearOfEra(c: int, q: int, r: int, doy: int)
    requires 0 <= c < 4 && 0 <= q < 25 && 0 <= r < 4 && 0 <= doy <= 365
    requires doy == 365 ==> r == 3 && (q < 24 || c == 3)
    ensures var doe := 36524 * c + 1461 * q + 365 * r + doy;
            YearWithin(doe) == 100 * c + 4 * q + r
  {
    var s := 365 * r + doy;
    var doe := 36524 * c + 1461 * q + s;
    var e := (24 * c + q + s) / 1460;
    assert doe / 1460 == 25 * c + q + e by {
      DivModUnique(doe, 25 * c + q + e, (24 * c + q + s) % 1460, 1460);
    }
    CenturyOf(c, 1461 * q + s);
    assert doe - doe / 1460 + c == 365 * (100 * c + 4 * q + r) + (doy - e);
    DivModUnique(doe - doe / 1460 + c, 100 * c + 4 * q + r, doy - e, 365);
  }

  /** The day of the era, in the source's form and in cycles. */
  lemma EraForm(yoe: int)
    requires 0 <= yoe < 400
    ensures var c, q, r := yoe / 100, yoe % 100 / 4, yoe % 4;
            && 0 <= c < 4 && 0 <= q < 25 && 0 <= r < 4 && yoe == 100 * c + 4 * q + r
            && YearDays(yoe) == 36524 * c + 1461 * q + 365 * r
  {
  }

  /** Days into the March-based year, and how many there are. */
  function DayOfYear(c: Date): int
    requires c.Valid()
  {
    DaysBefore(c.m) + c.d - 1
  }

  lemma DayOfYearBound(c: Date)
    requires c.Valid()
    ensures 0 <= DayOfYear(c) < 365 + if Leap(MarchYear(c.y, c.m) + 1) then 1 else 0
    ensures DayOfYear(c) == 365 ==> c.m == 2 && c.d == 29
  {
  }

  lemma MonthOfDay(c: Date)
    requires c.Valid()
    ensures MonthAndDay(MarchYear(c.y, c.m), DayOfYear(c)) == c
  {
    hide Leap;
  }

  lemma LeapEnd(e: int, yoe: int)
    requires 0 <= yoe < 400 && Leap(400 * e + yoe + 1)
    ensures yoe % 4 == 3 && (yoe % 100 / 4 < 24 || yoe / 100 == 3)
  {
    var y, q, c := 400 * e + yoe + 1, yoe / 4, yoe / 100;
    if yoe % 4 < 3 {
      DivModUnique(y, 100 * e + q, yoe % 4 + 1, 4);
    } else if yoe % 100 == 99 {
      DivModUnique(y, 4 * e + c + 1, 0, 100);
      if c < 3 { DivModUnique(y, e, 100 * (c + 1), 400); }
    }
  }

  /** print_date undoes days_from_civil on every valid date from 1970 on. */
  lemma CivilUndoesDays(c: Date)
    requires c.Valid() && DaysFromCivil(c.y, c.m, c.d) >= 0
    ensures CivilFromDays(DaysFromCivil(c.y, c.m, c.d)) == c
  {
    var y := MarchYear(c.y, c.m);
    var e, yoe, doy := y / 400, y % 400, DayOfYear(c);
    MonthOfDay(c);
    YearAndDay(c);
    InEra(c);
    hide *;
    EraDivision(e, YearDays(yoe) + doy);
    Composed(DaysFromCivil(c.y, c.m, c.d), e, YearDays(yoe) + doy, yoe, doy);
  }

  /** The day number is an era and a day of it. */
  lemma InEra(c: Date)
    requires c.Valid()
    ensures var y := MarchYear(c.y, c.m);
            DaysFromCivil(c.y, c.m, c.d) + 719468 == y / 400 * 146097 + (YearDays(y % 400) + DayOfYear(c))
  {
    var y := MarchYear(c.y, c.m);
    ClosedForm(c.y, c.m, c.d);
    EraShift(y / 400, y % 400);
    hide DaysFromCivil;
  }

  lemma YearAndDay(c: Date)
    requires c.Valid()
    ensures var y := MarchYear(c.y, c.m);
            var yoe, doy := y % 400, DayOfYear(c);
            0 <= YearDays(yoe) + doy < 146097 && YearWithin(YearDays(yoe) + doy) == yoe
  {
    var y := MarchYear(c.y, c.m);
    var yoe, doy := y % 400, DayOfYear(c);
    EraForm(yoe);
    DayOfYearBound(c);
    if doy == 365 { LeapEnd(y / 400, yoe); }
    hide YearWithin, YearDays, DayOfYear;
    YearOfEra(yoe / 100, yoe % 100 / 4, yoe % 4, doy);
  }

  lemma Composed(days: nat, e: int, doe: int, yoe: int, doy: int)
    requires days + 719468 == e * 146097 + doe && (e * 146097 + doe) / 146097 == e
    requires YearWithin(doe) == yoe && doe == YearDays(yoe) + doy
    ensures CivilFromDays(days) == MonthAndDay(yoe + e * 400, doy)
  {
    hide YearWithin, YearDays, MonthAndDay;
  }

  lemma EraDivision(e: int, doe: int)
    requires 0 <= doe < 146097
    ensures (e * 146097 + doe) / 146097 == e
  {
    DivModUnique(e * 146097 + doe, e, doe, 146097);
  }

  /** Some valid date has any given day number. */
  lemma {:induction false} DateOf(days: nat) returns (c: Date)
    ensures c.Valid() && DaysFromCivil(c.y, c.m, c.d) == days
  {
    if days == 0 {
      Epoch();
      c := Date(1970, 1, 1);
    } else {
      var b := DateOf(days - 1);
      DaysStep(b);
      c := NextDay(b);
    }
  }

  /** The other direction: every day number prints as a valid date with that number. */
  lemma DaysUndoesCivil(days: nat)
    ensures CivilFromDays(days).Valid()
    ensures var c := CivilFromDays(days); DaysFromCivil(c.y, c.m, c.d) == days
  {
    var c := DateOf(days);
    CivilUndoesDays(c);
  }

  // ---- order --------------------------------------------------------------------------

  lemma {:induction false} YearsGrow(a: int, b: int)
    requires a < b
    ensures YearStart(a + 1) <= YearStart(b)
    decreases b - a
  {
    if a + 1 < b {
      YearsGrow(a, b - 1);
      YearGrows(b - 1);
    }
  }

  /** A day of some month, possibly past the month's end, as certificates may name one. */
  predicate Named(c: Date)
  {
    1 <= c.m <= 12 && 1 <= c.d <= 31
  }

  function Day(c: Date): int
    requires Named(c)
  {
    DaysFromCivil(c.y, c.m, c.d)
  }

  /** A valid date has a smaller number than every later named one. */
  lemma LaterIsLarger(a: Date, b: Date)
    requires a.Valid() && Named(b) && Before(a, b)
    ensures Day(a) < Day(b)
  {
    var ya, yb := MarchYear(a.y, a.m), MarchYear(b.y, b.m);
    MarchOrder(a, b);
    ClosedForm(a.y, a.m, a.d);
    ClosedForm(b.y, b.m, b.d);
    if ya < yb {
      YearEnds(a);
      hide YearStart, DaysFromCivil;
      YearsGrow(ya, yb);
    } else if a.m != b.m {
      hide YearStart, DaysFromCivil;
      LaterMonth(a, b.m);
    }
  }

  /** The order of dates, read in March-based years. */
  lemma MarchOrder(a: Date, b: Date)
    requires a.Valid() && Named(b) && Before(a, b)
    ensures var ya, yb := MarchYear(a.y, a.m), MarchYear(b.y, b.m);
            ya < yb || (ya == yb && ((a.m + 9) % 12 < (b.m + 9) % 12 || (a.m == b.m && a.d < b.d)))
  {
  }

  /** A valid date comes before the next March-based year. */
  lemma YearEnds(a: Date)
    requires a.Valid()
    ensures YearStart(MarchYear(a.y, a.m)) + DaysBefore(a.m) + a.d - 1 < YearStart(MarchYear(a.y, a.m) + 1)
  {
    DayOfYearBound(a);
    YearGrows(MarchYear(a.y, a.m));
    hide YearStart;
  }

  /** Within a March-based year, a valid date comes before the start of any later month. */
  lemma LaterMonth(a: Date, m: int)
    requires a.Valid() && 1 <= m <= 12 && (a.m + 9) % 12 < (m + 9) % 12
    ensures DaysBefore(a.m) + a.d - 1 < DaysBefore(m)
  {
    MonthStarts(a.y, a.m);
    var next := if a.m == 12 then 1 else a.m + 1;
    assert DaysBefore(next) <= DaysBefore(m);
  }

  /** A named date past its month's end is numbered no earlier than the next month's first day. */
  lemma OverflowsMonth(c: Date)
    requires Named(c) && !c.Valid()
    ensures c.m < 12 && Day(c) >= Day(Date(c.y, c.m + 1, 1))
  {
    hide DaysFromCivil, YearStart, Leap;
    ClosedForm(c.y, c.m, c.d);
    ClosedForm(c.y, c.m + 1, 1);
    MonthStarts(c.y, c.m);
    YearGrows(c.y - 1);
  }

  // ---- certificate times ------------------------------------------------------------------

  datatype Time = Time(date: Date, h: int, mi: int, s: int) {
    /** The ranges parse_time accepts: a year of four digits, any day up to 31, and a leap second. */
    predicate Accepted()
    {
      Named(date) && 0 <= date.y <= 9999 && 0 <= h <= 23 && 0 <= mi <= 59 && 0 <= s <= 60
    }

    function Seconds(): int
      requires Accepted()
    {
      Day(date) * 86400 + h * 3600 + mi * 60 + s
    }
  }

  predicate Earlier(a: Time, b: Time)
  {
    Before(a.date, b.date) ||
    (a.date == b.date && (a.h < b.h || (a.h == b.h && (a.mi < b.mi || (a.mi == b.mi && a.s < b.s)))))
  }

  /** The last time parse_time accepts, a leap second with nothing after it. */
  const LAST: Time := Time(Date(9999, 12, 31), 23, 59, 60)

  /** parse_time orders a time before every later one it accepts exactly when it
      names a real day and no leap second, or is the last time of all. */
  lemma OrderedIffProper(t: Time)
    requires t.Accepted()
    ensures (t.date.Valid() && t.s <= 59) || t == LAST <==>
            forall u: Time :: u.Accepted() && Earlier(t, u) ==> t.Seconds() < u.Seconds()
  {
    hide Day;
    if t == LAST {
      forall u: Time | u.Accepted() ensures !Earlier(t, u) { }
    } else if t.date.Valid() && t.s <= 59 {
      forall u: Time | u.Accepted() && Earlier(t, u) ensures t.Seconds() < u.Seconds() {
        ProperOrder(t, u);
      }
    } else {
      var u := Misordered(t);
    }
  }

  lemma ProperOrder(t: Time, u: Time)
    requires t.Accepted() && t.date.Valid() && t.s <= 59 && u.Accepted() && Earlier(t, u)
    ensures t.Seconds() < u.Seconds()
  {
    hide Day;
    if Before(t.date, u.date) { LaterIsLarger(t.date, u.date); }
  }

  /** The day after is named in a four-digit year, except after the last day of 9999. */
  lemma NextNamed(d: Date)
    requires d.Valid() && 0 <= d.y <= 9999 && d != Date(9999, 12, 31)
    ensures Named(NextDay(d)) && 0 <= NextDay(d).y <= 9999 && Before(d, NextDay(d))
  {
    hide Leap;
  }

  /** A later accepted time with no larger number of seconds. */
  lemma Misordered(t: Time) returns (u: Time)
    requires t.Accepted() && !(t.date.Valid() && t.s <= 59) && t != LAST
    ensures u.Accepted() && Earlier(t, u) && t.Seconds() >= u.Seconds()
  {
    hide DaysFromCivil, Leap, MonthLength, NextDay;
    if !t.date.Valid() {
      OverflowsMonth(t.date);
      u := Time(Date(t.date.y, t.date.m + 1, 1), 0, 0, 0);
    } else if t.mi < 59 {
      u := t.(mi := t.mi + 1, s := 0);
    } else if t.h < 23 {
      u := t.(h := t.h + 1, mi := 0, s := 0);
    } else {
      DaysStep(t.date);
      NextNamed(t.date);
      u := Time(NextDay(t.date), 0, 0, 0);
    }
  }

  // ---- parsing -------------------------------------------------------------------------------

  const TAG_UTC_TIME: int := 0x17
  const TAG_GENERALIZED_TIME: int := 0x18

  predicate Digit(b: int)
  {
    48 <= b <= 57
  }

  function Two(b: seq<Byte>): Option<int>
  {
    if |b| < 2 || !Digit(b[0]) || !Digit(b[1]) then None
    else
      var hi: int, lo: int := b[0], b[1];
      Some((hi - 48) * 10 + lo - 48)
  }

  function Four(b: seq<Byte>): Option<int>
  {
    if |b| < 4 || !(forall i :: 0 <= i < |b| ==> Digit(b[i])) then None
    else
      var b0: int, b1: int, b2: int, b3: int := b[0], b[1], b[2], b[3];
      Some((b0 - 48) * 1000 + (b1 - 48) * 100 + (b2 - 48) * 10 + b3 - 48)
  }

  /** MM DD HH MM SS Z after the year. */
  function ParseRest(year: int, rest: seq<Byte>): Option<Time>
  {
    if |rest| < 11 || rest[10] != 90 then None
    else
      match (Two(rest[0..2]), Two(rest[2..4]), Two(rest[4..6]), Two(rest[6..8]), Two(rest[8..10]))
      case (Some(mo), Some(d), Some(h), Some(mi), Some(s)) =>
        var t := Time(Date(year, mo, d), h, mi, s);
        if 1 <= mo <= 12 && 1 <= d <= 31 && h <= 23 && mi <= 59 && s <= 60 then Some(t) else None
      case _ => None
  }

  /** The century of a UTCTime. */
  function FullYear(y: int): int
  {
    if y >= 50 then 1900 + y else 2000 + y
  }

  function ParseFields(tag: int, body: seq<Byte>): Option<Time>
  {
    if tag == TAG_UTC_TIME then
      if |body| < 11 then None
      else
        match Two(body[0..2])
        case None => None
        case Some(yy) => ParseRest(FullYear(yy), body[2..])
    else if tag == TAG_GENERALIZED_TIME then
      if |body| < 13 then None
      else
        match Four(body[0..4])
        case None => None
        case Some(y) => ParseRest(y, body[4..])
    else None
  }

  /** Seconds since 1970 for a DER time, or None. */
  function ParseTime(tag: int, body: seq<Byte>): (r: Option<int>)
    ensures r.Some? <==> ParseFields(tag, body).Some?
    ensures r.Some? ==> ParseFields(tag, body).value.Accepted() && r.value == ParseFields(tag, body).value.Seconds()
  {
    match ParseFields(tag, body)
    case None => None
    case Some(t) =>
      AcceptedFields(tag, body);
      Some(DaysFromCivil(t.date.y, t.date.m, t.date.d) * 86400 + t.h * 3600 + t.mi * 60 + t.s)
  }

  lemma AcceptedFields(tag: int, body: seq<Byte>)
    requires ParseFields(tag, body).Some?
    ensures ParseFields(tag, body).value.Accepted()
  {
  }

  /** The decimal digits of a number below 100. */
  function Tens(v: int): Byte
    requires 0 <= v < 100
  {
    48 + v / 10
  }

  function Ones(v: int): Byte
    requires 0 <= v < 100
  {
    48 + v % 10
  }

  /** A time written as a GeneralizedTime. */
  function Written(t: Time): (w: seq<Byte>)
    requires t.Accepted()
    ensures |w| == 15
  {
    var c, y := t.date.y / 100, t.date.y % 100;
    [Tens(c), Ones(c), Tens(y), Ones(y), Tens(t.date.m), Ones(t.date.m), Tens(t.date.d), Ones(t.date.d),
     Tens(t.h), Ones(t.h), Tens(t.mi), Ones(t.mi), Tens(t.s), Ones(t.s), 90]
  }

  /** Two digits inside a string are read as their number. */
  lemma TwoReads(w: seq<Byte>, i: nat, v: int)
    requires 0 <= v < 100 && i + 2 <= |w| && w[i] == Tens(v) && w[i + 1] == Ones(v)
    ensures Two(w[i..i + 2]) == Some(v)
  {
    assert w[i..i + 2] == [w[i], w[i + 1]];
  }

  lemma FourReads(b: seq<Byte>, c: int, y: int)
    requires 0 <= c < 100 && 0 <= y < 100 && b == [Tens(c), Ones(c), Tens(y), Ones(y)]
    ensures Four(b) == Some(100 * c + y)
  {
  }

  lemma ParsesRest(t: Time, rest: seq<Byte>)
    requires t.Accepted() && |rest| >= 11 && rest[10] == 90
    requires Two(rest[0..2]) == Some(t.date.m) && Two(rest[2..4]) == Some(t.date.d)
    requires Two(rest[4..6]) == Some(t.h) && Two(rest[6..8]) == Some(t.mi) && Two(rest[8..10]) == Some(t.s)
    ensures ParseRest(t.date.y, rest) == Some(t)
  {
    hide Two;
  }

  /** The form the source reads for a tag: a UTCTime drops the century, for the years 1950 to 2049. */
  predicate IsWritten(tag: int, t: Time, body: seq<Byte>): (r: bool)
    ensures r ==> t.Accepted()
  {
    t.Accepted() &&
    ((tag == TAG_GENERALIZED_TIME && Written(t) <= body) ||
     (tag == TAG_UTC_TIME && 1950 <= t.date.y <= 2049 && Written(t)[2..] <= body))
  }

  lemma ParsesTail(t: Time, rest: seq<Byte>)
    requires t.Accepted() && Written(t)[4..] <= rest
    ensures ParseRest(t.date.y, rest) == Some(t)
  {
    hide Two, Tens, Ones, ParseRest;
    assert forall i :: 0 <= i < 11 ==> rest[i] == Written(t)[4..][i];
    TwoReads(rest, 0, t.date.m);
    TwoReads(rest, 2, t.date.d);
    TwoReads(rest, 4, t.h);
    TwoReads(rest, 6, t.mi);
    TwoReads(rest, 8, t.s);
    ParsesRest(t, rest);
  }

  /** Every accepted time is read back from its written forms, whatever follows them. */
  lemma ParsesWritten(tag: int, t: Time, body: seq<Byte>)
    requires IsWritten(tag, t, body)
    ensures ParseTime(tag, body) == Some(t.Seconds())
  {
    var w := Written(t);
    if tag == TAG_GENERALIZED_TIME {
      ParsesGeneralized(t, body);
    } else {
      ParsesUtc(t, body);
    }
    hide ParseFields, DaysFromCivil, Written;
  }

  lemma ParsesGeneralized(t: Time, body: seq<Byte>)
    requires t.Accepted() && Written(t) <= body
    ensures ParseFields(TAG_GENERALIZED_TIME, body) == Some(t)
  {
    hide Two, Tens, Ones, Four, ParseRest;
    var w, c, y := Written(t), t.date.y / 100, t.date.y % 100;
    assert body[0..4] == w[0..4] == [Tens(c), Ones(c), Tens(y), Ones(y)];
    assert w[4..] <= body[4..];
    FourReads(body[0..4], c, y);
    ParsesTail(t, body[4..]);
  }

  lemma ParsesUtc(t: Time, body: seq<Byte>)
    requires t.Accepted() && 1950 <= t.date.y <= 2049 && Written(t)[2..] <= body
    ensures ParseFields(TAG_UTC_TIME, body) == Some(t)
  {
    hide Two, Tens, Ones, Four, ParseRest;
    var w, y := Written(t), t.date.y % 100;
    assert body[0] == w[2..][0] && body[1] == w[2..][1];
    assert w[2..][2..] == w[4..] && w[4..] <= body[2..];
    TwoReads(body, 0, y);
    ParsesTail(t, body[2..]);
    assert t.date.y == FullYear(y);
  }

  lemma TwoWrites(b: seq<Byte>)
    requires |b| == 2 && Two(b).Some?
    ensures 0 <= Two(b).value < 100 && b == [Tens(Two(b).value), Ones(Two(b).value)]
  {
  }

  lemma FourWrites(b: seq<Byte>)
    requires |b| == 4 && Four(b).Some?
    ensures 0 <= Four(b).value <= 9999
    ensures var y := Four(b).value; b == [Tens(y / 100), Ones(y / 100), Tens(y % 100), Ones(y % 100)]
  {
    var a: int, b1: int, c: int, d: int := b[0] as int - 48, b[1] as int - 48, b[2] as int - 48, b[3] as int - 48;
    DivModUnique(Four(b).value, 10 * a + b1, 10 * c + d, 100);
    DivModUnique(10 * a + b1, a, b1, 10);
    DivModUnique(10 * c + d, c, d, 10);
  }

  /** What the fields after the year were written as. */
  lemma RestWrites(year: int, rest: seq<Byte>, t: Time)
    requires 0 <= year <= 9999 && ParseRest(year, rest) == Some(t)
    ensures t.Accepted() && t.date.y == year && Written(t)[4..] <= rest
  {
    TwoWrites(rest[0..2]);
    TwoWrites(rest[2..4]);
    TwoWrites(rest[4..6]);
    TwoWrites(rest[6..8]);
    TwoWrites(rest[8..10]);
    hide Two, Tens, Ones;
    assert rest[..10] == rest[0..2] + rest[2..4] + rest[4..6] + rest[6..8] + rest[8..10];
    assert Written(t)[4..] == rest[..10] + [90];
  }

  lemma UtcFields(body: seq<Byte>, t: Time) returns (y: int)
    requires ParseFields(TAG_UTC_TIME, body) == Some(t)
    ensures |body| >= 11 && 0 <= y < 100 && body[0..2] == [Tens(y), Ones(y)]
    ensures ParseRest(FullYear(y), body[2..]) == Some(t)
  {
    TwoWrites(body[0..2]);
    hide Two, Tens, Ones, ParseRest;
    y := Two(body[0..2]).value;
  }

  lemma ReadsUtc(body: seq<Byte>, t: Time)
    requires ParseFields(TAG_UTC_TIME, body) == Some(t)
    ensures t.Accepted() && 1950 <= t.date.y <= 2049 && Written(t)[2..] <= body
  {
    hide Two, Tens, Ones, ParseRest, ParseFields, Written;
    var y := UtcFields(body, t);
    RestWrites(FullYear(y), body[2..], t);
    WrittenYear(t, y);
    Prepended(Written(t)[2..], body, 2);
  }

  lemma ReadsGeneralized(body: seq<Byte>, t: Time)
    requires ParseFields(TAG_GENERALIZED_TIME, body) == Some(t)
    ensures t.Accepted() && Written(t) <= body
  {
    FourWrites(body[0..4]);
    hide Two, Tens, Ones, ParseRest, Four;
    RestWrites(Four(body[0..4]).value, body[4..], t);
    Prepended(Written(t), body, 4);
  }

  lemma WrittenYear(t: Time, y: int)
    requires t.Accepted() && t.date.y % 100 == y
    ensures Written(t)[2..][..2] == [Tens(y), Ones(y)] && Written(t)[2..][2..] == Written(t)[4..]
  {
    hide Tens, Ones;
  }

  lemma Prepended(w: seq<Byte>, body: seq<Byte>, k: nat)
    requires k <= |w| && k <= |body| && w[..k] == body[0..k] && w[k..] <= body[k..]
    ensures w <= body
  {
    assert w == w[..k] + w[k..];
    assert body == body[0..k] + body[k..];
  }

  lemma ReadsWritten(tag: int, body: seq<Byte>, t: Time)
    requires ParseFields(tag, body) == Some(t)
    ensures IsWritten(tag, t, body)
  {
    hide Two, Tens, Ones, ParseRest, Four, Written;
    if tag == TAG_UTC_TIME { ReadsUtc(body, t); } else { ReadsGeneralized(body, t); }
  }

  /** parse_time answers exactly for the written forms, and with the seconds of the time written. */
  lemma ParsesExactly(tag: int, body: seq<Byte>, v: int)
    ensures ParseTime(tag, body) == Some(v) <==> exists t :: IsWritten(tag, t, body) && t.Seconds() == v
  {
    hide ParseFields, DaysFromCivil, IsWritten;
    if ParseTime(tag, body) == Some(v) {
      ReadsWritten(tag, body, ParseFields(tag, body).value);
    }
    forall t | IsWritten(tag, t, body) ensures ParseTime(tag, body) == Some(t.Seconds()) {
      ParsesWritten(tag, t, body);
    }
  }
}
