/**
 * Calendar dates, days of the week and the academic-week table.
 *
 * A date is a count of days since 1 January 1970, which was a Thursday,
 * so `getDay()` (0 = Sunday … 6 = Saturday) is `(d + 4) % 7`. The seeding
 * script (`seedAcademicWeeks.ts`) wipes the table and writes, for every
 * year of a range, the 52 Monday-to-Sunday weeks that start on the first
 * Monday on or after 1 September; odd-numbered weeks are ODD, even-numbered
 * ones EVEN. Which day number 1 September of a year is (local time) is an
 * input of the model.
 */
module Calendar {
  import opened Common
  import opened Text

  type Day = int

  /** `Date.prototype.getDay()` and dayjs `day()`: 0 is Sunday, 1 Monday, … 6 Saturday. */
  function JsDay(d: Day): (w: nat)
    ensures w < 7
  {
    (d + 4) % 7
  }

  /** The values of the Prisma `DayOfWeek` enum (the schema that fixes their order is not part of this model). */
  datatype DayOfWeek = MON | TUE | WED | THU | FRI | SAT | SUN
  {
    /** Monday-first position: MON is 0, SUN is 6. */
    function Ordinal(): nat
    {
      match this
      case MON => 0 case TUE => 1 case WED => 2 case THU => 3
      case FRI => 4 case SAT => 5 case SUN => 6
    }

    /** The enum member's name, as a template literal renders it. */
    function Name(): string
    {
      match this
      case MON => "MON" case TUE => "TUE" case WED => "WED" case THU => "THU"
      case FRI => "FRI" case SAT => "SAT" case SUN => "SUN"
    }
  }

  /** The `weekDays` table of the holiday service, indexed by `getDay()`. */
  function WeekDayOf(d: Day): (w: DayOfWeek)
    ensures w.Ordinal() == (JsDay(d) + 6) % 7
  {
    [SUN, MON, TUE, WED, THU, FRI, SAT][JsDay(d)]
  }

  /** Distinct enum members have distinct names. */
  lemma DayNameInjective(a: DayOfWeek, b: DayOfWeek)
    requires a.Name() == b.Name()
    ensures a == b
  {
  }

  datatype WeekType = EVEN | ODD

  datatype AcademicWeek = AcademicWeek(
    academicYear: string,
    weekNumber: nat,
    startDate: Day,
    endDate: Day,
    weekType: WeekType)
  {
    predicate Contains(d: Day)
    {
      startDate <= d <= endDate
    }
  }

  /** Days `a` and `b` fall on the same day of the week exactly when they are a whole number of weeks apart. */
  lemma SameWeekday(a: Day, b: Day)
    ensures JsDay(a) == JsDay(b) <==> (a - b) % 7 == 0
  {
    var qa, ra := (a + 4) / 7, (a + 4) % 7;
    var qb, rb := (b + 4) / 7, (b + 4) % 7;
    assert a - b == 7 * (qa - qb) + (ra - rb);
    if ra == rb {
      assert (a - b) % 7 == 0 by {
        assert a - b == 7 * (qa - qb);
      }
    } else {
      assert -7 < ra - rb < 7;
      ModShift(ra - rb, qa - qb);
      assert (a - b) % 7 == (ra - rb) % 7;
    }
  }

  lemma ModShift(x: int, k: int)
    ensures (x + 7 * k) % 7 == x % 7
  {
    var q, r := x / 7, x % 7;
    assert x + 7 * k == 7 * (q + k) + r;
  }

  /** Moving a whole number of weeks keeps the day of the week. */
  lemma WeekdayPeriodic(d: Day, k: int)
    ensures JsDay(d + 7 * k) == JsDay(d)
  {
    SameWeekday(d + 7 * k, d);
  }

  /** The seeding script's first Monday: `firstSep` moved forward by `(1 + 7 - getDay()) % 7` days. */
  function FirstMonday(firstSep: Day): (m: Day)
    ensures firstSep <= m < firstSep + 7
    ensures JsDay(m) == 1
  {
    var offset := (1 + 7 - JsDay(firstSep)) % 7;
    assert JsDay(firstSep + offset) == 1 by {
      var w := JsDay(firstSep);
      assert firstSep + 4 == 7 * ((firstSep + 4) / 7) + w;
      if w <= 1 {
        assert offset == 1 - w;
        assert firstSep + offset + 4 == 7 * ((firstSep + 4) / 7) + 1;
      } else {
        assert offset == 8 - w;
        assert firstSep + offset + 4 == 7 * ((firstSep + 4) / 7 + 1) + 1;
      }
    }
    firstSep + offset
  }

  /** No Monday lies between 1 September and the seeding script's first Monday. */
  lemma FirstMondayIsFirst(firstSep: Day, d: Day)
    requires firstSep <= d < FirstMonday(firstSep)
    ensures JsDay(d) != 1
  {
    var m := FirstMonday(firstSep);
    SameWeekday(m, d);
  }

  /** `${year}/${year + 1}`. */
  function AcademicYearLabel(year: nat): string
  {
    NatToString(year) + "/" + NatToString(year + 1)
  }

  /** The `weekNumber`-th row the script writes for `year` (1 ≤ weekNumber ≤ 52). */
  function YearWeek(year: nat, weekNumber: nat, firstSep: Day): AcademicWeek
    requires 1 <= weekNumber
  {
    var start := FirstMonday(firstSep) + (weekNumber - 1) * 7;
    AcademicWeek(AcademicYearLabel(year), weekNumber, start, start + 6,
      if weekNumber % 2 == 0 then EVEN else ODD)
  }

  function YearWeeks(year: nat, firstSep: Day): (ws: seq<AcademicWeek>)
    ensures |ws| == 52
  {
    seq(52, i requires 0 <= i < 52 => YearWeek(year, i + 1, firstSep))
  }

  lemma YearWeeksSnoc(year: nat, firstSep: Day, n: nat)
    requires 1 <= n <= 52
    ensures YearWeeks(year, firstSep)[..n] == YearWeeks(year, firstSep)[..n - 1] + [YearWeek(year, n, firstSep)]
  {
    var ws := YearWeeks(year, firstSep);
    assert ws[..n] == ws[..n - 1] + [ws[n - 1]];
  }

  /** All rows for the years `startYear` … `endYear`, year by year. */
  function SeededWeeks(startYear: nat, endYear: int, firstSeptember: int -> Day): seq<AcademicWeek>
    decreases endYear - startYear
  {
    if endYear < startYear then []
    else SeededWeeks(startYear, endYear - 1, firstSeptember) + YearWeeks(endYear, firstSeptember(endYear))
  }

  /** The academic-week table. */
  class AcademicWeekTable {
    var weeks: seq<AcademicWeek>

    constructor ()
      ensures weeks == []
    {
      weeks := [];
    }

    /** The seeding script: delete every row, then insert the generated weeks of `startYear` … `endYear` in one batch. */
    method Seed(startYear: nat, endYear: nat, firstSeptember: int -> Day)
      modifies this
      ensures weeks == SeededWeeks(startYear, endYear, firstSeptember)
    {
      weeks := [];
      var all: seq<AcademicWeek> := [];
      var year := startYear;
      while year <= endYear
        invariant startYear <= year
        invariant year <= endYear + 1 || year == startYear
        invariant all == SeededWeeks(startYear, year - 1, firstSeptember)
      {
        var academicYear := AcademicYearLabel(year);
        var firstSep := firstSeptember(year);
        var dayIndex := JsDay(firstSep);
        var offsetDays := (1 + 7 - dayIndex) % 7;
        var firstMonday := firstSep + offsetDays;
        assert firstMonday == FirstMonday(firstSep);
        var weekNumber := 1;
        var rows: seq<AcademicWeek> := [];
        while weekNumber <= 52
          invariant 1 <= weekNumber <= 53
          invariant rows == YearWeeks(year, firstSep)[..weekNumber - 1]
        {
          var startDate := firstMonday + (weekNumber - 1) * 7;
          var endDate := startDate + 6;
          var weekType := if weekNumber % 2 == 0 then EVEN else ODD;
          YearWeeksSnoc(year, firstSep, weekNumber);
          assert AcademicWeek(academicYear, weekNumber, startDate, endDate, weekType) == YearWeek(year, weekNumber, firstSep);
          rows := rows + [AcademicWeek(academicYear, weekNumber, startDate, endDate, weekType)];
          weekNumber := weekNumber + 1;
        }
        assert rows == YearWeeks(year, firstSep);
        all := all + rows;
        year := year + 1;
      }
      weeks := all;
    }
  }

  /** The script writes 52 rows per year. */
  lemma {:induction false} SeededWeeksLength(startYear: nat, endYear: int, firstSeptember: int -> Day)
    requires endYear >= startYear - 1
    ensures |SeededWeeks(startYear, endYear, firstSeptember)| == 52 * (endYear - startYear + 1)
    decreases endYear - startYear
  {
    if endYear >= startYear {
      SeededWeeksLength(startYear, endYear - 1, firstSeptember);
    }
  }

  /** Row `i` of the table is week `i % 52 + 1` of year `startYear + i / 52`. */
  lemma {:induction false} SeededWeekAt(startYear: nat, endYear: int, firstSeptember: int -> Day, i: nat)
    requires endYear >= startYear - 1
    requires i < 52 * (endYear - startYear + 1)
    ensures |SeededWeeks(startYear, endYear, firstSeptember)| == 52 * (endYear - startYear + 1)
    ensures SeededWeeks(startYear, endYear, firstSeptember)[i]
      == YearWeek(startYear + i / 52, i % 52 + 1, firstSeptember(startYear + i / 52))
    decreases endYear - startYear
  {
    SeededWeeksLength(startYear, endYear, firstSeptember);
    SeededWeeksLength(startYear, endYear - 1, firstSeptember);
    var prefix := 52 * (endYear - startYear);
    if i < prefix {
      SeededWeekAt(startYear, endYear - 1, firstSeptember, i);
    } else {
      RowInYear(i, endYear - startYear);
    }
  }

  /** A row index inside the block of year offset `q` has quotient `q`. */
  lemma RowInYear(i: nat, q: nat)
    requires 52 * q <= i < 52 * q + 52
    ensures i / 52 == q && i % 52 == i - 52 * q
  {
    var r := i - 52 * q;
    assert i == 52 * q + r && 0 <= r < 52;
  }

  /** For 2021 … 2040 the script inserts 1040 rows. */
  lemma SeedCount(firstSeptember: int -> Day)
    ensures |SeededWeeks(2021, 2040, firstSeptember)| == 1040
  {
    SeededWeeksLength(2021, 2040, firstSeptember);
  }

  /**
   * Every generated week runs Monday to Sunday, week 1 starts on the first
   * Monday on or after 1 September, week `n + 1` starts the day after week
   * `n` ends, and a week is EVEN exactly when its number is even.
   */
  lemma YearWeekShape(year: nat, n: nat, firstSep: Day)
    requires 1 <= n <= 52
    ensures var w := YearWeek(year, n, firstSep);
      w.weekNumber == n
      && JsDay(w.startDate) == 1 && w.endDate == w.startDate + 6 && JsDay(w.endDate) == 0
      && (w.weekType == EVEN <==> n % 2 == 0)
      && (n == 1 ==> w.startDate == FirstMonday(firstSep))
      && (n < 52 ==> YearWeek(year, n + 1, firstSep).startDate == w.endDate + 1)
  {
    var w := YearWeek(year, n, firstSep);
    WeekdayPeriodic(FirstMonday(firstSep), n - 1);
    assert w.startDate == FirstMonday(firstSep) + 7 * (n - 1);
    SameWeekday(w.endDate, w.startDate - 1);
    WeekdayPeriodic(w.startDate - 1, 1);
    assert JsDay(w.startDate - 1) == 0 by {
      SameWeekday(w.startDate - 1, 3);
      SameWeekday(w.startDate, 4);
    }
  }

  /** Consecutive years: 1 September comes 365 or 366 days after the previous one. */
  predicate CalendarYears(firstSeptember: int -> Day, startYear: int, endYear: int)
  {
    forall y :: startYear <= y < endYear ==> 365 <= firstSeptember(y + 1) - firstSeptember(y) <= 366
  }

  /** The last week of one year ends before the first week of the next begins. */
  lemma YearsDoNotOverlap(year: nat, fs: Day, fsNext: Day)
    requires 365 <= fsNext - fs <= 366
    ensures YearWeek(year, 52, fs).endDate < YearWeek(year + 1, 1, fsNext).startDate
  {
    var m, m' := FirstMonday(fs), FirstMonday(fsNext);
    SameWeekday(m', m);
    assert (m' - m) % 7 == 0;
    var k := (m' - m) / 7;
    assert m' - m == 7 * k;
    assert 359 <= m' - m;
    assert k >= 52;
  }

  /** The row after row `i` is the next week of the same year, or week 1 of the next year after week 52. */
  lemma NextRow(i: nat)
    ensures i % 52 < 51 ==> (i + 1) / 52 == i / 52 && (i + 1) % 52 == i % 52 + 1
    ensures i % 52 == 51 ==> (i + 1) / 52 == i / 52 + 1 && (i + 1) % 52 == 0
  {
    var q, r := i / 52, i % 52;
    assert i == 52 * q + r;
    if r < 51 {
      assert i + 1 == 52 * q + (r + 1);
    } else {
      assert i + 1 == 52 * (q + 1);
    }
  }

  /** Row `i` ends before row `i + 1` starts: the table is sorted and no two rows share a day. */
  lemma SeededWeeksStep(startYear: nat, endYear: int, firstSeptember: int -> Day, i: nat)
    requires endYear >= startYear - 1 && CalendarYears(firstSeptember, startYear, endYear)
    requires i + 1 < 52 * (endYear - startYear + 1)
    ensures var ws := SeededWeeks(startYear, endYear, firstSeptember);
      |ws| == 52 * (endYear - startYear + 1)
      && ws[i].startDate <= ws[i].endDate < ws[i + 1].startDate
  {
    SeededWeekAt(startYear, endYear, firstSeptember, i);
    SeededWeekAt(startYear, endYear, firstSeptember, i + 1);
    NextRow(i);
    var ws := SeededWeeks(startYear, endYear, firstSeptember);
    var y := startYear + i / 52;
    var n := i % 52 + 1;
    assert ws[i] == YearWeek(y, n, firstSeptember(y));
    if n < 52 {
      assert ws[i + 1] == YearWeek(y, n + 1, firstSeptember(y));
      YearWeekShape(y, n, firstSeptember(y));
    } else {
      assert ws[i + 1] == YearWeek(y + 1, 1, firstSeptember(y + 1));
      assert y < endYear;
      YearsDoNotOverlap(y, firstSeptember(y), firstSeptember(y + 1));
    }
  }

  /** Any two rows of a seeded table are disjoint and in date order. */
  lemma {:induction false} SeededWeeksDisjoint(startYear: nat, endYear: int, firstSeptember: int -> Day, i: nat, j: nat)
    requires endYear >= startYear - 1 && CalendarYears(firstSeptember, startYear, endYear)
    requires i < j < 52 * (endYear - startYear + 1)
    ensures var ws := SeededWeeks(startYear, endYear, firstSeptember);
      |ws| == 52 * (endYear - startYear + 1) && ws[i].endDate < ws[j].startDate
    decreases j - i
  {
    SeededWeeksStep(startYear, endYear, firstSeptember, i);
    if i + 1 < j {
      SeededWeeksDisjoint(startYear, endYear, firstSeptember, i + 1, j);
      SeededWeeksStep(startYear, endYear, firstSeptember, i + 1);
    }
  }

  /** `findFirst` over the table: the first row whose range holds `date`. */
  function FindWeek(weeks: seq<AcademicWeek>, date: Day): (r: Option<nat>)
    ensures r.Some? ==> (r.value < |weeks| && weeks[r.value].Contains(date)
      && forall j :: 0 <= j < r.value ==> !weeks[j].Contains(date))
    ensures r.None? ==> forall j :: 0 <= j < |weeks| ==> !weeks[j].Contains(date)
  {
    if |weeks| == 0 then None
    else if weeks[0].Contains(date) then Some(0)
    else
      match FindWeek(weeks[1..], date)
      case None => None
      case Some(k) => Some(k + 1)
  }

  /** In a seeded table the row `findFirst` picks is the only row holding the date, so the choice does not depend on row order. */
  lemma FindWeekUniqueInSeeded(startYear: nat, endYear: int, firstSeptember: int -> Day, date: Day)
    requires endYear >= startYear - 1 && CalendarYears(firstSeptember, startYear, endYear)
    ensures var ws := SeededWeeks(startYear, endYear, firstSeptember);
      FindWeek(ws, date).Some? ==>
        forall j :: 0 <= j < |ws| && j != FindWeek(ws, date).value ==> !ws[j].Contains(date)
  {
    var ws := SeededWeeks(startYear, endYear, firstSeptember);
    SeededWeeksLength(startYear, endYear, firstSeptember);
    if FindWeek(ws, date).Some? {
      var i := FindWeek(ws, date).value;
      forall j | i < j < |ws| ensures !ws[j].Contains(date) {
        SeededWeeksDisjoint(startYear, endYear, firstSeptember, i, j);
      }
    }
  }
}
