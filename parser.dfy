/**
 * The study-plan parsing helpers. A workbook is read through an abstract
 * cell reader: a sheet maps a cell address such as `"E12"` to the value
 * in that cell, or to nothing when the cell is empty (`undefined`).
 */
module Parser {
  import opened Common
  import opened Text

  /** A cell value: text or a number. */
  datatype Value = TextValue(s: string) | NumberValue(n: int)

  /** A sheet read through `getCellValue`. */
  type Sheet = string -> Option<Value>

  /** `String(value)`. */
  function AsString(v: Value): string
  {
    match v
    case TextValue(s) => s
    case NumberValue(n) => IntToString(n)
  }

  // ------------------------------------------------------------ extractWeek

  const WeekMarker := "ТО:"

  /** The match of `/ТО:\s*(\d+)/` that starts at `i`, as the value of its digits. */
  function MatchAt(s: string, i: nat): Option<nat>
    requires i <= |s|
  {
    if |s| - i >= |WeekMarker| && s[i..i + |WeekMarker|] == WeekMarker
    then ParseLeadingNat(TrimStart(s[i + |WeekMarker|..]))
    else None
  }

  /** The match at every position of `s`, in order. */
  function Matches(s: string): (ms: seq<Option<nat>>)
    ensures |ms| == |s| + 1 && forall j :: 0 <= j <= |s| ==> ms[j] == MatchAt(s, j)
  {
    seq(|s| + 1, j requires 0 <= j <= |s| => MatchAt(s, j))
  }

  /** The first present entry at or after `i`. */
  function FirstSome(ms: seq<Option<nat>>, i: nat): Option<nat>
    requires i <= |ms|
    decreases |ms| - i
  {
    if i == |ms| then None
    else if ms[i].Some? then ms[i]
    else FirstSome(ms, i + 1)
  }

  /** `extractWeek(weekString)`: the number after the first `ТО:`, or 0 when there is none. */
  function ExtractWeek(v: Value): nat
  {
    FirstSome(Matches(AsString(v)), 0).GetOr(0)
  }

  /** Skipping absent entries does not change the first present one. */
  lemma {:induction false} FirstSomeSkip(ms: seq<Option<nat>>, i: nat, k: nat)
    requires i <= k <= |ms|
    requires forall j :: i <= j < k ==> ms[j].None?
    ensures FirstSome(ms, i) == FirstSome(ms, k)
    decreases k - i
  {
    if i < k {
      FirstSomeSkip(ms, i + 1, k);
    }
  }

  /** Nothing is found exactly when every entry is absent. */
  lemma {:induction false} FirstSomeNone(ms: seq<Option<nat>>, i: nat)
    requires i <= |ms|
    ensures FirstSome(ms, i).None? <==> forall j :: i <= j < |ms| ==> ms[j].None?
    decreases |ms| - i
  {
    if i < |ms| {
      FirstSomeNone(ms, i + 1);
    }
  }

  /** What is found is the entry at some `k`, and every entry before it is absent. */
  lemma {:induction false} FirstSomeLeftmost(ms: seq<Option<nat>>, i: nat) returns (k: nat)
    requires i <= |ms| && FirstSome(ms, i).Some?
    ensures i <= k < |ms| && ms[k] == FirstSome(ms, i)
    ensures forall j :: i <= j < k ==> ms[j].None?
    decreases |ms| - i
  {
    if ms[i].Some? {
      k := i;
    } else {
      k := FirstSomeLeftmost(ms, i + 1);
    }
  }

  /** `extractWeek` gives 0 exactly when no position matches or the leftmost match reads 0. */
  lemma ExtractWeekNone(v: Value)
    ensures FirstSome(Matches(AsString(v)), 0).None? <==>
      forall j :: 0 <= j <= |AsString(v)| ==> MatchAt(AsString(v), j).None?
  {
    FirstSomeNone(Matches(AsString(v)), 0);
  }

  /** A week read is the leftmost match: some position reads it and no earlier position matches. */
  lemma ExtractWeekLeftmost(v: Value) returns (k: nat)
    requires FirstSome(Matches(AsString(v)), 0).Some?
    ensures k <= |AsString(v)| && MatchAt(AsString(v), k) == Some(ExtractWeek(v))
    ensures forall j :: 0 <= j < k ==> MatchAt(AsString(v), j).None?
  {
    var ms := Matches(AsString(v));
    k := FirstSomeLeftmost(ms, 0);
    forall j | 0 <= j < k ensures MatchAt(AsString(v), j).None? {
      assert ms[j].None?;
    }
  }

  /** Leading white space before text that starts with a non-space is all `trimStart` removes. */
  lemma {:induction false} TrimStartSpaces(sp: string, x: string)
    requires AllSpace(sp) && x != [] && !IsSpace(x[0])
    ensures TrimStart(sp + x) == x
  {
    if |sp| > 0 {
      assert (sp + x)[1..] == sp[1..] + x;
      TrimStartSpaces(sp[1..], x);
    } else {
      assert sp + x == x;
    }
  }

  /** A digit is not white space. */
  lemma DigitNotSpace(c: char)
    requires IsDigit(c)
    ensures !IsSpace(c)
  {
  }

  /**
   * Text holding `ТО:`, white space and the decimal digits of `n`, with no
   * `Т` before it and no digit after it, gives `n`.
   */
  lemma ExtractWeekOf(before: string, sp: string, n: nat, after: string)
    requires 'Т' !in before && AllSpace(sp)
    requires after == [] || !IsDigit(after[0])
    ensures ExtractWeek(TextValue(before + WeekMarker + sp + NatToString(n) + after)) == n
  {
    var s := before + WeekMarker + sp + NatToString(n) + after;
    assert s[..|before|] == before;
    NoMatchBefore(s, before);
    MatchAtMarker(before, sp, n, after);
    ExtractWeekAt(s, |before|, n);
  }

  /** A match at `k` with none before it is the week read. */
  lemma ExtractWeekAt(s: string, k: nat, n: nat)
    requires k <= |s| && MatchAt(s, k) == Some(n)
    requires forall j :: 0 <= j < k ==> MatchAt(s, j).None?
    ensures ExtractWeek(TextValue(s)) == n
  {
    var ms := Matches(s);
    FirstSomeSkip(ms, 0, k);
  }

  /** No match starts inside text without `Т`. */
  lemma NoMatchBefore(s: string, before: string)
    requires |before| <= |s| && s[..|before|] == before && 'Т' !in before
    ensures forall j :: 0 <= j < |before| ==> MatchAt(s, j).None?
  {
    forall j | 0 <= j < |before| ensures MatchAt(s, j).None? {
      assert s[j] == before[j];
      if |s| - j >= |WeekMarker| {
        assert s[j..j + |WeekMarker|][0] == s[j];
      }
    }
  }

  /** The match at the marker reads the digits after the spaces. */
  lemma MatchAtMarker(before: string, sp: string, n: nat, after: string)
    requires AllSpace(sp)
    requires after == [] || !IsDigit(after[0])
    ensures MatchAt(before + WeekMarker + sp + NatToString(n) + after, |before|) == Some(n)
  {
    var digits := NatToString(n);
    var s := before + WeekMarker + sp + digits + after;
    var k := |before|;
    var rest := sp + (digits + after);
    assert s[k..k + |WeekMarker|] == WeekMarker;
    assert s[k + |WeekMarker|..] == rest;
    DigitNotSpace(digits[0]);
    TrimStartSpaces(sp, digits + after);
    ParseLeadingNatOfNatToString(n, after);
    MatchAtOf(s, k, rest, digits + after, n);
  }

  /** A match at `k` from the text after the marker. */
  lemma MatchAtOf(s: string, k: nat, rest: string, x: string, n: nat)
    requires k + |WeekMarker| <= |s| && s[k..k + |WeekMarker|] == WeekMarker
    requires s[k + |WeekMarker|..] == rest && TrimStart(rest) == x && ParseLeadingNat(x) == Some(n)
    ensures MatchAt(s, k) == Some(n)
  {
  }

  /** `"ТО: 18"` gives 18. */
  lemma ExtractWeekExample()
    ensures ExtractWeek(TextValue("ТО: 18")) == 18
  {
    assert NatToString(18) == "18";
    assert "ТО: 18" == "" + WeekMarker + " " + NatToString(18) + "";
    ExtractWeekOf("", " ", 18, "");
  }

  /** A number never holds the marker, so it gives 0. */
  lemma ExtractWeekOfNumber(n: int)
    ensures ExtractWeek(NumberValue(n)) == 0
  {
    var s := IntToString(n);
    forall j | 0 <= j < |s| ensures s[j] != 'Т' {
      if n < 0 {
        assert s == "-" + NatToString(-n);
        if j > 0 {
          assert s[j] == NatToString(-n)[j - 1];
        }
      }
    }
    forall j | 0 <= j <= |s| ensures MatchAt(s, j).None? {
      if |s| - j >= |WeekMarker| {
        assert s[j..j + |WeekMarker|][0] == s[j];
      }
    }
    FirstSomeNone(Matches(s), 0);
  }

  // ------------------------------------------------------------ extractDisciplines

  /** A semester column value: `undefined`, `null`, or a cell value. */
  datatype Field = Undefined | Null | Cell(v: Value)

  /** `val !== undefined ? val : null` for a cell read. */
  function OfCell(c: Option<Value>): Field
  {
    match c
    case None => Null
    case Some(v) => Cell(v)
  }

  /** A parsed discipline row for one semester. */
  datatype Row = Row(name: Option<Value>, control: Field,
                     lecture: Field, elLecture: Field, laboratory: Field, elLaboratory: Field,
                     practice: Field, elPractice: Field)

  /** The first or the second semester of a course sheet. */
  datatype Half = FirstHalf | SecondHalf

  /** The columns of one semester's control and hour values. */
  datatype Columns = Columns(control: string, lecture: string, elLecture: string, laboratory: string,
                             elLaboratory: string, practice: string, elPractice: string)

  /** The columns the parser reads, which depend on the form of study. */
  function ColumnsFor(isFull: bool, half: Half): Columns
  {
    match (isFull, half)
    case (true, FirstHalf) => Columns("G", "J", "K", "M", "N", "P", "Q")
    case (true, SecondHalf) => Columns("AC", "AF", "AG", "AI", "AJ", "AL", "AM")
    case (false, FirstHalf) => Columns("H", "K", "L", "N", "O", "Q", "R")
    case (false, SecondHalf) => Columns("AI", "AL", "AM", "AO", "AP", "AQ", "AR")
  }

  /** The address `${col}${row}`. */
  function Address(col: string, row: int): string
  {
    col + IntToString(row)
  }

  /** One semester value of `getHours(sheet, …, row)`. */
  function Read(sheet: Sheet, col: string, row: int): Field
  {
    OfCell(sheet(Address(col, row)))
  }

  /** `getAdjustedValue(getHours(…)).semN`: the value itself when full-time, `(0).semN`, which is `undefined`, otherwise. */
  function Hours(sheet: Sheet, isFull: bool, col: string, row: int): Field
  {
    if isFull then Read(sheet, col, row) else Undefined
  }

  /** The record the parser would push for `row` and one semester. */
  function RowAt(sheet: Sheet, isFull: bool, half: Half, row: int): Row
  {
    var c := ColumnsFor(isFull, half);
    Row(sheet(Address("E", row)), Read(sheet, c.control, row),
        Hours(sheet, isFull, c.lecture, row), Hours(sheet, isFull, c.elLecture, row),
        Hours(sheet, isFull, c.laboratory, row), Hours(sheet, isFull, c.elLaboratory, row),
        Hours(sheet, isFull, c.practice, row), Hours(sheet, isFull, c.elPractice, row))
  }

  /** The `!== null` test that decides whether a row is pushed for a semester. */
  predicate Included(r: Row)
  {
    r.control != Null || r.lecture != Null || r.elLecture != Null || r.laboratory != Null
    || r.elLaboratory != Null || r.practice != Null || r.elPractice != Null
  }

  /** The rows `start..end` pushed for one semester, in scan order. */
  function SemesterRows(sheet: Sheet, isFull: bool, half: Half, start: int, end: int): seq<Row>
    decreases if end < start then 0 else end - start + 1
  {
    if end < start then []
    else
      var r := RowAt(sheet, isFull, half, end);
      SemesterRows(sheet, isFull, half, start, end - 1) + (if Included(r) then [r] else [])
  }

  /** For the full-time form, a row is pushed for a semester exactly when one of its seven cells for that semester is filled. */
  lemma FullTimeIncluded(sheet: Sheet, half: Half, row: int)
    ensures var c := ColumnsFor(true, half);
      Included(RowAt(sheet, true, half, row)) <==>
        sheet(Address(c.control, row)).Some? || sheet(Address(c.lecture, row)).Some?
        || sheet(Address(c.elLecture, row)).Some? || sheet(Address(c.laboratory, row)).Some?
        || sheet(Address(c.elLaboratory, row)).Some? || sheet(Address(c.practice, row)).Some?
        || sheet(Address(c.elPractice, row)).Some?
  {
  }

  /** For the other form, every scanned row is pushed for both semesters, with every hour field `undefined`. */
  lemma {:induction false} PartTimeAllRows(sheet: Sheet, half: Half, start: int, end: int)
    ensures |SemesterRows(sheet, false, half, start, end)| == if end < start then 0 else end - start + 1
    ensures forall k :: 0 <= k < |SemesterRows(sheet, false, half, start, end)| ==>
      SemesterRows(sheet, false, half, start, end)[k] == RowAt(sheet, false, half, start + k)
      && SemesterRows(sheet, false, half, start, end)[k].lecture == Undefined
    decreases if end < start then 0 else end - start + 1
  {
    if start <= end {
      PartTimeAllRows(sheet, half, start, end - 1);
      var last := RowAt(sheet, false, half, end);
      assert Included(last);
      var rows := SemesterRows(sheet, false, half, start, end - 1);
      assert SemesterRows(sheet, false, half, start, end) == rows + [last];
      assert |rows| == end - start;
    }
  }

  /** A sheet's two semesters: sheet `k` holds semesters `2k - 15` and `2k - 14`. */
  function SemesterKey(sheetIndex: int, half: Half): int
  {
    match half
    case FirstHalf => sheetIndex * 2 - 15
    case SecondHalf => sheetIndex * 2 - 14
  }

  /** `results[key]` holds `rows` when they are not empty, and is missing otherwise. */
  predicate Holds(results: map<int, seq<Row>>, key: int, rows: seq<Row>)
  {
    (key in results <==> rows != []) && (key in results ==> results[key] == rows)
  }

  /** `if (!results[key]) results[key] = []; results[key].push(r)`. */
  function Push(results: map<int, seq<Row>>, key: int, r: Row): (m: map<int, seq<Row>>)
    ensures key in m && m[key] == (if key in results then results[key] else []) + [r]
    ensures forall k :: k != key ==> (k in m <==> k in results) && (k in m ==> m[k] == results[k])
  {
    results[key := (if key in results then results[key] else []) + [r]]
  }

  /** The inner loop over rows `start..end` of one sheet. */
  method ScanSheet(sheet: Sheet, isFull: bool, sheetIndex: int, start: int, end: int,
                   results0: map<int, seq<Row>>) returns (results: map<int, seq<Row>>)
    requires SemesterKey(sheetIndex, FirstHalf) !in results0 && SemesterKey(sheetIndex, SecondHalf) !in results0
    ensures Holds(results, SemesterKey(sheetIndex, FirstHalf), SemesterRows(sheet, isFull, FirstHalf, start, end))
    ensures Holds(results, SemesterKey(sheetIndex, SecondHalf), SemesterRows(sheet, isFull, SecondHalf, start, end))
    ensures forall k :: k != SemesterKey(sheetIndex, FirstHalf) && k != SemesterKey(sheetIndex, SecondHalf) ==>
      (k in results <==> k in results0) && (k in results ==> results[k] == results0[k])
  {
    var k1, k2 := SemesterKey(sheetIndex, FirstHalf), SemesterKey(sheetIndex, SecondHalf);
    results := results0;
    if end < start {
      return;
    }
    var row := start;
    while row <= end
      invariant start <= row <= end + 1
      invariant Holds(results, k1, SemesterRows(sheet, isFull, FirstHalf, start, row - 1))
      invariant Holds(results, k2, SemesterRows(sheet, isFull, SecondHalf, start, row - 1))
      invariant forall k :: k != k1 && k != k2 ==>
        (k in results <==> k in results0) && (k in results ==> results[k] == results0[k])
      decreases end - row + 1
    {
      var first := RowAt(sheet, isFull, FirstHalf, row);
      var second := RowAt(sheet, isFull, SecondHalf, row);
      if Included(first) {
        results := Push(results, k1, first);
      }
      if Included(second) {
        results := Push(results, k2, second);
      }
      row := row + 1;
    }
  }

  /** The two week counts of a course sheet. */
  function WeekCounts(sheet: Sheet, isFull: bool): seq<Option<Value>>
  {
    [sheet(if isFull then "AB16" else "AD16"), sheet(if isFull then "AX16" else "AE16")]
  }

  /** `countWeeks` after the first `n` courses. */
  function CountWeeks(book: int -> Sheet, isFull: bool, n: nat): (r: seq<Option<Value>>)
    ensures |r| == 2 * n
  {
    if n == 0 then [] else CountWeeks(book, isFull, n - 1) + WeekCounts(book(8 + n - 1), isFull)
  }

  /** Semesters `2i + 1` and `2i + 2` hold the rows of course `i + 1`, read from sheet `8 + i`. */
  predicate CourseHeld(results: map<int, seq<Row>>, book: int -> Sheet, isFull: bool, bounds: seq<(int, int)>, i: int)
    requires 0 <= i < |bounds|
  {
    Holds(results, 2 * i + 1, SemesterRows(book(8 + i), isFull, FirstHalf, bounds[i].0, bounds[i].1))
    && Holds(results, 2 * i + 2, SemesterRows(book(8 + i), isFull, SecondHalf, bounds[i].0, bounds[i].1))
  }

  /** A course already read keeps its semesters when a later one is read. */
  lemma CourseHeldKept(before: map<int, seq<Row>>, after: map<int, seq<Row>>, book: int -> Sheet, isFull: bool,
                       bounds: seq<(int, int)>, i: int, r: int)
    requires 0 <= i < r < |bounds| && CourseHeld(before, book, isFull, bounds, i)
    requires forall k :: k != 2 * r + 1 && k != 2 * r + 2 ==>
      (k in after <==> k in before) && (k in after ==> after[k] == before[k])
    ensures CourseHeld(after, book, isFull, bounds, i)
  {
    assert 2 * i + 1 != 2 * r + 1 && 2 * i + 1 != 2 * r + 2;
    assert 2 * i + 2 != 2 * r + 1 && 2 * i + 2 != 2 * r + 2;
  }

  /**
   * `extractDisciplines(workbook, isFull, start_1, end_1, …)`: `countWeeks`
   * has two entries per course sheet, in sheet order, and semester `2i + 1`
   * and `2i + 2` hold the rows of course `i + 1` pushed for them.
   */
  method ExtractDisciplines(book: int -> Sheet, isFull: bool, bounds: seq<(int, int)>)
    returns (results: map<int, seq<Row>>, countWeeks: seq<Option<Value>>)
    requires |bounds| == 4
    ensures countWeeks == CountWeeks(book, isFull, 4) && |countWeeks| == 8
    ensures forall i :: 0 <= i < 4 ==> CourseHeld(results, book, isFull, bounds, i)
    ensures forall k :: k in results ==> 1 <= k <= 8
  {
    results := map[];
    countWeeks := [];
    for r := 0 to 4
      invariant countWeeks == CountWeeks(book, isFull, r)
      invariant forall i :: 0 <= i < r ==> CourseHeld(results, book, isFull, bounds, i)
      invariant forall k :: k in results ==> 1 <= k <= 2 * r
    {
      var sheet := book(8 + r);
      countWeeks := countWeeks + WeekCounts(sheet, isFull);
      assert SemesterKey(8 + r, FirstHalf) == 2 * r + 1 && SemesterKey(8 + r, SecondHalf) == 2 * r + 2;
      var before := results;
      results := ScanSheet(sheet, isFull, 8 + r, bounds[r].0, bounds[r].1, results);
      forall i | 0 <= i < r ensures CourseHeld(results, book, isFull, bounds, i) {
        CourseHeldKept(before, results, book, isFull, bounds, i, r);
      }
      assert CourseHeld(results, book, isFull, bounds, r);
    }
  }

  // ------------------------------------------------------------ extractDataFromFirstSheet

  /** The header of a study plan, from its first sheet. */
  datatype StudyPlanData = StudyPlanData(programm: string, code: Option<Value>, profile: Option<Value>,
                                         department: Option<Value>, facultet: Option<Value>,
                                         qualification: string, yearEnrollment: Option<Value>,
                                         studyYear: Option<Value>, formEducation: string,
                                         duration: Option<Value>)

  /** The cells the header is read from. */
  datatype Layout = Layout(programm: string, code: string, profile: string, department: string,
                           facultet: string, qualification: string, yearEnrollment: string,
                           studyYear: string, formEducation: string, duration: string)

  /** Full-time plans keep the header ten rows lower. */
  function LayoutFor(isFull: bool): Layout
  {
    if isFull then Layout("D29", "D27", "D30", "D37", "D38", "C40", "W40", "W41", "C42", "C43")
    else Layout("D19", "D17", "D20", "D27", "D28", "C30", "W30", "W31", "C32", "C33")
  }

  /** A string method on a cell: it throws unless the cell holds text. */
  function TextOf(c: Option<Value>): Result<string>
  {
    match c
    case Some(TextValue(s)) => Ok(s)
    case _ => Err(Crash)
  }

  /** `.replace(/\d+|\./g, '')`: every ASCII digit and every dot is removed. */
  function StripDigitsAndDots(s: string): (r: string)
    ensures |r| <= |s|
  {
    if |s| == 0 then []
    else (if IsDigit(s[0]) || s[0] == '.' then [] else [s[0]]) + StripDigitsAndDots(s[1..])
  }

  /** What is left has no digit and no dot, and every character left comes from the input. */
  lemma {:induction false} StripDigitsAndDotsSpec(s: string)
    ensures forall k :: 0 <= k < |StripDigitsAndDots(s)| ==>
      !IsDigit(StripDigitsAndDots(s)[k]) && StripDigitsAndDots(s)[k] != '.' && StripDigitsAndDots(s)[k] in s
    ensures (forall k :: 0 <= k < |s| ==> !IsDigit(s[k]) && s[k] != '.') ==> StripDigitsAndDots(s) == s
  {
    if |s| > 0 {
      StripDigitsAndDotsSpec(s[1..]);
      var head := if IsDigit(s[0]) || s[0] == '.' then [] else [s[0]];
      var r := StripDigitsAndDots(s);
      forall k | 0 <= k < |r| ensures !IsDigit(r[k]) && r[k] != '.' && r[k] in s {
        if k >= |head| {
          assert r[k] == StripDigitsAndDots(s[1..])[k - |head|];
        }
      }
    }
  }

  /** The longest suffix without white space. */
  function TrailingRun(s: string): (r: string)
    ensures |r| <= |s| && r == s[|s| - |r|..]
    ensures forall k :: 0 <= k < |r| ==> !IsSpace(r[k])
    ensures |r| == |s| || IsSpace(s[|s| - |r| - 1])
  {
    if |s| > 0 && !IsSpace(s[|s| - 1]) then
      var r := TrailingRun(s[..|s| - 1]);
      assert s[..|s| - 1][|s| - 1 - |r|..] + [s[|s| - 1]] == s[|s| - 1 - |r|..];
      r + [s[|s| - 1]]
    else []
  }

  /** `.match(/\S+$/)[0]`: the trailing run of non-space characters; the indexing throws when there is none. */
  function TrailingWord(s: string): (r: Result<string>)
    ensures r.Err? <==> s == [] || IsSpace(s[|s| - 1])
  {
    var w := TrailingRun(s);
    if w == [] then Err(Crash) else Ok(w)
  }

  /** The word found is a non-empty, space-free suffix, preceded by white space or nothing. */
  lemma TrailingWordSpec(s: string)
    requires TrailingWord(s).Ok?
    ensures var w := TrailingWord(s).value;
      w != [] && s == s[..|s| - |w|] + w && (forall k :: 0 <= k < |w| ==> !IsSpace(w[k]))
      && (|w| == |s| || IsSpace(s[|s| - |w| - 1]))
  {
  }

  /** `extractDataFromFirstSheet(workbook, isFull)`. */
  function ExtractDataFromFirstSheet(sheet: Sheet, isFull: bool): (r: Result<StudyPlanData>)
  {
    var at := LayoutFor(isFull);
    var programm := TextOf(sheet(at.programm));
    var qualification := TextOf(sheet(at.qualification));
    var form := TextOf(sheet(at.formEducation));
    if programm.Err? || qualification.Err? || form.Err? then Err(Crash)
    else
      var q := TrailingWord(qualification.value);
      var f := TrailingWord(form.value);
      if q.Err? || f.Err? then Err(Crash)
      else Ok(StudyPlanData(Trim(StripDigitsAndDots(programm.value)), sheet(at.code), sheet(at.profile),
                            sheet(at.department), sheet(at.facultet), q.value, sheet(at.yearEnrollment),
                            sheet(at.studyYear), f.value, sheet(at.duration)))
  }

  /**
   * The header is read when the programme, qualification and form cells
   * hold text and the last two end in a non-space character; every other
   * field is the raw cell, and the programme loses its digits and dots.
   */
  lemma FirstSheetSpec(sheet: Sheet, isFull: bool)
    ensures var at := LayoutFor(isFull);
      ExtractDataFromFirstSheet(sheet, isFull).Ok? <==>
        TextOf(sheet(at.programm)).Ok? && TextOf(sheet(at.qualification)).Ok? && TextOf(sheet(at.formEducation)).Ok?
        && TrailingWord(TextOf(sheet(at.qualification)).value).Ok? && TrailingWord(TextOf(sheet(at.formEducation)).value).Ok?
    ensures var at := LayoutFor(isFull);
      ExtractDataFromFirstSheet(sheet, isFull).Ok? ==>
        var d := ExtractDataFromFirstSheet(sheet, isFull).value;
        d.code == sheet(at.code) && d.profile == sheet(at.profile) && d.department == sheet(at.department)
        && d.facultet == sheet(at.facultet) && d.yearEnrollment == sheet(at.yearEnrollment)
        && d.studyYear == sheet(at.studyYear) && d.duration == sheet(at.duration)
        && (forall k :: 0 <= k < |d.programm| ==> !IsDigit(d.programm[k]) && d.programm[k] != '.')
  {
    var at := LayoutFor(isFull);
    if ExtractDataFromFirstSheet(sheet, isFull).Ok? {
      var s := StripDigitsAndDots(TextOf(sheet(at.programm)).value);
      StripDigitsAndDotsSpec(TextOf(sheet(at.programm)).value);
      TrimWithinSlice(s);
    }
  }

  /** Trimming keeps a contiguous slice of its input. */
  lemma TrimWithinSlice(s: string)
    ensures forall k :: 0 <= k < |Trim(s)| ==> Trim(s)[k] in s
  {
    var t := TrimStart(s);
    forall k | 0 <= k < |Trim(s)| ensures Trim(s)[k] in s {
      assert Trim(s)[k] == t[k];
      assert t[k] == s[|s| - |t| + k];
    }
  }
}
