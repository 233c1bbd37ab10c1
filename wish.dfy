/**
 * The wish store of the backend: a teacher's preferred cells for the even and
 * odd week, plus a marker that the teacher left a free-text note.
 * `addWishes` replaces all of one teacher's wishes; `getAllWishes` lists
 * every wish of every teacher, text wishes first.
 *
 * Row ids and `createdAt` stamps are drawn from one counter, `clock`, which
 * each created row advances.
 */
module Wish {
  import opened Common
  import opened Text
  import opened JsObject

  /** One cell of a wish grid: both fields optional. */
  datatype Cell = Cell(discipline: Option<string>, room: Option<string>)

  /** `wishes`: the even-week and odd-week grids keyed `"<day>-<hour>"`. */
  datatype WeekMaps = WeekMaps(even: Obj<Cell>, odd: Obj<Cell>)

  datatype WishesDto = WishesDto(wishes: WeekMaps, notes: Option<string>)

  datatype Teacher = Teacher(id: string, userId: string)

  datatype ScheduleWish = ScheduleWish(id: nat, weekType: string, day: string, timeSlot: Option<string>,
                                       discipline: Option<string>, room: Option<string>,
                                       teacherId: string, createdAt: nat)

  datatype TextWish = TextWish(id: nat, teacherId: string, createdAt: nat)

  datatype Tables = Tables(teachers: seq<Teacher>, scheduleWishes: seq<ScheduleWish>,
                           textWishes: seq<TextWish>, clock: nat)

  const Saved := "Wishes saved successfully"

  // ------------------------------------------------------------------ lookups

  /** `teacher.findUnique({ where: { userId } })`. */
  function FindTeacher(ts: seq<Teacher>, userId: string): (r: Option<Teacher>)
    ensures r.None? <==> forall i :: 0 <= i < |ts| ==> ts[i].userId != userId
    ensures r.Some? ==> r.value in ts && r.value.userId == userId
  {
    if |ts| == 0 then None
    else if ts[0].userId == userId then Some(ts[0])
    else FindTeacher(ts[1..], userId)
  }

  /** `x || null` on an optional string: falsy values become `null`. */
  function OrNull(s: Option<string>): (r: Option<string>)
    ensures r.Some? <==> Truthy(s)
    ensures r.Some? ==> r == s
  {
    if Truthy(s) then s else None
  }

  // ------------------------------------------------------------ row creation

  /** The row created for one entry `[dayTime, wish]` of a grid: `const [day, timeSlot] = dayTime.split('-')`. */
  function WishRow(weekType: string, entry: (string, Cell), teacherId: string, stamp: nat): ScheduleWish
  {
    var parts := Split(entry.0, '-');
    ScheduleWish(stamp, weekType, parts[0], At(parts, 1),
                 OrNull(entry.1.discipline), OrNull(entry.1.room), teacherId, stamp)
  }

  /** The rows created by the inner loop over one grid, stamped from `start` on. */
  function Rows(weekType: string, entries: Obj<Cell>, teacherId: string, start: nat): (r: seq<ScheduleWish>)
    ensures |r| == |entries|
  {
    if |entries| == 0 then []
    else
      var n := |entries| - 1;
      Rows(weekType, entries[..n], teacherId, start) + [WishRow(weekType, entries[n], teacherId, start + n)]
  }

  /** The rows of a grid are stamped consecutively from `start` and belong to the teacher. */
  lemma {:induction false} RowsStamps(weekType: string, entries: Obj<Cell>, teacherId: string, start: nat)
    ensures forall i :: 0 <= i < |entries| ==>
      Rows(weekType, entries, teacherId, start)[i].createdAt == Rows(weekType, entries, teacherId, start)[i].id == start + i
      && Rows(weekType, entries, teacherId, start)[i].teacherId == teacherId
  {
    if |entries| > 0 {
      var n := |entries| - 1;
      RowsStamps(weekType, entries[..n], teacherId, start);
      var init := Rows(weekType, entries[..n], teacherId, start);
      var r := Rows(weekType, entries, teacherId, start);
      assert r == init + [WishRow(weekType, entries[n], teacherId, start + n)];
      forall i | 0 <= i < |r| ensures r[i].createdAt == r[i].id == start + i && r[i].teacherId == teacherId {
        if i < n {
          assert r[i] == init[i];
          assert init[i].createdAt == init[i].id == start + i && init[i].teacherId == teacherId;
        } else {
          assert r[i] == WishRow(weekType, entries[n], teacherId, start + n);
        }
      }
    }
  }

  /** Row `i` of a grid is made from entry `i`, with stamp `start + i`. */
  lemma {:induction false} RowsAt(weekType: string, entries: Obj<Cell>, teacherId: string, start: nat, i: nat)
    requires i < |entries|
    ensures Rows(weekType, entries, teacherId, start)[i] == WishRow(weekType, entries[i], teacherId, start + i)
  {
    var n := |entries| - 1;
    if i < n {
      RowsAt(weekType, entries[..n], teacherId, start, i);
    }
  }

  /**
   * The rows of the outer loop over `['even', 'odd']`: every even-week
   * entry, then every odd-week entry, stamped consecutively from `start`.
   */
  function NewRows(maps: WeekMaps, teacherId: string, start: nat): (r: seq<ScheduleWish>)
  {
    Rows("even", maps.even, teacherId, start) + Rows("odd", maps.odd, teacherId, start + |maps.even|)
  }

  // --------------------------------------------------------------- addWishes

  /** `scheduleWish.deleteMany({ where: { teacherId } })`: the rows of other teachers, in order. */
  function Others(ws: seq<ScheduleWish>, tid: string): (r: seq<ScheduleWish>)
  {
    if |ws| == 0 then []
    else (if ws[0].teacherId != tid then [ws[0]] else []) + Others(ws[1..], tid)
  }

  /** The rows of teacher `tid`, in order. */
  function Own(ws: seq<ScheduleWish>, tid: string): (r: seq<ScheduleWish>)
  {
    if |ws| == 0 then []
    else (if ws[0].teacherId == tid then [ws[0]] else []) + Own(ws[1..], tid)
  }

  /** `textWish.deleteMany({ where: { teacherId } })`. */
  function OtherTexts(ws: seq<TextWish>, tid: string): (r: seq<TextWish>)
  {
    if |ws| == 0 then []
    else (if ws[0].teacherId != tid then [ws[0]] else []) + OtherTexts(ws[1..], tid)
  }

  /** The tables after teacher `tid`'s wishes are replaced by those of `dto`. */
  function Replaced(t: Tables, tid: string, dto: WishesDto): Tables
  {
    var texts := OtherTexts(t.textWishes, tid);
    var start := if Truthy(dto.notes) then t.clock + 1 else t.clock;
    var rows := NewRows(dto.wishes, tid, start);
    Tables(t.teachers, Others(t.scheduleWishes, tid) + rows,
           if Truthy(dto.notes) then texts + [TextWish(t.clock, tid, t.clock)] else texts,
           start + |rows|)
  }

  /** The tables `addWishes` leaves after its deletions, the text wish and the two grids' rows. */
  lemma ReplacedSteps(t: Tables, tid: string, dto: WishesDto, kept: seq<ScheduleWish>, texts: seq<TextWish>,
                      start: nat, even: seq<ScheduleWish>, odd: seq<ScheduleWish>)
    requires kept == Others(t.scheduleWishes, tid)
    requires texts == if Truthy(dto.notes) then OtherTexts(t.textWishes, tid) + [TextWish(t.clock, tid, t.clock)]
                      else OtherTexts(t.textWishes, tid)
    requires start == if Truthy(dto.notes) then t.clock + 1 else t.clock
    requires even == Rows("even", dto.wishes.even, tid, start)
    requires odd == Rows("odd", dto.wishes.odd, tid, start + |dto.wishes.even|)
    ensures Replaced(t, tid, dto)
      == Tables(t.teachers, kept + even + odd, texts, start + |dto.wishes.even| + |dto.wishes.odd|)
  {
    var rows := NewRows(dto.wishes, tid, start);
    assert rows == even + odd;
    AppendAssoc(kept, even, odd);
  }

  /** `addWishes(dto, userId)`: its return value and the tables afterwards. */
  function AddWishesPlan(t: Tables, dto: WishesDto, userId: string): (Result<string>, Tables)
  {
    match FindTeacher(t.teachers, userId)
    case None => (Err(PlainError), t)
    case Some(teacher) => (Ok(Saved), Replaced(t, teacher.id, dto))
  }

  /** A request from a user who is no teacher fails with a plain error and changes nothing. */
  lemma AddWishesUnknownTeacher(t: Tables, dto: WishesDto, userId: string)
    requires forall i :: 0 <= i < |t.teachers| ==> t.teachers[i].userId != userId
    ensures AddWishesPlan(t, dto, userId) == (Err(PlainError), t)
  {
    assert FindTeacher(t.teachers, userId).None?;
  }

  lemma {:induction false} OthersAppend(a: seq<ScheduleWish>, b: seq<ScheduleWish>, tid: string)
    ensures Others(a + b, tid) == Others(a, tid) + Others(b, tid)
    ensures Own(a + b, tid) == Own(a, tid) + Own(b, tid)
  {
    if |a| > 0 {
      assert (a + b)[1..] == a[1..] + b;
      OthersAppend(a[1..], b, tid);
    } else {
      assert a + b == b;
    }
  }

  /** What the deletion keeps holds no row of the teacher, and deleting again keeps it all. */
  lemma {:induction false} OthersTwice(ws: seq<ScheduleWish>, tid: string)
    ensures Own(Others(ws, tid), tid) == []
    ensures Others(Others(ws, tid), tid) == Others(ws, tid)
  {
    if |ws| > 0 {
      OthersTwice(ws[1..], tid);
      var rest := Others(ws[1..], tid);
      if ws[0].teacherId != tid {
        assert Others(ws, tid) == [ws[0]] + rest;
        OthersAppend([ws[0]], rest, tid);
        assert Others([ws[0]], tid) == [ws[0]] && Own([ws[0]], tid) == [] by {
          assert [ws[0]][1..] == [];
        }
      } else {
        assert Others(ws, tid) == rest;
      }
    }
  }

  lemma {:induction false} OthersMembers(ws: seq<ScheduleWish>, tid: string)
    ensures forall x :: x in Others(ws, tid) <==> x in ws && x.teacherId != tid
  {
    if |ws| > 0 {
      OthersMembers(ws[1..], tid);
      assert ws == [ws[0]] + ws[1..];
    }
  }

  lemma {:induction false} OtherTextsMembers(ws: seq<TextWish>, tid: string)
    ensures forall x :: x in OtherTexts(ws, tid) <==> x in ws && x.teacherId != tid
  {
    if |ws| > 0 {
      OtherTextsMembers(ws[1..], tid);
      assert ws == [ws[0]] + ws[1..];
    }
  }

  lemma {:induction false} RowsOwned(weekType: string, entries: Obj<Cell>, tid: string, start: nat)
    ensures Own(Rows(weekType, entries, tid, start), tid) == Rows(weekType, entries, tid, start)
    ensures Others(Rows(weekType, entries, tid, start), tid) == []
  {
    if |entries| > 0 {
      var n := |entries| - 1;
      RowsOwned(weekType, entries[..n], tid, start);
      var row := WishRow(weekType, entries[n], tid, start + n);
      OthersAppend(Rows(weekType, entries[..n], tid, start), [row], tid);
      assert Own([row], tid) == [row] + Own([], tid);
      assert Others([row], tid) == [] + Others([], tid);
    }
  }

  lemma NewRowsOwned(maps: WeekMaps, tid: string, start: nat)
    ensures Own(NewRows(maps, tid, start), tid) == NewRows(maps, tid, start)
    ensures Others(NewRows(maps, tid, start), tid) == []
  {
    var even := Rows("even", maps.even, tid, start);
    var odd := Rows("odd", maps.odd, tid, start + |maps.even|);
    RowsOwned("even", maps.even, tid, start);
    RowsOwned("odd", maps.odd, tid, start + |maps.even|);
    OthersAppend(even, odd, tid);
  }

  /** Deleting a teacher's rows and appending rows of that teacher only: the teacher now owns exactly the new rows. */
  lemma ReplaceOwnRows(ws: seq<ScheduleWish>, rows: seq<ScheduleWish>, tid: string)
    requires Own(rows, tid) == rows && Others(rows, tid) == []
    ensures Own(Others(ws, tid) + rows, tid) == rows
    ensures Others(Others(ws, tid) + rows, tid) == Others(ws, tid)
  {
    OthersTwice(ws, tid);
    OthersAppend(Others(ws, tid), rows, tid);
  }

  /**
   * After a successful `addWishes`, the teacher's schedule wishes are exactly
   * one row per entry of the even grid and then of the odd grid, and the
   * rows of every other teacher are those that were there before, in order.
   */
  lemma AddWishesRows(t: Tables, tid: string, dto: WishesDto)
    ensures var start := if Truthy(dto.notes) then t.clock + 1 else t.clock;
      Own(Replaced(t, tid, dto).scheduleWishes, tid) == NewRows(dto.wishes, tid, start)
    ensures Others(Replaced(t, tid, dto).scheduleWishes, tid) == Others(t.scheduleWishes, tid)
  {
    var start := if Truthy(dto.notes) then t.clock + 1 else t.clock;
    var rows := NewRows(dto.wishes, tid, start);
    var sched := Replaced(t, tid, dto).scheduleWishes;
    assert sched == Others(t.scheduleWishes, tid) + rows;
    NewRowsOwned(dto.wishes, tid, start);
    ReplaceOwnRows(t.scheduleWishes, rows, tid);
    assert Own(sched, tid) == rows;
  }

  /**
   * The fields of the row made from key `day + "-" + slot`, where neither
   * part holds a dash: the bucket name, the two parts, and each of
   * discipline and room copied when non-empty and `null` otherwise. A key
   * with no dash gives no time slot.
   */
  lemma WishRowFields(weekType: string, day: string, slot: string, cell: Cell, tid: string, stamp: nat)
    requires '-' !in day && '-' !in slot
    ensures var w := WishRow(weekType, (day + "-" + slot, cell), tid, stamp);
      w.weekType == weekType && w.day == day && w.timeSlot == Some(slot) && w.teacherId == tid
      && (w.discipline.Some? <==> Truthy(cell.discipline)) && (w.discipline.Some? ==> w.discipline == cell.discipline)
      && (w.room.Some? <==> Truthy(cell.room)) && (w.room.Some? ==> w.room == cell.room)
    ensures WishRow(weekType, (day, cell), tid, stamp).day == day
    ensures WishRow(weekType, (day, cell), tid, stamp).timeSlot == None
  {
    SplitAtFirst(day, '-', slot);
    SplitNoSeparator(slot, '-');
    SplitNoSeparator(day, '-');
  }

  /**
   * Only the text before the second dash of a key reaches the time slot:
   * `"Пн-08:30-10:00"` is stored with time slot `"08:30"`.
   */
  lemma WishRowSecondDash(weekType: string, day: string, slot: string, rest: string, cell: Cell, tid: string, stamp: nat)
    requires '-' !in day && '-' !in slot
    ensures var w := WishRow(weekType, (day + "-" + slot + "-" + rest, cell), tid, stamp);
      w.day == day && w.timeSlot == Some(slot)
  {
    assert day + "-" + slot + "-" + rest == day + ['-'] + (slot + ['-'] + rest);
    SplitAtFirst(day, '-', slot + ['-'] + rest);
    SplitAtFirst(slot, '-', rest);
  }

  /**
   * A text-wish row is created for the teacher exactly when the notes are
   * truthy, it holds no text, and other teachers' text wishes are kept.
   */
  lemma AddWishesText(t: Tables, tid: string, dto: WishesDto)
    ensures var s := Replaced(t, tid, dto);
      (exists i :: 0 <= i < |s.textWishes| && s.textWishes[i].teacherId == tid) <==> Truthy(dto.notes)
    ensures var s := Replaced(t, tid, dto);
      forall w :: w in s.textWishes && w.teacherId != tid <==> w in t.textWishes && w.teacherId != tid
  {
    var s := Replaced(t, tid, dto);
    var texts := OtherTexts(t.textWishes, tid);
    OtherTextsMembers(t.textWishes, tid);
    if Truthy(dto.notes) {
      assert s.textWishes == texts + [TextWish(t.clock, tid, t.clock)];
      assert s.textWishes[|s.textWishes| - 1].teacherId == tid;
    } else {
      assert s.textWishes == texts;
      forall i | 0 <= i < |texts| ensures texts[i].teacherId != tid {
        assert texts[i] in texts;
      }
    }
  }

  // ---------------------------------------------------------------- validity

  /** Ids and stamps are below the counter and increase along each table. */
  predicate Ascending(ws: seq<ScheduleWish>, clock: nat)
  {
    (forall i :: 0 <= i < |ws| ==> ws[i].id == ws[i].createdAt < clock)
    && forall i, j :: 0 <= i < j < |ws| ==> ws[i].createdAt < ws[j].createdAt
  }

  predicate TextAscending(ws: seq<TextWish>, clock: nat)
  {
    (forall i :: 0 <= i < |ws| ==> ws[i].id == ws[i].createdAt < clock)
    && forall i, j :: 0 <= i < j < |ws| ==> ws[i].createdAt < ws[j].createdAt
  }

  predicate Valid(t: Tables)
  {
    Ascending(t.scheduleWishes, t.clock) && TextAscending(t.textWishes, t.clock)
  }

  lemma AscendingCons(w: ScheduleWish, rest: seq<ScheduleWish>, clock: nat)
    requires Ascending(rest, clock) && w.id == w.createdAt < clock
    requires forall x :: x in rest ==> w.createdAt < x.createdAt
    ensures Ascending([w] + rest, clock)
  {
    var r := [w] + rest;
    forall i, j | 0 <= i < j < |r| ensures r[i].createdAt < r[j].createdAt {
      if i == 0 {
        assert r[j] in rest;
      } else {
        assert r[i] == rest[i - 1] && r[j] == rest[j - 1];
      }
    }
  }

  lemma TextAscendingCons(w: TextWish, rest: seq<TextWish>, clock: nat)
    requires TextAscending(rest, clock) && w.id == w.createdAt < clock
    requires forall x :: x in rest ==> w.createdAt < x.createdAt
    ensures TextAscending([w] + rest, clock)
  {
    var r := [w] + rest;
    forall i, j | 0 <= i < j < |r| ensures r[i].createdAt < r[j].createdAt {
      if i == 0 {
        assert r[j] in rest;
      } else {
        assert r[i] == rest[i - 1] && r[j] == rest[j - 1];
      }
    }
  }

  /** Deleting a teacher's rows keeps the stamps of the rest increasing. */
  lemma {:induction false} OthersAscending(ws: seq<ScheduleWish>, tid: string, clock: nat)
    requires Ascending(ws, clock)
    ensures Ascending(Others(ws, tid), clock)
  {
    if |ws| > 0 {
      var tail := ws[1..];
      assert Ascending(tail, clock);
      OthersAscending(tail, tid, clock);
      if ws[0].teacherId != tid {
        OthersMembers(tail, tid);
        forall x | x in Others(tail, tid) ensures ws[0].createdAt < x.createdAt {
          var m :| 0 <= m < |tail| && tail[m] == x;
          assert ws[m + 1] == x;
        }
        AscendingCons(ws[0], Others(tail, tid), clock);
      }
    }
  }

  lemma {:induction false} OtherTextsAscending(ws: seq<TextWish>, tid: string, clock: nat)
    requires TextAscending(ws, clock)
    ensures TextAscending(OtherTexts(ws, tid), clock)
  {
    if |ws| > 0 {
      var tail := ws[1..];
      assert TextAscending(tail, clock);
      OtherTextsAscending(tail, tid, clock);
      if ws[0].teacherId != tid {
        OtherTextsMembers(tail, tid);
        forall x | x in OtherTexts(tail, tid) ensures ws[0].createdAt < x.createdAt {
          var m :| 0 <= m < |tail| && tail[m] == x;
          assert ws[m + 1] == x;
        }
        TextAscendingCons(ws[0], OtherTexts(tail, tid), clock);
      }
    }
  }

  lemma NewRowsAscending(maps: WeekMaps, tid: string, start: nat)
    ensures Ascending(NewRows(maps, tid, start), start + |maps.even| + |maps.odd|)
    ensures forall i :: 0 <= i < |NewRows(maps, tid, start)| ==> NewRows(maps, tid, start)[i].createdAt == start + i
  {
    var even := Rows("even", maps.even, tid, start);
    var odd := Rows("odd", maps.odd, tid, start + |maps.even|);
    RowsStamps("even", maps.even, tid, start);
    RowsStamps("odd", maps.odd, tid, start + |maps.even|);
    var r := even + odd;
    assert NewRows(maps, tid, start) == r;
    forall i | 0 <= i < |r| ensures r[i].id == r[i].createdAt == start + i {
      if i >= |even| {
        assert r[i] == odd[i - |even|];
        assert odd[i - |even|].id == odd[i - |even|].createdAt == start + |maps.even| + (i - |even|);
      } else {
        assert r[i] == even[i];
        assert even[i].id == even[i].createdAt == start + i;
      }
    }
  }

  lemma AppendAscending(a: seq<ScheduleWish>, b: seq<ScheduleWish>, mid: nat, clock: nat)
    requires Ascending(a, mid) && Ascending(b, clock) && mid <= clock
    requires forall i :: 0 <= i < |b| ==> mid <= b[i].createdAt
    ensures Ascending(a + b, clock)
  {
    var r := a + b;
    forall i, j | 0 <= i < j < |r| ensures r[i].createdAt < r[j].createdAt {
      if j >= |a| && i < |a| {
        assert r[i] == a[i] && r[j] == b[j - |a|];
      }
    }
  }

  /** `addWishes` keeps ids fresh and stamps increasing. */
  lemma ReplacedScheduleAscending(t: Tables, tid: string, dto: WishesDto)
    requires Ascending(t.scheduleWishes, t.clock)
    ensures Ascending(Replaced(t, tid, dto).scheduleWishes, Replaced(t, tid, dto).clock)
  {
    var s := Replaced(t, tid, dto);
    var start := if Truthy(dto.notes) then t.clock + 1 else t.clock;
    var kept := Others(t.scheduleWishes, tid);
    var rows := NewRows(dto.wishes, tid, start);
    assert s.scheduleWishes == kept + rows && s.clock == start + |rows|;
    OthersAscending(t.scheduleWishes, tid, t.clock);
    NewRowsAscending(dto.wishes, tid, start);
    assert Ascending(kept, start);
    AppendAscending(kept, rows, start, s.clock);
  }

  lemma ReplacedTextAscending(t: Tables, tid: string, dto: WishesDto)
    requires TextAscending(t.textWishes, t.clock)
    ensures TextAscending(Replaced(t, tid, dto).textWishes, Replaced(t, tid, dto).clock)
  {
    var s := Replaced(t, tid, dto);
    var texts := OtherTexts(t.textWishes, tid);
    OtherTextsAscending(t.textWishes, tid, t.clock);
    assert s.clock >= t.clock;
    if Truthy(dto.notes) {
      var r := texts + [TextWish(t.clock, tid, t.clock)];
      assert s.textWishes == r && s.clock > t.clock;
      forall i, j | 0 <= i < j < |r| ensures r[i].createdAt < r[j].createdAt {
        assert r[i] == texts[i];
      }
    } else {
      assert s.textWishes == texts;
    }
  }

  /** `addWishes` keeps ids fresh and stamps increasing. */
  lemma AddWishesValid(t: Tables, tid: string, dto: WishesDto)
    requires Valid(t)
    ensures Valid(Replaced(t, tid, dto))
  {
    ReplacedScheduleAscending(t, tid, dto);
    ReplacedTextAscending(t, tid, dto);
  }

  // ------------------------------------------------------------ getAllWishes

  datatype Listed = TextListed(text: TextWish) | ScheduleListed(schedule: ScheduleWish)

  predicate SortedDesc(ws: seq<ScheduleWish>)
  {
    forall i, j :: 0 <= i < j < |ws| ==> ws[i].createdAt >= ws[j].createdAt
  }

  lemma SortedCons(w: ScheduleWish, ws: seq<ScheduleWish>)
    requires SortedDesc(ws) && forall x :: x in ws ==> x.createdAt <= w.createdAt
    ensures SortedDesc([w] + ws)
  {
    var r := [w] + ws;
    forall i, j | 0 <= i < j < |r| ensures r[i].createdAt >= r[j].createdAt {
      if i == 0 {
        assert r[j] in ws;
      } else {
        assert r[i] == ws[i - 1] && r[j] == ws[j - 1];
      }
    }
  }

  /** Inserts `w` before the first wish that is not newer than it. */
  function InsertDesc(w: ScheduleWish, ws: seq<ScheduleWish>): (r: seq<ScheduleWish>)
    ensures multiset(r) == multiset(ws) + multiset{w}
  {
    if |ws| == 0 then [w]
    else if w.createdAt >= ws[0].createdAt then [w] + ws
    else
      assert ws == [ws[0]] + ws[1..];
      [ws[0]] + InsertDesc(w, ws[1..])
  }

  lemma {:induction false} InsertDescSorted(w: ScheduleWish, ws: seq<ScheduleWish>)
    requires SortedDesc(ws)
    ensures SortedDesc(InsertDesc(w, ws))
  {
    if |ws| == 0 {
    } else if w.createdAt >= ws[0].createdAt {
      forall x | x in ws ensures x.createdAt <= w.createdAt {
        var m :| 0 <= m < |ws| && ws[m] == x;
      }
      SortedCons(w, ws);
    } else {
      var tail := ws[1..];
      InsertDescSorted(w, tail);
      var rest := InsertDesc(w, tail);
      forall x | x in rest ensures x.createdAt <= ws[0].createdAt {
        assert x in multiset(rest);
        if x != w {
          assert x in multiset(tail);
          var m :| 0 <= m < |tail| && tail[m] == x;
          assert ws[m + 1] == x;
        }
      }
      SortedCons(ws[0], rest);
    }
  }

  /** `orderBy: { createdAt: 'desc' }`, as an insertion sort. */
  function SortDesc(ws: seq<ScheduleWish>): (r: seq<ScheduleWish>)
    ensures SortedDesc(r) && multiset(r) == multiset(ws)
  {
    if |ws| == 0 then []
    else
      assert ws == [ws[0]] + ws[1..];
      var sorted := SortDesc(ws[1..]);
      InsertDescSorted(ws[0], sorted);
      InsertDesc(ws[0], sorted)
  }

  function TagText(ws: seq<TextWish>): (r: seq<Listed>)
    ensures |r| == |ws| && forall i :: 0 <= i < |ws| ==> r[i] == TextListed(ws[i])
  {
    if |ws| == 0 then [] else [TextListed(ws[0])] + TagText(ws[1..])
  }

  function TagSchedule(ws: seq<ScheduleWish>): (r: seq<Listed>)
    ensures |r| == |ws| && forall i :: 0 <= i < |ws| ==> r[i] == ScheduleListed(ws[i])
  {
    if |ws| == 0 then [] else [ScheduleListed(ws[0])] + TagSchedule(ws[1..])
  }

  /** `getAllWishes`: every text wish, tagged `text`, then every schedule wish, tagged `schedule`, newest first. */
  function AllWishes(t: Tables): (r: seq<Listed>)
    ensures |r| == |t.textWishes| + |t.scheduleWishes|
    ensures forall i :: 0 <= i < |t.textWishes| ==> r[i] == TextListed(t.textWishes[i])
    ensures forall i :: |t.textWishes| <= i < |r| ==> r[i].ScheduleListed?
  {
    TagText(t.textWishes) + TagSchedule(SortDesc(t.scheduleWishes))
  }

  /** The schedule part of the listing holds every schedule wish, each as often as in the table, newest first. */
  lemma AllWishesSchedule(t: Tables)
    ensures var tail := ScheduleOf(AllWishes(t)[|t.textWishes|..]);
      SortedDesc(tail) && multiset(tail) == multiset(t.scheduleWishes)
  {
    var sorted := SortDesc(t.scheduleWishes);
    assert AllWishes(t)[|t.textWishes|..] == TagSchedule(sorted);
    UntagSchedule(sorted);
  }

  /** With the stamps `addWishes` keeps, the schedule part is the table read backwards. */
  lemma AllWishesOfValid(t: Tables)
    requires Valid(t)
    ensures ScheduleOf(AllWishes(t)[|t.textWishes|..]) == Reverse(t.scheduleWishes)
  {
    var sorted := SortDesc(t.scheduleWishes);
    assert AllWishes(t)[|t.textWishes|..] == TagSchedule(sorted);
    UntagSchedule(sorted);
    SortDescOfAscending(t.scheduleWishes, t.clock);
  }

  function ScheduleOf(ls: seq<Listed>): seq<ScheduleWish>
  {
    if |ls| == 0 then []
    else (if ls[0].ScheduleListed? then [ls[0].schedule] else []) + ScheduleOf(ls[1..])
  }

  lemma {:induction false} UntagSchedule(ws: seq<ScheduleWish>)
    ensures ScheduleOf(TagSchedule(ws)) == ws
  {
    if |ws| > 0 {
      UntagSchedule(ws[1..]);
      assert TagSchedule(ws)[1..] == TagSchedule(ws[1..]);
    }
  }

  function Reverse<T>(s: seq<T>): (r: seq<T>)
    ensures |r| == |s| && forall i :: 0 <= i < |s| ==> r[i] == s[|s| - 1 - i]
  {
    if |s| == 0 then [] else Reverse(s[1..]) + [s[0]]
  }

  lemma {:induction false} InsertDescOldest(w: ScheduleWish, ws: seq<ScheduleWish>)
    requires forall i :: 0 <= i < |ws| ==> w.createdAt < ws[i].createdAt
    ensures InsertDesc(w, ws) == ws + [w]
  {
    if |ws| > 0 {
      InsertDescOldest(w, ws[1..]);
      assert ws == [ws[0]] + ws[1..];
    }
  }

  /**
   * In a table whose stamps increase, as `addWishes` keeps them, newest
   * first is the reverse of the table order.
   */
  lemma {:induction false} SortDescOfAscending(ws: seq<ScheduleWish>, clock: nat)
    requires Ascending(ws, clock)
    ensures SortDesc(ws) == Reverse(ws)
  {
    if |ws| > 0 {
      var tail := ws[1..];
      assert Ascending(tail, clock);
      SortDescOfAscending(tail, clock);
      InsertDescOldest(ws[0], Reverse(tail));
    }
  }

  // ---------------------------------------------------------- the service

  class WishStore {
    var teachers: seq<Teacher>
    var scheduleWishes: seq<ScheduleWish>
    var textWishes: seq<TextWish>
    var clock: nat

    function State(): Tables
      reads this
    {
      Tables(teachers, scheduleWishes, textWishes, clock)
    }

    constructor (teachers: seq<Teacher>)
      ensures State() == Tables(teachers, [], [], 0) && Valid(State())
    {
      this.teachers := teachers;
      scheduleWishes := [];
      textWishes := [];
      clock := 0;
    }

    /** The inner loop: one row per entry of one grid, in entry order. */
    method CreateBucket(weekType: string, entries: Obj<Cell>, teacherId: string)
      modifies this
      ensures scheduleWishes == old(scheduleWishes) + Rows(weekType, entries, teacherId, old(clock))
      ensures clock == old(clock) + |entries|
      ensures teachers == old(teachers) && textWishes == old(textWishes)
    {
      var start := clock;
      var base := scheduleWishes;
      for i := 0 to |entries|
        invariant scheduleWishes == base + Rows(weekType, entries[..i], teacherId, start)
        invariant clock == start + i
        invariant teachers == old(teachers) && textWishes == old(textWishes)
      {
        assert entries[..i + 1][..i] == entries[..i];
        scheduleWishes := scheduleWishes + [WishRow(weekType, entries[i], teacherId, clock)];
        clock := clock + 1;
      }
      assert entries[..|entries|] == entries;
    }

    /** The two `deleteMany` calls and the text wish created when the notes are truthy. */
    method ClearTeacher(tid: string, notes: Option<string>)
      modifies this
      ensures scheduleWishes == Others(old(scheduleWishes), tid)
      ensures textWishes == if Truthy(notes) then OtherTexts(old(textWishes), tid) + [TextWish(old(clock), tid, old(clock))]
                            else OtherTexts(old(textWishes), tid)
      ensures clock == if Truthy(notes) then old(clock) + 1 else old(clock)
      ensures teachers == old(teachers)
    {
      scheduleWishes := Others(scheduleWishes, tid);
      textWishes := OtherTexts(textWishes, tid);
      if Truthy(notes) {
        textWishes := textWishes + [TextWish(clock, tid, clock)];
        clock := clock + 1;
      }
    }

    /** `addWishes(dto, userId)`, the teacher looked up by user id. */
    method AddWishes(dto: WishesDto, userId: string) returns (r: Result<string>)
      modifies this
      ensures r == AddWishesPlan(old(State()), dto, userId).0
      ensures State() == AddWishesPlan(old(State()), dto, userId).1
    {
      var found := FindTeacher(teachers, userId);
      if found.None? {
        return Err(PlainError);
      }
      ghost var s0 := State();
      var tid := found.value.id;
      assert AddWishesPlan(s0, dto, userId) == (Ok(Saved), Replaced(s0, tid, dto));
      ClearTeacher(tid, dto.notes);
      ghost var kept, texts, start := scheduleWishes, textWishes, clock;
      CreateBucket("even", dto.wishes.even, tid);
      ghost var even := Rows("even", dto.wishes.even, tid, start);
      CreateBucket("odd", dto.wishes.odd, tid);
      ghost var odd := Rows("odd", dto.wishes.odd, tid, start + |dto.wishes.even|);
      ReplacedSteps(s0, tid, dto, kept, texts, start, even, odd);
      r := Ok(Saved);
    }

    method GetAllWishes() returns (r: seq<Listed>)
      ensures r == AllWishes(State())
    {
      r := TagText(textWishes) + TagSchedule(SortDesc(scheduleWishes));
    }
  }
}
