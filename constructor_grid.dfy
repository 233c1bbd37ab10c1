/**
 * The timetable constructor's grid: two objects of cells (even and odd
 * week), keyed `day-hour`, filled by placing the selected discipline,
 * emptied by removing a pair, and annotated with a room or a teacher. Each
 * placement and removal moves one pair between the grid and the counters
 * of the selected-pair store.
 *
 * `Board` is the whole state the grid works on (its two cell objects, the
 * week shown, the store's counters and selection, and the cells the current
 * `placePair` callback captured); `Balanced` says that
 * for every discipline entry the pairs left plus the cells that hold it
 * equal the total it started with. `Place` is `placePair` as written;
 * `PlaceIntended` is the placement that keeps the board balanced.
 */
module ConstructorGrid {
  import opened Common
  import opened JsObject
  import opened PairStores

  /** One cell; every field may be missing, as in the client's record. */
  datatype CellData = CellData(disciplineId: Option<string>, discipline: Option<string>,
                               isOnline: Option<bool>, room: Option<string>, teacherId: Option<string>)

  /** `{}`: the cell `setRoom` and `setTeacher` start from when the key is free. */
  const NoCell := CellData(None, None, None, None, None)

  /** The key of a cell: `${day}-${hour}`. */
  function CellKey(day: string, hour: string): string
  {
    day + "-" + hour
  }

  /** The label a placed cell shows: `${name} (${type})`. */
  function Label(name: string, kind: string): string
  {
    name + " (" + kind + ")"
  }

  /** JavaScript truthiness of an optional flag. */
  predicate IsOn(flag: Option<bool>)
  {
    flag == Some(true)
  }

  /**
   * `seen` is the week's cells as `placePair` captured them: the callback is
   * recreated only when the selection or the week changes, so between those
   * changes it keeps reading the cells of that earlier render.
   */
  datatype Board = Board(even: Obj<CellData>, odd: Obj<CellData>, isEvenWeek: bool,
                         disciplines: seq<DisciplineEntry>, selected: Option<DisciplineEntry>,
                         seen: Obj<CellData>)

  /** The cells of the week on screen. */
  function Week(b: Board): Obj<CellData>
  {
    if b.isEvenWeek then b.even else b.odd
  }

  /** The board with the cells of the week on screen replaced. */
  function WithWeek(b: Board, cells: Obj<CellData>): (r: Board)
    ensures Week(r) == cells && r.isEvenWeek == b.isEvenWeek
    ensures r.disciplines == b.disciplines && r.selected == b.selected && r.seen == b.seen
    ensures b.isEvenWeek ==> r.odd == b.odd
    ensures !b.isEvenWeek ==> r.even == b.even
  {
    if b.isEvenWeek then b.(even := cells) else b.(odd := cells)
  }

  /**
   * Choosing an entry in the list: the selection toggles, and the render
   * that follows recreates `placePair` over the cells then on screen.
   */
  function Choose(b: Board, item: DisciplineEntry): (r: Board)
    ensures r.selected == Toggle(b.selected, item) && r.seen == Week(b)
    ensures r.even == b.even && r.odd == b.odd && r.isEvenWeek == b.isEvenWeek && r.disciplines == b.disciplines
  {
    b.(selected := Toggle(b.selected, item), seen := Week(b))
  }

  /**
   * `handleSegmentedChange(val)`: the even week is shown exactly when `val`
   * is "even"; a change of week recreates `placePair` over that week's cells.
   */
  function ShowWeekOf(b: Board, val: string): (r: Board)
    ensures r.isEvenWeek <==> val == "even"
    ensures r.even == b.even && r.odd == b.odd && r.disciplines == b.disciplines && r.selected == b.selected
    ensures r.isEvenWeek != b.isEvenWeek ==> r.seen == Week(r)
    ensures r.isEvenWeek == b.isEvenWeek ==> r.seen == b.seen
  {
    var evenNow := val == "even";
    if evenNow == b.isEvenWeek then b
    else b.(isEvenWeek := evenNow, seen := if evenNow then b.even else b.odd)
  }

  // ---------------------------------------------------------------- placing a pair

  datatype PlaceOutcome = NoSelection | NoPairsLeft | NoOnlinePairsLeft | Placed

  /** `isEditing`: the cell already holds the selected discipline. */
  predicate Editing(sel: DisciplineEntry, oldCell: Option<CellData>)
  {
    oldCell.Some? && oldCell.value.disciplineId == Some(sel.id)
  }

  /**
   * The cell `placePair` writes. The store's entries carry no teacher list,
   * so `teacherIds?.[0]` is always `undefined` and the teacher stays unset.
   */
  function PlacedCell(sel: DisciplineEntry, isOnline: bool): CellData
  {
    CellData(Some(sel.id), Some(Label(sel.disciplineName, sel.kind)), Some(isOnline), Some(""), None)
  }

  /** The refusals of `placePair`, decided on the selected entry as it was when it was selected. */
  function PlaceCheck(sel: Option<DisciplineEntry>, oldCell: Option<CellData>, isOnline: bool): (r: PlaceOutcome)
    ensures sel.None? <==> r == NoSelection
    ensures r == NoPairsLeft ==> !Editing(sel.value, oldCell) && sel.value.totalPairs <= 0
    ensures r == NoOnlinePairsLeft ==> isOnline && sel.value.onlinePossible <= 0
    ensures sel.Some? && Editing(sel.value, oldCell) && (!isOnline || IsOn(oldCell.value.isOnline)) ==> r == Placed
  {
    if sel.None? then NoSelection
    else if !Editing(sel.value, oldCell) then
      if sel.value.totalPairs <= 0 then NoPairsLeft
      else if isOnline && sel.value.onlinePossible <= 0 then NoOnlinePairsLeft
      else Placed
    else if isOnline && !IsOn(oldCell.value.isOnline) && sel.value.onlinePossible <= 0 then NoOnlinePairsLeft
    else Placed
  }

  /**
   * The counters after `placePair`: one pair taken, and the old pair
   * returned when an edit changes the mode. The return happens inside the
   * cell updater, which runs before the taking when React computes the new
   * cells at once (`eager`) and after it when React defers the updater to
   * the next render.
   */
  function PlaceCounters(ds: seq<DisciplineEntry>, sel: DisciplineEntry, oldCell: Option<CellData>,
                         isOnline: bool, eager: bool): seq<DisciplineEntry>
  {
    if !(Editing(sel, oldCell) && oldCell.value.isOnline != Some(isOnline)) then DecrementAll(ds, sel.id, isOnline)
    else if eager then DecrementAll(IncrementAll(ds, sel.id, IsOn(oldCell.value.isOnline)), sel.id, isOnline)
    else IncrementAll(DecrementAll(ds, sel.id, isOnline), sel.id, IsOn(oldCell.value.isOnline))
  }

  /**
   * `placePair(day, hour, isOnline)` as written: the old cell is read from
   * the cells the callback captured, the new cell is written to the live ones.
   */
  function Place(b: Board, day: string, hour: string, isOnline: bool, eager: bool): (r: (Board, PlaceOutcome))
    ensures r.1 != Placed ==> r.0 == b
    ensures r.1 == Placed ==> b.selected.Some? && Get(Week(r.0), CellKey(day, hour)) == Some(PlacedCell(b.selected.value, isOnline))
    ensures r.0.seen == b.seen && r.0.selected == b.selected && r.0.isEvenWeek == b.isEvenWeek
  {
    var key := CellKey(day, hour);
    var oldCell := Get(b.seen, key);
    var outcome := PlaceCheck(b.selected, oldCell, isOnline);
    if outcome != Placed then (b, outcome)
    else
      var sel := b.selected.value;
      PutGet(Week(b), key, PlacedCell(sel, isOnline));
      var cells := Put(Week(b), key, PlacedCell(sel, isOnline));
      (WithWeek(b, cells).(disciplines := PlaceCounters(b.disciplines, sel, oldCell, isOnline, eager)), Placed)
  }

  // ---------------------------------------------------------------- removing, room, teacher

  /** `removePair(day, hour)`: a cell with a discipline returns its pair; the key is deleted. */
  function RemoveAt(b: Board, day: string, hour: string): (r: Board)
    ensures Get(Week(r), CellKey(day, hour)) == None
    ensures forall k :: k != CellKey(day, hour) ==> Get(Week(r), k) == Get(Week(b), k)
  {
    var key := CellKey(day, hour);
    var cell := Get(Week(b), key);
    var ds := if cell.Some? && Truthy(cell.value.disciplineId)
      then IncrementAll(b.disciplines, cell.value.disciplineId.value, IsOn(cell.value.isOnline))
      else b.disciplines;
    WithWeek(b, Remove(Week(b), key)).(disciplines := ds)
  }

  /** The cell at `key`, or `{}`. */
  function CellOrEmpty(cells: Obj<CellData>, key: string): CellData
  {
    match Get(cells, key)
    case Some(c) => c
    case None => NoCell
  }

  /** `setRoom(day, hour, room)`: the cell (or `{}`) with its room replaced. */
  function SetRoomAt(b: Board, day: string, hour: string, room: string): (r: Board)
    ensures var key := CellKey(day, hour);
      Get(Week(r), key) == Some(CellOrEmpty(Week(b), key).(room := Some(room)))
      && (forall k :: k != key ==> Get(Week(r), k) == Get(Week(b), k))
      && r.disciplines == b.disciplines
  {
    var key := CellKey(day, hour);
    PutGet(Week(b), key, CellOrEmpty(Week(b), key).(room := Some(room)));
    WithWeek(b, Put(Week(b), key, CellOrEmpty(Week(b), key).(room := Some(room))))
  }

  /** `setTeacher(day, hour, teacherId)`: the cell (or `{}`) with its teacher replaced. */
  function SetTeacherAt(b: Board, day: string, hour: string, teacherId: string): (r: Board)
    ensures var key := CellKey(day, hour);
      Get(Week(r), key) == Some(CellOrEmpty(Week(b), key).(teacherId := Some(teacherId)))
      && (forall k :: k != key ==> Get(Week(r), k) == Get(Week(b), k))
      && r.disciplines == b.disciplines
  {
    var key := CellKey(day, hour);
    PutGet(Week(b), key, CellOrEmpty(Week(b), key).(teacherId := Some(teacherId)));
    WithWeek(b, Put(Week(b), key, CellOrEmpty(Week(b), key).(teacherId := Some(teacherId))))
  }

  // ---------------------------------------------------------------- the balance of pairs

  /** 1 when the cell holds discipline `id`. */
  function Hit(cell: Option<CellData>, id: string): nat
  {
    if cell.Some? && cell.value.disciplineId == Some(id) then 1 else 0
  }

  /** How many cells hold discipline `id`. */
  function CountIn(cells: Obj<CellData>, id: string): nat
  {
    if |cells| == 0 then 0 else Hit(Some(cells[0].1), id) + CountIn(cells[1..], id)
  }

  function PlacedCount(b: Board, id: string): nat
  {
    CountIn(b.even, id) + CountIn(b.odd, id)
  }

  /**
   * Against the entries `ds0` as they were set: every entry keeps its id,
   * has a non-negative counter, and its pairs left plus its placed cells
   * make up its total. The cell objects have distinct keys.
   */
  predicate Balanced(b: Board, ds0: seq<DisciplineEntry>)
  {
    WellFormed(b.even) && WellFormed(b.odd) && |b.disciplines| == |ds0|
    && forall k :: 0 <= k < |ds0| ==>
      b.disciplines[k].id == ds0[k].id && ds0[k].id != "" && b.disciplines[k].totalPairs >= 0
      && b.disciplines[k].totalPairs + PlacedCount(b, ds0[k].id) == ds0[k].totalPairs
  }

  /** Writing a cell changes each discipline's count by what leaves and what arrives. */
  lemma {:induction false} CountPut(o: Obj<CellData>, key: string, c: CellData, id: string)
    ensures CountIn(Put(o, key, c), id) + Hit(Get(o, key), id) == CountIn(o, id) + Hit(Some(c), id)
  {
    if |o| > 0 {
      if o[0].0 == key {
        assert Put(o, key, c)[1..] == o[1..];
      } else {
        CountPut(o[1..], key, c, id);
        assert Put(o, key, c)[1..] == Put(o[1..], key, c);
      }
    }
  }

  /** Deleting a key from an object with distinct keys removes exactly its cell from the count. */
  lemma {:induction false} CountRemove(o: Obj<CellData>, key: string, id: string)
    requires WellFormed(o)
    ensures CountIn(Remove(o, key), id) + Hit(Get(o, key), id) == CountIn(o, id)
  {
    if |o| > 0 {
      DistinctCons(o[0].0, Keys(o[1..]));
      assert Keys(o) == [o[0].0] + Keys(o[1..]);
      if o[0].0 == key {
        assert Remove(o[1..], key) == o[1..];
      } else {
        CountRemove(o[1..], key, id);
        assert Remove(o, key)[1..] == Remove(o[1..], key);
      }
    }
  }

  /** A board starts balanced against the entries it was given, when their counters are non-negative and their ids non-empty. */
  lemma StartBalanced(ds0: seq<DisciplineEntry>, isEvenWeek: bool, selected: Option<DisciplineEntry>)
    requires forall k :: 0 <= k < |ds0| ==> ds0[k].id != "" && ds0[k].totalPairs >= 0
    ensures Balanced(Board([], [], isEvenWeek, ds0, selected, []), ds0)
  {
  }

  /** How the cells of the week on screen count against the whole board after they are replaced. */
  lemma {:induction false} WeekCount(b: Board, cells: Obj<CellData>, id: string)
    ensures PlacedCount(WithWeek(b, cells), id) + CountIn(Week(b), id) == PlacedCount(b, id) + CountIn(cells, id)
  {
  }

  /** Removing a pair keeps the board balanced. */
  lemma {:induction false} RemoveBalanced(b: Board, ds0: seq<DisciplineEntry>, day: string, hour: string)
    requires Balanced(b, ds0)
    ensures Balanced(RemoveAt(b, day, hour), ds0)
  {
    var key := CellKey(day, hour);
    var cell := Get(Week(b), key);
    var r := RemoveAt(b, day, hour);
    PutRemoveWellFormed(Week(b), key, NoCell);
    forall k | 0 <= k < |ds0|
      ensures r.disciplines[k].id == ds0[k].id && r.disciplines[k].totalPairs >= 0
      ensures r.disciplines[k].totalPairs + PlacedCount(r, ds0[k].id) == ds0[k].totalPairs
    {
      var id := ds0[k].id;
      CountRemove(Week(b), key, id);
      WeekCount(b, Remove(Week(b), key), id);
      assert PlacedCount(r, id) + Hit(cell, id) == PlacedCount(b, id);
    }
  }

  /** Setting a room or a teacher keeps the board balanced: the cell keeps its discipline. */
  lemma {:induction false} AnnotateBalanced(b: Board, ds0: seq<DisciplineEntry>, day: string, hour: string, text: string)
    requires Balanced(b, ds0)
    ensures Balanced(SetRoomAt(b, day, hour, text), ds0)
    ensures Balanced(SetTeacherAt(b, day, hour, text), ds0)
  {
    var key := CellKey(day, hour);
    var prev := CellOrEmpty(Week(b), key);
    var withRoom, withTeacher := prev.(room := Some(text)), prev.(teacherId := Some(text));
    PutRemoveWellFormed(Week(b), key, withRoom);
    PutRemoveWellFormed(Week(b), key, withTeacher);
    forall k | 0 <= k < |ds0|
      ensures PlacedCount(SetRoomAt(b, day, hour, text), ds0[k].id) == PlacedCount(b, ds0[k].id)
      ensures PlacedCount(SetTeacherAt(b, day, hour, text), ds0[k].id) == PlacedCount(b, ds0[k].id)
    {
      var id := ds0[k].id;
      assert Hit(Some(withRoom), id) == Hit(Get(Week(b), key), id);
      assert Hit(Some(withTeacher), id) == Hit(Get(Week(b), key), id);
      CountPut(Week(b), key, withRoom, id);
      CountPut(Week(b), key, withTeacher, id);
      WeekCount(b, Put(Week(b), key, withRoom), id);
      WeekCount(b, Put(Week(b), key, withTeacher), id);
    }
  }

  // ---------------------------------------------------------------- the intended placement

  /** Every entry with the id has a pair left. */
  predicate PairsLeft(ds: seq<DisciplineEntry>, id: string)
  {
    forall k :: 0 <= k < |ds| && ds[k].id == id ==> ds[k].totalPairs > 0
  }

  /** Every entry with the id has an online pair left. */
  predicate OnlineLeft(ds: seq<DisciplineEntry>, id: string)
  {
    forall k :: 0 <= k < |ds| && ds[k].id == id ==> ds[k].onlinePossible > 0
  }

  /**
   * The checks of a placement that keeps the counters in step with the
   * grid: they read the store's current entries rather than the selection
   * snapshot.
   */
  function IntendedCheck(ds: seq<DisciplineEntry>, sel: Option<DisciplineEntry>, oldCell: Option<CellData>,
                         isOnline: bool): (r: PlaceOutcome)
    ensures sel.None? <==> r == NoSelection
    ensures r == Placed && !Editing(sel.value, oldCell) ==> PairsLeft(ds, sel.value.id)
    ensures r == Placed && isOnline && !(Editing(sel.value, oldCell) && IsOn(oldCell.value.isOnline)) ==> OnlineLeft(ds, sel.value.id)
  {
    if sel.None? then NoSelection
    else if Editing(sel.value, oldCell) then
      if isOnline && !IsOn(oldCell.value.isOnline) && !OnlineLeft(ds, sel.value.id) then NoOnlinePairsLeft
      else Placed
    else if !PairsLeft(ds, sel.value.id) then NoPairsLeft
    else if isOnline && !OnlineLeft(ds, sel.value.id) then NoOnlinePairsLeft
    else Placed
  }

  /**
   * The counters after such a placement: an edit that keeps the mode takes
   * no pair, an edit that changes it returns the old pair and takes the new
   * one, and a cell taken over from another discipline returns that
   * discipline's pair before the new one is taken.
   */
  function IntendedCounters(ds: seq<DisciplineEntry>, sel: DisciplineEntry, oldCell: Option<CellData>,
                            isOnline: bool): seq<DisciplineEntry>
  {
    if Editing(sel, oldCell) then
      var was := oldCell.value.isOnline;
      if was == Some(isOnline) then ds
      else DecrementAll(IncrementAll(ds, sel.id, IsOn(was)), sel.id, isOnline)
    else
      var freed := if oldCell.Some? && Truthy(oldCell.value.disciplineId)
        then IncrementAll(ds, oldCell.value.disciplineId.value, IsOn(oldCell.value.isOnline)) else ds;
      DecrementAll(freed, sel.id, isOnline)
  }

  /** The placement that keeps the board balanced. */
  function PlaceIntended(b: Board, day: string, hour: string, isOnline: bool): (r: (Board, PlaceOutcome))
    ensures r.1 != Placed ==> r.0 == b
    ensures b.selected.None? <==> r.1 == NoSelection
  {
    var key := CellKey(day, hour);
    var oldCell := Get(Week(b), key);
    var outcome := IntendedCheck(b.disciplines, b.selected, oldCell, isOnline);
    if outcome != Placed then (b, outcome)
    else
      var sel := b.selected.value;
      var cells := Put(Week(b), key, PlacedCell(sel, isOnline));
      (WithWeek(b, cells).(disciplines := IntendedCounters(b.disciplines, sel, oldCell, isOnline)), Placed)
  }

  /** One entry's side of a placement: its counter moves against its cell count. */
  lemma EntryStep(total: int, left: int, left': int, placed: nat, placed': nat)
    requires left + placed == total && left' - left == placed - placed'
    ensures left' + placed' == total
  {
  }

  /** The intended placement keeps the board balanced. */
  lemma {:induction false} PlaceIntendedBalanced(b: Board, ds0: seq<DisciplineEntry>, day: string, hour: string, isOnline: bool)
    requires Balanced(b, ds0)
    ensures Balanced(PlaceIntended(b, day, hour, isOnline).0, ds0)
  {
    var r := PlaceIntended(b, day, hour, isOnline);
    var key := CellKey(day, hour);
    var oldCell := Get(Week(b), key);
    if IntendedCheck(b.disciplines, b.selected, oldCell, isOnline) == Placed {
      var sel := b.selected.value;
      var c := PlacedCell(sel, isOnline);
      var ds' := IntendedCounters(b.disciplines, sel, oldCell, isOnline);
      assert r.0 == WithWeek(b, Put(Week(b), key, c)).(disciplines := ds');
      PutRemoveWellFormed(Week(b), key, c);
      forall k | 0 <= k < |ds0|
        ensures r.0.disciplines[k].id == ds0[k].id && r.0.disciplines[k].totalPairs >= 0
        ensures r.0.disciplines[k].totalPairs + PlacedCount(r.0, ds0[k].id) == ds0[k].totalPairs
      {
        var id := ds0[k].id;
        CountPut(Week(b), key, c, id);
        WeekCount(b, Put(Week(b), key, c), id);
        IntendedEntry(b.disciplines, sel, oldCell, isOnline, k);
        EntryStep(ds0[k].totalPairs, b.disciplines[k].totalPairs, ds'[k].totalPairs, PlacedCount(b, id), PlacedCount(r.0, id));
      }
    }
  }

  /** Entry `k`'s counter after an intended placement moves against that entry's cell count. */
  lemma {:induction false} IntendedEntry(ds: seq<DisciplineEntry>, sel: DisciplineEntry, oldCell: Option<CellData>,
                                         isOnline: bool, k: nat)
    requires k < |ds| && ds[k].id != "" && ds[k].totalPairs >= 0
    requires IntendedCheck(ds, Some(sel), oldCell, isOnline) == Placed
    ensures var d' := IntendedCounters(ds, sel, oldCell, isOnline);
      |d'| == |ds| && d'[k].id == ds[k].id && d'[k].totalPairs >= 0
      && d'[k].totalPairs - ds[k].totalPairs == Hit(oldCell, ds[k].id) - Hit(Some(PlacedCell(sel, isOnline)), ds[k].id)
  {
    if Editing(sel, oldCell) {
      EditEntry(ds, sel, oldCell.value, isOnline, k);
    } else {
      assert ds[k].id == sel.id ==> ds[k].totalPairs > 0;
      TakeOverEntry(ds, sel, oldCell, isOnline, k);
    }
  }

  lemma {:induction false} EditEntry(ds: seq<DisciplineEntry>, sel: DisciplineEntry, prev: CellData, isOnline: bool, k: nat)
    requires k < |ds| && ds[k].totalPairs >= 0 && prev.disciplineId == Some(sel.id)
    ensures var d' := IntendedCounters(ds, sel, Some(prev), isOnline);
      |d'| == |ds| && d'[k].id == ds[k].id && d'[k].totalPairs == ds[k].totalPairs
  {
    var was := prev.isOnline;
    if was != Some(isOnline) {
      var up := IncrementAll(ds, sel.id, IsOn(was));
      assert up[k] == IncrementEntry(ds[k], sel.id, IsOn(was));
      assert DecrementAll(up, sel.id, isOnline)[k] == DecrementEntry(up[k], sel.id, isOnline);
    }
  }

  lemma {:induction false} TakeOverEntry(ds: seq<DisciplineEntry>, sel: DisciplineEntry, oldCell: Option<CellData>, isOnline: bool, k: nat)
    requires k < |ds| && ds[k].id != "" && ds[k].totalPairs >= 0 && !Editing(sel, oldCell)
    requires ds[k].id == sel.id ==> ds[k].totalPairs > 0
    ensures var d' := IntendedCounters(ds, sel, oldCell, isOnline);
      |d'| == |ds| && d'[k].id == ds[k].id && d'[k].totalPairs >= 0
      && d'[k].totalPairs - ds[k].totalPairs == Hit(oldCell, ds[k].id) - Hit(Some(PlacedCell(sel, isOnline)), ds[k].id)
  {
    var freed := if oldCell.Some? && Truthy(oldCell.value.disciplineId)
      then IncrementAll(ds, oldCell.value.disciplineId.value, IsOn(oldCell.value.isOnline)) else ds;
    assert freed[k].id == ds[k].id;
    assert freed[k].totalPairs == ds[k].totalPairs + Hit(oldCell, ds[k].id);
    assert DecrementAll(freed, sel.id, isOnline)[k] == DecrementEntry(freed[k], sel.id, isOnline);
  }

  /** The selected entry as the store holds it now: every entry with its id is the snapshot itself. */
  predicate SnapshotCurrent(b: Board)
  {
    b.selected.Some? && b.selected.value in b.disciplines
    && forall k :: 0 <= k < |b.disciplines| && b.disciplines[k].id == b.selected.value.id ==> b.disciplines[k] == b.selected.value
  }

  /**
   * Where the written placement agrees with the intended one: when the
   * selection and the captured cell are current, and the cell is free or an
   * edit switches the mode with the updater run at once.
   */
  lemma PlaceAgrees(b: Board, day: string, hour: string, isOnline: bool, eager: bool)
    requires SnapshotCurrent(b)
    requires var key := CellKey(day, hour); Get(b.seen, key) == Get(Week(b), key)
    requires var oldCell := Get(Week(b), CellKey(day, hour));
      oldCell.None? || (eager && Editing(b.selected.value, oldCell) && oldCell.value.isOnline != Some(isOnline))
    ensures Place(b, day, hour, isOnline, eager) == PlaceIntended(b, day, hour, isOnline)
  {
  }

  // ---------------------------------------------------------------- where the written placement loses count

  const Physics := DisciplineEntry("d1", "Физика", "Лекция", 1, 0)

  /**
   * The check reads the snapshot taken when the discipline was selected:
   * with one pair, two placements in two cells both succeed, and the board
   * holds two cells against a counter of 0.
   */
  lemma StaleSnapshotOverbooks()
    ensures var b0 := Board([], [], true, [Physics], Some(Physics), []);
      var p1 := Place(b0, "Пн", "1", false, true);
      var p2 := Place(p1.0, "Вт", "1", false, true);
      Balanced(b0, [Physics]) && p1.1 == Placed && p2.1 == Placed
      && p2.0.disciplines[0].totalPairs == 0 && PlacedCount(p2.0, "d1") == 2
      && !Balanced(p2.0, [Physics])
  {
    var b0 := Board([], [], true, [Physics], Some(Physics), []);
    var k1, k2, c := CellKey("Пн", "1"), CellKey("Вт", "1"), PlacedCell(Physics, false);
    var p1 := Place(b0, "Пн", "1", false, true);
    assert p1.1 == Placed && p1.0.seen == [];
    assert p1.0.even == [(k1, c)];
    assert p1.0.disciplines == [Physics.(totalPairs := 0)];
    assert k1[0] == 'П' && k2[0] == 'В';
    assert Get(p1.0.even, k2).None?;
    assert Put(p1.0.even, k2, c) == [(k1, c)] + Put([], k2, c);
    var p2 := Place(p1.0, "Вт", "1", false, true);
    assert p2.1 == Placed && p2.0.odd == [];
    assert p2.0.disciplines == [Physics.(totalPairs := 0)];
    assert p2.0.even == [(k1, c), (k2, c)];
    assert p2.0.even[1..] == [(k2, c)] && [(k2, c)][1..] == [];
    assert Hit(Some(c), "d1") == 1;
    assert CountIn([(k2, c)], "d1") == 1;
    assert CountIn(p2.0.even, "d1") == 2;
    assert PlacedCount(p2.0, "d1") == 2;
  }

  /** Placing the same discipline offline on its own offline cell again takes a second pair for one cell. */
  lemma RepeatedPlacementConsumes()
    ensures var e := Physics.(totalPairs := 3);
      var b0 := Board([], [], true, [e], Some(e), []);
      var p1 := Place(b0, "Пн", "1", false, true);
      var p2 := Place(p1.0, "Пн", "1", false, true);
      Balanced(b0, [e]) && p2.1 == Placed && p2.0.disciplines[0].totalPairs == 1
      && PlacedCount(p2.0, "d1") == 1 && !Balanced(p2.0, [e])
  {
    var e := Physics.(totalPairs := 3);
    var b0 := Board([], [], true, [e], Some(e), []);
    var p1 := Place(b0, "Пн", "1", false, true);
    assert p1.0.even == [(CellKey("Пн", "1"), PlacedCell(e, false))];
    assert p1.0.disciplines == [e.(totalPairs := 2)];
    var p2 := Place(p1.0, "Пн", "1", false, true);
    assert p2.0.even == [(CellKey("Пн", "1"), PlacedCell(e, false))];
  }

  /** Placing one discipline over another's cell takes the new pair but never returns the old one. */
  lemma OverwriteLosesPair()
    ensures var a := Physics;
      var c := DisciplineEntry("d2", "Химия", "Практика", 1, 0);
      var b0 := Board([], [], true, [a, c], Some(a), []);
      var p1 := Place(b0, "Пн", "1", false, true);
      var p2 := Place(Choose(p1.0, c), "Пн", "1", false, true);
      Balanced(b0, [a, c]) && p2.1 == Placed
      && p2.0.disciplines[0].totalPairs == 0 && PlacedCount(p2.0, "d1") == 0
      && !Balanced(p2.0, [a, c])
  {
    var a := Physics;
    var c := DisciplineEntry("d2", "Химия", "Практика", 1, 0);
    var b0 := Board([], [], true, [a, c], Some(a), []);
    var p1 := Place(b0, "Пн", "1", false, true);
    assert p1.0.even == [(CellKey("Пн", "1"), PlacedCell(a, false))];
    assert p1.0.disciplines == [a.(totalPairs := 0), c];
    var p2 := Place(Choose(p1.0, c), "Пн", "1", false, true);
    assert p2.0.even == [(CellKey("Пн", "1"), PlacedCell(c, false))];
    assert p2.0.disciplines == [a.(totalPairs := 0), c.(totalPairs := 0)];
  }

  const Optics := DisciplineEntry("d3", "Оптика", "Практика", 1, 1)

  /**
   * The old cell comes from the cells the callback captured when the
   * discipline was chosen: placing a pair offline and then online in the
   * same cell sees no old cell the second time, so the online pair is never
   * taken, where the intended placement takes it.
   */
  lemma StaleCellSkipsOnline()
    ensures var b0 := Board([], [], true, [Optics], Some(Optics), []);
      var p1 := Place(b0, "Пн", "1", false, true);
      var p2 := Place(p1.0, "Пн", "1", true, true);
      p1.1 == Placed && p2.1 == Placed
      && Get(Week(p2.0), CellKey("Пн", "1")) == Some(PlacedCell(Optics, true))
      && p2.0.disciplines == [Optics.(totalPairs := 0)]
      && PlaceIntended(p1.0, "Пн", "1", true).0.disciplines == [Optics.(totalPairs := 0, onlinePossible := 0)]
  {
    var b0 := Board([], [], true, [Optics], Some(Optics), []);
    var key := CellKey("Пн", "1");
    var p1 := Place(b0, "Пн", "1", false, true);
    assert p1.0.even == [(key, PlacedCell(Optics, false))];
    assert p1.0.disciplines == [Optics.(totalPairs := 0)];
    var p2 := Place(p1.0, "Пн", "1", true, true);
    assert p2.0.even == [(key, PlacedCell(Optics, true))];
    var up := IncrementAll(p1.0.disciplines, "d3", false);
    assert up == [Optics];
    assert DecrementAll(up, "d3", true) == [Optics.(totalPairs := 0, onlinePossible := 0)];
  }

  /**
   * When React defers the cell updater, the pair taken by a mode switch is
   * taken before the old one is returned: with no pair left the taking does
   * nothing and the return adds one, so the board holds one cell against a
   * counter of 1. Run at once, the same switch keeps the board balanced.
   */
  lemma DeferredUpdaterGainsPair()
    ensures var b0 := Board([], [], true, [Optics], Some(Optics), []);
      var p1 := Place(b0, "Пн", "1", false, true);
      var b1 := Choose(Choose(p1.0, Optics), p1.0.disciplines[0]);
      var now := Place(b1, "Пн", "1", true, true);
      var later := Place(b1, "Пн", "1", true, false);
      Balanced(b1, [Optics]) && now.1 == Placed && later.1 == Placed
      && Balanced(now.0, [Optics])
      && later.0.disciplines == [Optics] && PlacedCount(later.0, "d3") == 1
      && !Balanced(later.0, [Optics])
  {
    var b0 := Board([], [], true, [Optics], Some(Optics), []);
    var key := CellKey("Пн", "1");
    var p1 := Place(b0, "Пн", "1", false, true);
    var spent := Optics.(totalPairs := 0);
    assert p1.0.even == [(key, PlacedCell(Optics, false))];
    assert p1.0.disciplines == [spent];
    var b1 := Choose(Choose(p1.0, Optics), p1.0.disciplines[0]);
    assert b1.selected == Some(spent) && b1.seen == [(key, PlacedCell(Optics, false))];
    assert Hit(Some(PlacedCell(Optics, false)), "d3") == 1;
    assert PlacedCount(b1, "d3") == 1;
    var now := Place(b1, "Пн", "1", true, true);
    var later := Place(b1, "Пн", "1", true, false);
    assert now.0.even == [(key, PlacedCell(spent, true))] && later.0.even == now.0.even;
    assert Hit(Some(PlacedCell(spent, true)), "d3") == 1;
    assert PlacedCount(now.0, "d3") == 1;
    assert IncrementAll([spent], "d3", false) == [Optics];
    assert now.0.disciplines == [spent.(onlinePossible := 0)];
    assert DecrementAll([spent], "d3", true) == [spent];
    assert later.0.disciplines == [Optics];
  }

  // ---------------------------------------------------------------- the component's state

  /**
   * The grid component's own state (the cells of both weeks and the week
   * shown); the counters and the selection live in the selected-pair store.
   */
  class GridState {
    var even: Obj<CellData>
    var odd: Obj<CellData>
    var isEvenWeek: bool
    /** The cells of the week on screen as the current `placePair` callback captured them. */
    var seen: Obj<CellData>

    constructor ()
      ensures even == [] && odd == [] && isEvenWeek && seen == []
    {
      even := [];
      odd := [];
      isEvenWeek := true;
      seen := [];
    }

    function BoardWith(store: SelectedPairStore): Board
      reads this, store
    {
      Board(even, odd, isEvenWeek, store.disciplines, store.selectedDiscipline, seen)
    }

    /** `setSelectedCells(prev => { …, [weekKey]: cells })`. */
    method SetWeekCells(cells: Obj<CellData>)
      modifies this
      ensures isEvenWeek == old(isEvenWeek)
      ensures isEvenWeek ==> even == cells && odd == old(odd)
      ensures !isEvenWeek ==> odd == cells && even == old(even)
      ensures seen == old(seen)
    {
      if isEvenWeek {
        even := cells;
      } else {
        odd := cells;
      }
    }

    /** `handleSegmentedChange(val)`, with the callback recreated when the week changes. */
    method ShowWeek(store: SelectedPairStore, val: string)
      modifies this
      ensures BoardWith(store) == ShowWeekOf(old(BoardWith(store)), val)
    {
      var evenNow := val == "even";
      if evenNow != isEvenWeek {
        isEvenWeek := evenNow;
        seen := if evenNow then even else odd;
      }
    }

    /** A click on an entry of the list: `toggleDiscipline(item)`, with the callback recreated. */
    method ChooseDiscipline(store: SelectedPairStore, item: DisciplineEntry)
      modifies this, store
      ensures BoardWith(store) == Choose(old(BoardWith(store)), item)
    {
      store.ToggleDiscipline(item);
      seen := if isEvenWeek then even else odd;
    }

    /**
     * The semester effect: both weeks are emptied. `semester` is not among
     * the callback's dependencies, so the captured cells stay.
     */
    method ResetCells()
      modifies this
      ensures even == [] && odd == [] && isEvenWeek == old(isEvenWeek) && seen == old(seen)
    {
      even := [];
      odd := [];
    }

    /** `placePair(day, hour, isOnline)`; `eager` says whether React runs the cell updater at once. */
    method PlacePair(store: SelectedPairStore, day: string, hour: string, isOnline: bool, eager: bool)
      returns (outcome: PlaceOutcome)
      modifies this, store
      ensures (BoardWith(store), outcome) == Place(old(BoardWith(store)), day, hour, isOnline, eager)
    {
      var key := CellKey(day, hour);
      var week := if isEvenWeek then even else odd;
      var oldCell := Get(seen, key);
      outcome := PlaceCheck(store.selectedDiscipline, oldCell, isOnline);
      if outcome != Placed {
        return;
      }
      var sel := store.selectedDiscipline.value;
      var giveBack := Editing(sel, oldCell) && oldCell.value.isOnline != Some(isOnline);
      if giveBack && eager {
        store.IncrementPair(sel.id, IsOn(oldCell.value.isOnline));
      }
      SetWeekCells(Put(week, key, PlacedCell(sel, isOnline)));
      store.DecrementPair(sel.id, isOnline);
      if giveBack && !eager {
        store.IncrementPair(sel.id, IsOn(oldCell.value.isOnline));
      }
    }

    /** `removePair(day, hour)`. */
    method RemovePair(store: SelectedPairStore, day: string, hour: string)
      modifies this, store
      ensures BoardWith(store) == RemoveAt(old(BoardWith(store)), day, hour)
    {
      var key := CellKey(day, hour);
      var week := if isEvenWeek then even else odd;
      var cell := Get(week, key);
      if cell.Some? && Truthy(cell.value.disciplineId) {
        store.IncrementPair(cell.value.disciplineId.value, IsOn(cell.value.isOnline));
      }
      SetWeekCells(Remove(week, key));
    }

    /** `setRoom(day, hour, room)`. */
    method SetRoom(store: SelectedPairStore, day: string, hour: string, room: string)
      modifies this
      ensures BoardWith(store) == SetRoomAt(old(BoardWith(store)), day, hour, room)
    {
      var key := CellKey(day, hour);
      var week := if isEvenWeek then even else odd;
      SetWeekCells(Put(week, key, CellOrEmpty(week, key).(room := Some(room))));
    }

    /** `setTeacher(day, hour, teacherId)`. */
    method SetTeacher(store: SelectedPairStore, day: string, hour: string, teacherId: string)
      modifies this
      ensures BoardWith(store) == SetTeacherAt(old(BoardWith(store)), day, hour, teacherId)
    {
      var key := CellKey(day, hour);
      var week := if isEvenWeek then even else odd;
      SetWeekCells(Put(week, key, CellOrEmpty(week, key).(teacherId := Some(teacherId))));
    }
  }
}
