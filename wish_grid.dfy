/**
 * The teacher's wish grid page: two grids of selected cells, one per week
 * parity, a toggle choosing which grid the clicks edit, and a notes field.
 * Each grid is an object keyed `"<day>-<hour>"`; a selected cell holds an
 * optional discipline and an optional room.
 */
module WishGrid {
  import opened Common
  import opened JsObject
  import opened Wish

  const EmptyCell := Cell(None, None)

  /** Which field of a cell an option sets. */
  datatype Field = DisciplineField | RoomField

  function CellKey(day: string, hour: string): string
  {
    day + "-" + hour
  }

  /** The grid after a click on a cell: a selected cell is removed, an unselected one is added empty. */
  function Toggle(o: Obj<Cell>, key: string): (r: Obj<Cell>)
    ensures key in Keys(o) ==> Get(r, key) == None && forall k :: k in Keys(r) <==> k in Keys(o) && k != key
    ensures key !in Keys(o) ==> Get(r, key) == Some(EmptyCell) && r == o + [(key, EmptyCell)]
    ensures forall k :: k != key ==> Get(r, k) == Get(o, k)
  {
    if Get(o, key).Some? then Remove(o, key)
    else
      PutNew(o, key, EmptyCell);
      PutGet(o, key, EmptyCell);
      Put(o, key, EmptyCell)
  }

  /** The cell after choosing an option: the chosen field is set and the other kept. */
  function SetField(c: Cell, field: Field, option: string): (r: Cell)
    ensures field == DisciplineField ==> r.discipline == Some(option) && r.room == c.room
    ensures field == RoomField ==> r.room == Some(option) && r.discipline == c.discipline
  {
    match field
    case DisciplineField => c.(discipline := Some(option))
    case RoomField => c.(room := Some(option))
  }

  /** The grid after choosing an option for a cell, which is created when it was not selected. */
  function ChooseOption(o: Obj<Cell>, key: string, field: Field, option: string): (r: Obj<Cell>)
  {
    Put(o, key, SetField(Get(o, key).GetOr(EmptyCell), field, option))
  }

  /** Clicking an unselected cell twice gives back the grid it started from, order included. */
  lemma ToggleTwiceUnselected(o: Obj<Cell>, key: string)
    requires key !in Keys(o)
    ensures Toggle(Toggle(o, key), key) == o
  {
    var once := Toggle(o, key);
    assert once == Put(o, key, EmptyCell);
    assert Get(once, key).Some?;
    RemoveAfterPutNew(o, key, EmptyCell);
  }

  /**
   * Clicking a selected cell twice selects it again, but empty and at the
   * end: the discipline and room chosen for it are lost. Every other cell is
   * as before.
   */
  lemma ToggleTwiceSelected(o: Obj<Cell>, key: string)
    requires WellFormed(o) && key in Keys(o)
    ensures Get(Toggle(Toggle(o, key), key), key) == Some(EmptyCell)
    ensures forall k :: k != key ==> Get(Toggle(Toggle(o, key), key), k) == Get(o, k)
    ensures forall k :: k in Keys(Toggle(Toggle(o, key), key)) <==> k in Keys(o)
    ensures Get(o, key) != Some(EmptyCell) ==> Toggle(Toggle(o, key), key) != o
  {
    var once := Toggle(o, key);
    assert key !in Keys(once);
  }

  /** Choosing an option creates the cell if needed, sets the chosen field, keeps the other, and leaves every other cell alone. */
  lemma ChooseOptionCell(o: Obj<Cell>, key: string, field: Field, option: string)
    ensures var c := Get(ChooseOption(o, key, field, option), key);
      c.Some? && SetField(Get(o, key).GetOr(EmptyCell), field, option) == c.value
    ensures forall k :: k != key ==> Get(ChooseOption(o, key, field, option), k) == Get(o, k)
    ensures forall k :: k in Keys(ChooseOption(o, key, field, option)) <==> k in Keys(o) || k == key
  {
    PutGet(o, key, SetField(Get(o, key).GetOr(EmptyCell), field, option));
  }

  class GridPage {
    var even: Obj<Cell>
    var odd: Obj<Cell>
    var isEvenWeek: bool
    var notes: string

    predicate Valid()
      reads this
    {
      WellFormed(even) && WellFormed(odd)
    }

    constructor ()
      ensures Valid() && even == [] && odd == [] && isEvenWeek && notes == ""
    {
      even := [];
      odd := [];
      isEvenWeek := true;
      notes := "";
    }

    /** The grid the clicks currently edit. */
    function Current(): Obj<Cell>
      reads this
    {
      if isEvenWeek then even else odd
    }

    /** `handleCellClick(day, hour)`: only the grid of the chosen week changes. */
    method CellClick(day: string, hour: string)
      requires Valid()
      modifies this
      ensures Valid()
      ensures isEvenWeek == old(isEvenWeek) && notes == old(notes)
      ensures Current() == Toggle(old(Current()), CellKey(day, hour))
      ensures isEvenWeek ==> odd == old(odd)
      ensures !isEvenWeek ==> even == old(even)
    {
      var key := CellKey(day, hour);
      PutRemoveWellFormed(Current(), key, EmptyCell);
      if isEvenWeek {
        even := Toggle(even, key);
      } else {
        odd := Toggle(odd, key);
      }
    }

    /** `handleOptionClick(option, day, hour, type)`: only the grid of the chosen week changes. */
    method OptionClick(option: string, day: string, hour: string, field: Field)
      requires Valid()
      modifies this
      ensures Valid()
      ensures isEvenWeek == old(isEvenWeek) && notes == old(notes)
      ensures Current() == ChooseOption(old(Current()), CellKey(day, hour), field, option)
      ensures isEvenWeek ==> odd == old(odd)
      ensures !isEvenWeek ==> even == old(even)
    {
      var key := CellKey(day, hour);
      var cur := Current();
      var updated := ChooseOption(cur, key, field, option);
      PutRemoveWellFormed(cur, key, SetField(Get(cur, key).GetOr(EmptyCell), field, option));
      if isEvenWeek {
        even := updated;
      } else {
        odd := updated;
      }
    }

    /** `handleSegmentedChange(val)`. */
    method ChooseWeek(val: string)
      modifies this
      ensures isEvenWeek == (val == "even")
      ensures even == old(even) && odd == old(odd) && notes == old(notes)
    {
      isEvenWeek := val == "even";
    }

    /** `handleNotesChange`. */
    method SetNotes(text: string)
      modifies this
      ensures notes == text
      ensures even == old(even) && odd == old(odd) && isEvenWeek == old(isEvenWeek)
    {
      notes := text;
    }

    /** `handleSave`: the request body, both grids and the notes exactly as they stand. */
    method Save() returns (dto: WishesDto)
      ensures dto.wishes.even == even && dto.wishes.odd == odd && dto.notes == Some(notes)
    {
      dto := WishesDto(WeekMaps(even, odd), Some(notes));
    }
  }
}
