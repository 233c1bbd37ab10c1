/**
 * What the constructor grid sends and reads: the half-year code of a
 * semester, the request `handleSave` builds from the two cell objects
 * (parsing each cell's label back into a discipline name and a lesson
 * type), and the busy pairs of a room shown in a cell.
 */
module GridSave {
  import opened Common
  import opened Text
  import opened JsObject
  import opened ConstructorGrid

  // ---------------------------------------------------------------- half-year code

  /**
   * The half-year semester `semester` falls in, as `(year, half)`: half 1
   * is January to June, half 2 July to December.
   */
  function HalfYear(yearOfAdmission: nat, semester: nat): (h: (nat, nat))
    ensures h.1 == 1 || h.1 == 2
  {
    var halfIndex := semester + 1;
    (yearOfAdmission + (halfIndex - 1) / 2, if halfIndex % 2 == 0 then 2 else 1)
  }

  /** `${displayYear}H${halfNumber}`. */
  function HalfYearCode(yearOfAdmission: nat, semester: nat): string
  {
    var h := HalfYear(yearOfAdmission, semester);
    NatToString(h.0) + "H" + NatToString(h.1)
  }

  /** The half-year that follows `h`. */
  function NextHalf(h: (nat, nat)): (nat, nat)
  {
    if h.1 == 1 then (h.0, 2) else (h.0 + 1, 1)
  }

  /** The first semester is the second half of the year of admission, and each semester is the half-year after the one before. */
  lemma HalfYearSteps(yearOfAdmission: nat, semester: nat)
    ensures HalfYear(yearOfAdmission, 1) == (yearOfAdmission, 2)
    ensures HalfYear(yearOfAdmission, semester + 1) == NextHalf(HalfYear(yearOfAdmission, semester))
  {
    var s := semester;
    assert (s + 2) % 2 == s % 2 && (s + 1) / 2 == if s % 2 == 1 then s / 2 + 1 else s / 2;
    assert (s + 1) % 2 == 0 <==> s % 2 == 1;
  }

  /** Different semesters of one cohort have different codes. */
  lemma HalfYearCodeInjective(yearOfAdmission: nat, s1: nat, s2: nat)
    requires HalfYearCode(yearOfAdmission, s1) == HalfYearCode(yearOfAdmission, s2)
    ensures s1 == s2
  {
    var h1, h2 := HalfYear(yearOfAdmission, s1), HalfYear(yearOfAdmission, s2);
    var a1, a2 := NatToString(h1.0), NatToString(h2.0);
    var c := HalfYearCode(yearOfAdmission, s1);
    assert NatToString(h1.1) == [DigitChar(h1.1)] && NatToString(h2.1) == [DigitChar(h2.1)];
    assert |a1| == |a2|;
    assert a1 == c[..|a1|] && a2 == c[..|a2|];
    NatToStringInjective(h1.0, h2.0);
    assert c[|c| - 1] == DigitChar(h1.1) == DigitChar(h2.1);
    assert (s1 + 1) % 2 == 0 <==> (s2 + 1) % 2 == 0;
  }

  // ---------------------------------------------------------------- parsing a label back

  /** A room as the room list holds it. */
  datatype Room = Room(id: string, title: string)

  /** `rooms.find(r => r.title === title)?.id`: the id of the first room with the title. */
  function FindRoomId(rooms: seq<Room>, title: string): (r: Option<string>)
    ensures r.None? <==> forall i :: 0 <= i < |rooms| ==> rooms[i].title != title
    ensures r.Some? ==> exists i :: 0 <= i < |rooms| && rooms[i].title == title && rooms[i].id == r.value
  {
    if |rooms| == 0 then None
    else if rooms[0].title == title then Some(rooms[0].id)
    else
      var r := FindRoomId(rooms[1..], title);
      assert forall i :: 1 <= i < |rooms| ==> rooms[i] == rooms[1..][i - 1];
      r
  }

  /** One cell of the request. */
  datatype SavedCell = SavedCell(disciplineName: string, lessonType: Option<string>, isOnline: Option<bool>,
                                 roomId: Option<string>, teacherIds: Option<seq<string>>)

  /** A parse step: a cell, `return` (the save is abandoned) or a thrown `TypeError`. */
  datatype Step<T> = Keep(value: T) | Abandon | Thrown

  /** The lesson types of the label pattern `/\((Лекция|Практика)\)/`, tried in this order. */
  const Kinds: seq<string> := ["Лекция", "Практика"]

  /** The request code of a lesson type. */
  function CodeOf(kind: string): Option<string>
  {
    if kind == "Лекция" then Some("lecture")
    else if kind == "Практика" then Some("practice")
    else if kind == "Лабораторная" then Some("lab")
    else None
  }

  /** `typeMap[key]` for a map with the lesson types `kinds`. */
  function TypeCode(kinds: seq<string>, key: string): Option<string>
  {
    if key in kinds then CodeOf(key) else None
  }

  /** The cell with its name and type, the room id when a room is set, and the teacher when one is set. */
  function Saved(name: string, lessonType: Option<string>, cell: CellData, rooms: seq<Room>): SavedCell
  {
    SavedCell(name, lessonType, cell.isOnline,
      if Truthy(cell.room) then FindRoomId(rooms, cell.room.value) else None,
      if Truthy(cell.teacherId) then Some([cell.teacherId.value]) else None)
  }

  /** The first alternative `(kind)` that `rest` starts with. */
  function Alternative(rest: string, kinds: seq<string>): (r: Option<string>)
    ensures r.Some? ==> r.value in kinds && StartsWith(rest, "(" + r.value + ")")
  {
    if |kinds| == 0 then None
    else if StartsWith(rest, "(" + kinds[0] + ")") then Some(kinds[0])
    else Alternative(rest, kinds[1..])
  }

  /** The leftmost match of the label pattern at or after `from`: its index and the lesson type it captured. */
  function TypeMatch(s: string, from: nat, kinds: seq<string>): (r: Option<(nat, string)>)
    requires from <= |s|
    ensures r.Some? ==> from <= r.value.0 <= |s| && r.value.1 in kinds
    decreases |s| - from
  {
    match Alternative(s[from..], kinds)
    case Some(kind) => Some((from, kind))
    case None => if from == |s| then None else TypeMatch(s, from + 1, kinds)
  }

  /** One even-week cell: the label must hold the pattern, the name is the text before it. */
  function EvenEntry(cell: CellData, rooms: seq<Room>, kinds: seq<string>): Step<SavedCell>
  {
    match cell.discipline
    case None => Thrown
    case Some(s) =>
      match TypeMatch(s, 0, kinds)
      case None => Abandon
      case Some(m) => Keep(Saved(Trim(s[..m.0]), TypeCode(kinds, m.1), cell, rooms))
  }

  /** One odd-week cell: the label is cut at every `(`; the name is the first piece, the type the second without its first `)`. */
  function OddEntry(cell: CellData, rooms: seq<Room>, kinds: seq<string>): (r: Step<SavedCell>)
    ensures r != Abandon
  {
    match cell.discipline
    case None => Thrown
    case Some(s) =>
      var parts := Split(s, '(');
      if |parts| < 2 then Thrown
      else Keep(Saved(Trim(parts[0]), TypeCode(kinds, Trim(ReplaceFirst(parts[1], ")", ""))), cell, rooms))
  }

  /** Lesson types that hold no bracket and neither start nor end with white space. */
  predicate PlainKinds(kinds: seq<string>)
  {
    forall i :: 0 <= i < |kinds| ==> PlainKind(kinds[i])
  }

  predicate PlainKind(kind: string)
  {
    |kind| > 0 && '(' !in kind && ')' !in kind && !IsSpace(kind[0]) && !IsSpace(kind[|kind| - 1])
  }

  /** A string that does not start with `(` matches no alternative. */
  lemma {:induction false} AlternativeNoParen(rest: string, kinds: seq<string>)
    requires |rest| == 0 || rest[0] != '('
    ensures Alternative(rest, kinds).None?
  {
    if |kinds| > 0 {
      assert !StartsWith(rest, "(" + kinds[0] + ")") by {
        if |rest| > 0 {
          assert ("(" + kinds[0] + ")")[0] == '(';
        }
      }
      AlternativeNoParen(rest, kinds[1..]);
    }
  }

  /** `(a)` opens `(kind)` only when the two are the same, neither holding a `)`. */
  lemma WrappedPrefix(a: string, kind: string)
    requires ')' !in a && ')' !in kind
    ensures StartsWith("(" + kind + ")", "(" + a + ")") <==> a == kind
  {
    var s, p := "(" + kind + ")", "(" + a + ")";
    if |a| < |kind| {
      assert p[|a| + 1] == ')' && s[|a| + 1] == kind[|a|];
      assert s[..|p|][|a| + 1] != p[|a| + 1];
    } else if |a| == |kind| && a != kind {
      var i :| 0 <= i < |a| && a[i] != kind[i];
      assert s[..|p|][i + 1] == kind[i] && p[i + 1] == a[i];
    }
  }

  /** `(kind)` matches an alternative exactly when `kind` is one of them. */
  lemma {:induction false} AlternativeAt(kind: string, kinds: seq<string>)
    requires PlainKinds(kinds) && ')' !in kind
    ensures Alternative("(" + kind + ")", kinds) == if kind in kinds then Some(kind) else None
  {
    if |kinds| > 0 {
      assert PlainKind(kinds[0]);
      WrappedPrefix(kinds[0], kind);
      assert forall i :: 0 <= i < |kinds[1..]| ==> kinds[1..][i] == kinds[i + 1];
      AlternativeAt(kind, kinds[1..]);
    }
  }

  /** The search passes over positions that hold no `(`. */
  lemma {:induction false} TypeMatchSkip(s: string, from: nat, to: nat, kinds: seq<string>)
    requires from <= to <= |s|
    requires forall p :: from <= p < to ==> s[p] != '('
    ensures TypeMatch(s, from, kinds) == TypeMatch(s, to, kinds)
    decreases |s| - from
  {
    if from < to {
      AlternativeNoParen(s[from..], kinds);
      TypeMatchSkip(s, from + 1, to, kinds);
    }
  }

  /** Where the pattern matches a placed label: at its bracket, when its type is one of the alternatives. */
  lemma {:induction false} LabelMatch(name: string, kind: string, kinds: seq<string>)
    requires '(' !in name && PlainKinds(kinds) && PlainKind(kind)
    ensures var s := Label(name, kind);
      TypeMatch(s, 0, kinds) == if kind in kinds then Some((|name| + 1, kind)) else None
  {
    var s := Label(name, kind);
    var at := |name| + 1;
    assert s[at..] == "(" + kind + ")";
    assert forall p :: 0 <= p < at ==> s[p] != '(' by {
      forall p | 0 <= p < at ensures s[p] != '(' {
        if p < |name| {
          assert s[p] == name[p];
        }
      }
    }
    TypeMatchSkip(s, 0, at, kinds);
    AlternativeAt(kind, kinds);
    if kind !in kinds {
      assert forall p :: at + 1 <= p < |s| ==> s[p] != '(' by {
        forall p | at + 1 <= p < |s| ensures s[p] != '(' {
          if p < |s| - 1 {
            assert s[p] == kind[p - at - 1];
          }
        }
      }
      TypeMatchSkip(s, at + 1, |s|, kinds);
      AlternativeNoParen(s[|s|..], kinds);
    }
  }

  /** Cutting a placed label at its `(` gives the name with its trailing space, and the type with its `)`. */
  lemma LabelSplit(name: string, kind: string)
    requires '(' !in name && '(' !in kind
    ensures Split(Label(name, kind), '(') == [name + " ", kind + ")"]
  {
    assert Label(name, kind) == (name + " ") + ['('] + (kind + ")");
    assert '(' !in name + " ";
    SplitAtFirst(name + " ", '(', kind + ")");
    assert '(' !in kind + ")";
    SplitNoSeparator(kind + ")", '(');
  }

  /** Dropping the first `)` of the type piece and trimming it gives the plain type back. */
  lemma KindClosed(kind: string)
    requires PlainKind(kind)
    ensures Trim(ReplaceFirst(kind + ")", ")", "")) == kind
  {
    var t := kind + ")";
    forall p | 0 <= p < |kind| ensures !StartsWith(t[p..], ")") {
      assert t[p..][0] == kind[p];
    }
    assert StartsWith(t[|kind|..], ")");
    IndexOfAt(t, ")", 0, |kind|);
    assert t[..|kind|] == kind && t[|kind| + 1..] == [];
    TrimStartNoop(kind);
    TrimEndNoop(kind);
  }

  /** A placed cell carries an empty room and no teacher, so its request cell has neither. */
  lemma SavedPlaced(name: string, lessonType: Option<string>, sel: PairStores.DisciplineEntry, isOnline: bool, rooms: seq<Room>)
    ensures Saved(name, lessonType, PlacedCell(sel, isOnline), rooms) == SavedCell(name, lessonType, Some(isOnline), None, None)
  {
  }

  /** The even-week parse of a placed label with a bracket-free name. */
  lemma {:induction false} EvenLabel(sel: PairStores.DisciplineEntry, isOnline: bool, rooms: seq<Room>, kinds: seq<string>)
    requires '(' !in sel.disciplineName && PlainKinds(kinds) && PlainKind(sel.kind)
    ensures var cell := PlacedCell(sel, isOnline);
      EvenEntry(cell, rooms, kinds)
        == if sel.kind in kinds then Keep(Saved(Trim(sel.disciplineName), TypeCode(kinds, sel.kind), cell, rooms)) else Abandon
  {
    var name, kind := sel.disciplineName, sel.kind;
    LabelMatch(name, kind, kinds);
    assert Label(name, kind)[..|name| + 1] == name + " ";
    TrimTrailingSpace(name);
  }

  /** The odd-week parse of a placed label with a bracket-free name. */
  lemma {:induction false} OddLabel(sel: PairStores.DisciplineEntry, isOnline: bool, rooms: seq<Room>, kinds: seq<string>)
    requires '(' !in sel.disciplineName && PlainKind(sel.kind)
    ensures var cell := PlacedCell(sel, isOnline);
      OddEntry(cell, rooms, kinds) == Keep(Saved(Trim(sel.disciplineName), TypeCode(kinds, sel.kind), cell, rooms))
  {
    var name, kind := sel.disciplineName, sel.kind;
    LabelSplit(name, kind);
    KindClosed(kind);
    TrimTrailingSpace(name);
  }

  /**
   * A label `placePair` wrote parses back, in either week, to the name it
   * was built from (trimmed) and the code of its lesson type, when the name
   * holds no bracket and the type is one of the alternatives; the room is
   * empty and the teacher unset, so neither is sent.
   */
  lemma {:induction false} LabelRoundTrip(sel: PairStores.DisciplineEntry, isOnline: bool, rooms: seq<Room>, kinds: seq<string>)
    requires '(' !in sel.disciplineName && PlainKinds(kinds) && sel.kind in kinds
    ensures var cell := PlacedCell(sel, isOnline);
      var saved := SavedCell(Trim(sel.disciplineName), CodeOf(sel.kind), Some(isOnline), None, None);
      EvenEntry(cell, rooms, kinds) == Keep(saved) && OddEntry(cell, rooms, kinds) == Keep(saved)
  {
    var k :| 0 <= k < |kinds| && kinds[k] == sel.kind;
    assert PlainKind(kinds[k]);
    EvenLabel(sel, isOnline, rooms, kinds);
    OddLabel(sel, isOnline, rooms, kinds);
    SavedPlaced(Trim(sel.disciplineName), CodeOf(sel.kind), sel, isOnline, rooms);
  }

  /**
   * A placed label whose type is not an alternative: the even week abandons
   * the whole save, the odd week sends the cell with no lesson type.
   */
  lemma {:induction false} LabelUnknownType(sel: PairStores.DisciplineEntry, isOnline: bool, rooms: seq<Room>, kinds: seq<string>)
    requires '(' !in sel.disciplineName && PlainKinds(kinds) && PlainKind(sel.kind) && sel.kind !in kinds
    ensures var cell := PlacedCell(sel, isOnline);
      EvenEntry(cell, rooms, kinds) == Abandon
      && OddEntry(cell, rooms, kinds) == Keep(SavedCell(Trim(sel.disciplineName), None, Some(isOnline), None, None))
  {
    EvenLabel(sel, isOnline, rooms, kinds);
    OddLabel(sel, isOnline, rooms, kinds);
    SavedPlaced(Trim(sel.disciplineName), None, sel, isOnline, rooms);
  }

  /** The three lesson types the constructor creates entries for. */
  const EntryKinds: seq<string> := ["Лекция", "Практика", "Лабораторная"]

  lemma EntryKindsPlain()
    ensures PlainKinds(Kinds) && PlainKinds(EntryKinds)
  {
    assert PlainKind("Лекция") && PlainKind("Практика") && PlainKind("Лабораторная");
  }

  /**
   * A laboratory pair placed in the grid: the even week abandons the save,
   * the odd week sends it without a type.
   */
  lemma LabPairLost(sel: PairStores.DisciplineEntry, isOnline: bool, rooms: seq<Room>)
    requires '(' !in sel.disciplineName && sel.kind == "Лабораторная"
    ensures EvenEntry(PlacedCell(sel, isOnline), rooms, Kinds) == Abandon
    ensures OddEntry(PlacedCell(sel, isOnline), rooms, Kinds).Keep?
    ensures OddEntry(PlacedCell(sel, isOnline), rooms, Kinds).value.lessonType == None
  {
    EntryKindsPlain();
    assert sel.kind !in Kinds;
    assert PlainKind(EntryKinds[2]);
    LabelUnknownType(sel, isOnline, rooms, Kinds);
  }

  /** With the laboratory type among the alternatives, every entry the constructor creates saves with its code, in both weeks. */
  lemma LabPairSaved(sel: PairStores.DisciplineEntry, isOnline: bool, rooms: seq<Room>)
    requires '(' !in sel.disciplineName && sel.kind in EntryKinds
    ensures var saved := SavedCell(Trim(sel.disciplineName), CodeOf(sel.kind), Some(isOnline), None, None);
      saved.lessonType.Some?
      && EvenEntry(PlacedCell(sel, isOnline), rooms, EntryKinds) == Keep(saved)
      && OddEntry(PlacedCell(sel, isOnline), rooms, EntryKinds) == Keep(saved)
  {
    EntryKindsPlain();
    LabelRoundTrip(sel, isOnline, rooms, EntryKinds);
  }

  /** The two weeks disagree on a name with a bracket: the odd week keeps only the text before the first `(`. */
  lemma BracketedName(before: string, after: string, kind: string, isOnline: bool, rooms: seq<Room>)
    requires '(' !in before && '(' !in after && kind in Kinds
    ensures var sel := PairStores.DisciplineEntry("d", before + "(" + after, kind, 1, 0);
      var cell := PlacedCell(sel, isOnline);
      OddEntry(cell, rooms, Kinds).Keep? && OddEntry(cell, rooms, Kinds).value.disciplineName == Trim(before)
  {
    var name := before + "(" + after;
    var s := Label(name, kind);
    assert s == before + ['('] + (after + " (" + kind + ")");
    SplitAtFirst(before, '(', after + " (" + kind + ")");
  }

  // ---------------------------------------------------------------- the request

  /** The parse step of one cell in the given week. */
  function Entry(cell: CellData, rooms: seq<Room>, kinds: seq<string>, evenWeek: bool): Step<SavedCell>
  {
    if evenWeek then EvenEntry(cell, rooms, kinds) else OddEntry(cell, rooms, kinds)
  }

  /** Each cell's key with its parse step, in the order `Object.entries` lists them. */
  function Parsed(cells: Obj<CellData>, rooms: seq<Room>, kinds: seq<string>, evenWeek: bool): (ps: seq<(string, Step<SavedCell>)>)
    ensures |ps| == |cells|
  {
    seq(|cells|, i requires 0 <= i < |cells| => (cells[i].0, Entry(cells[i].1, rooms, kinds, evenWeek)))
  }

  /** One `for … of` loop over the steps: each kept cell assigned to its key, until a step abandons or throws. */
  function Collect(steps: seq<(string, Step<SavedCell>)>): Step<Obj<SavedCell>>
    decreases |steps|
  {
    if |steps| == 0 then Keep([])
    else
      var last := steps[|steps| - 1];
      match Collect(steps[..|steps| - 1])
      case Keep(dto) =>
        (match last.1
         case Keep(c) => Keep(Put(dto, last.0, c))
         case Abandon => Abandon
         case Thrown => Thrown)
      case Abandon => Abandon
      case Thrown => Thrown
  }

  /** The keys of the steps. */
  function StepKeys(steps: seq<(string, Step<SavedCell>)>): (ks: seq<string>)
    ensures |ks| == |steps| && forall i :: 0 <= i < |steps| ==> ks[i] == steps[i].0
  {
    seq(|steps|, i requires 0 <= i < |steps| => steps[i].0)
  }

  /** The kept values under their keys. */
  function Values(steps: seq<(string, Step<SavedCell>)>): (r: Obj<SavedCell>)
    requires forall i :: 0 <= i < |steps| ==> steps[i].1.Keep?
    ensures |r| == |steps| && forall i :: 0 <= i < |steps| ==> r[i].0 == steps[i].0 && r[i].1 == steps[i].1.value
  {
    seq(|steps|, i requires 0 <= i < |steps| => (steps[i].0, steps[i].1.value))
  }

  /** Every step kept its cell. */
  predicate AllKept(steps: seq<(string, Step<SavedCell>)>)
  {
    forall i :: 0 <= i < |steps| ==> steps[i].1.Keep?
  }

  lemma AllKeptLast(steps: seq<(string, Step<SavedCell>)>)
    requires |steps| > 0
    ensures AllKept(steps) <==> AllKept(steps[..|steps| - 1]) && steps[|steps| - 1].1.Keep?
  {
    var init := steps[..|steps| - 1];
    assert forall i :: 0 <= i < |init| ==> init[i] == steps[i];
  }

  /** The loop finishes exactly when every step keeps its cell. */
  lemma {:induction false} CollectKeeps(steps: seq<(string, Step<SavedCell>)>)
    ensures Collect(steps).Keep? <==> AllKept(steps)
    decreases |steps|
  {
    if |steps| > 0 {
      var init := steps[..|steps| - 1];
      CollectKeeps(init);
      AllKeptLast(steps);
    }
  }

  /**
   * With distinct keys, a loop in which every step keeps its cell builds the
   * object holding the cells in the same order under the same keys.
   */
  lemma {:induction false} CollectValues(steps: seq<(string, Step<SavedCell>)>)
    requires Distinct(StepKeys(steps))
    requires forall i :: 0 <= i < |steps| ==> steps[i].1.Keep?
    ensures Collect(steps) == Keep(Values(steps))
    decreases |steps|
  {
    if |steps| > 0 {
      var n := |steps| - 1;
      var init := steps[..n];
      var last := steps[n];
      assert Distinct(StepKeys(init)) by {
        assert StepKeys(init) == StepKeys(steps)[..n];
      }
      assert forall i :: 0 <= i < n ==> init[i] == steps[i];
      CollectValues(init);
      var dto := Values(init);
      assert last.0 !in Keys(dto) by {
        forall j | 0 <= j < n ensures Keys(dto)[j] != last.0 {
          assert Keys(dto)[j] == StepKeys(steps)[j];
        }
      }
      CollectNext(steps, n, dto);
      assert steps[..n + 1] == steps;
      PutNew(dto, last.0, last.1.value);
      ValuesSnoc(steps);
    }
  }

  lemma ValuesSnoc(steps: seq<(string, Step<SavedCell>)>)
    requires |steps| > 0 && forall i :: 0 <= i < |steps| ==> steps[i].1.Keep?
    ensures var n := |steps| - 1;
      Values(steps) == Values(steps[..n]) + [(steps[n].0, steps[n].1.value)]
  {
    var n := |steps| - 1;
    var v := Values(steps[..n]) + [(steps[n].0, steps[n].1.value)];
    forall i | 0 <= i < |steps| ensures Values(steps)[i] == v[i] {
      if i < n {
        assert steps[..n][i] == steps[i];
      }
    }
  }

  /** One week of the request: its cells' steps collected. */
  function SaveWeek(cells: Obj<CellData>, rooms: seq<Room>, kinds: seq<string>, evenWeek: bool): Step<Obj<SavedCell>>
  {
    Collect(Parsed(cells, rooms, kinds, evenWeek))
  }

  /** The step of each cell, under its key. */
  lemma ParsedAt(cells: Obj<CellData>, rooms: seq<Room>, kinds: seq<string>, evenWeek: bool)
    ensures var ps := Parsed(cells, rooms, kinds, evenWeek);
      StepKeys(ps) == Keys(cells)
      && forall i :: 0 <= i < |cells| ==> ps[i].1 == Entry(cells[i].1, rooms, kinds, evenWeek)
  {
    var ps := Parsed(cells, rooms, kinds, evenWeek);
    var ks := StepKeys(ps);
    forall i | 0 <= i < |cells| ensures ks[i] == Keys(cells)[i] {
      assert ps[i].0 == cells[i].0;
    }
  }

  /** Steps listed under an object's keys, all kept, build an object with the same keys holding the kept cells. */
  lemma CollectObject<V>(steps: seq<(string, Step<SavedCell>)>, o: Obj<V>)
    requires WellFormed(o) && StepKeys(steps) == Keys(o) && AllKept(steps)
    ensures Collect(steps).Keep?
    ensures Keys(Collect(steps).value) == Keys(o) && |Collect(steps).value| == |steps|
    ensures forall i :: 0 <= i < |steps| ==> Collect(steps).value[i].1 == steps[i].1.value
  {
    CollectValues(steps);
    var v := Values(steps);
    SameKeys(v, o);
  }

  /** A week is sent exactly when every one of its cells parses. */
  lemma SaveWeekKeeps(cells: Obj<CellData>, rooms: seq<Room>, kinds: seq<string>, evenWeek: bool)
    ensures SaveWeek(cells, rooms, kinds, evenWeek).Keep? <==>
      forall i :: 0 <= i < |cells| ==> Entry(cells[i].1, rooms, kinds, evenWeek).Keep?
  {
    var ps := Parsed(cells, rooms, kinds, evenWeek);
    ParsedAt(cells, rooms, kinds, evenWeek);
    CollectKeeps(ps);
  }

  /**
   * A week whose cells all parse and whose keys are distinct (as an
   * object's are) is sent, under the same keys in the same order.
   */
  lemma SaveWeekValues(cells: Obj<CellData>, rooms: seq<Room>, kinds: seq<string>, evenWeek: bool)
    requires WellFormed(cells)
    requires forall i :: 0 <= i < |cells| ==> Entry(cells[i].1, rooms, kinds, evenWeek).Keep?
    ensures SaveWeek(cells, rooms, kinds, evenWeek).Keep?
    ensures Keys(SaveWeek(cells, rooms, kinds, evenWeek).value) == Keys(cells)
  {
    var ps := Parsed(cells, rooms, kinds, evenWeek);
    ParsedAt(cells, rooms, kinds, evenWeek);
    assert AllKept(ps);
    CollectObject(ps, cells);
    assert SaveWeek(cells, rooms, kinds, evenWeek) == Collect(ps);
  }

  /** In such a week, each key holds its cell parsed on its own. */
  lemma SaveWeekCells(cells: Obj<CellData>, rooms: seq<Room>, kinds: seq<string>, evenWeek: bool, i: nat)
    requires WellFormed(cells)
    requires forall i :: 0 <= i < |cells| ==> Entry(cells[i].1, rooms, kinds, evenWeek).Keep?
    requires i < |cells|
    ensures SaveWeek(cells, rooms, kinds, evenWeek).Keep?
    ensures |SaveWeek(cells, rooms, kinds, evenWeek).value| == |cells|
    ensures Entry(cells[i].1, rooms, kinds, evenWeek) == Keep(SaveWeek(cells, rooms, kinds, evenWeek).value[i].1)
  {
    var ps := Parsed(cells, rooms, kinds, evenWeek);
    ParsedAt(cells, rooms, kinds, evenWeek);
    assert AllKept(ps);
    CollectObject(ps, cells);
    var dto := Collect(ps).value;
    assert dto[i].1 == ps[i].1.value;
    assert ps[i].1 == Entry(cells[i].1, rooms, kinds, evenWeek);
  }

  /** The request `handleSave` posts. */
  datatype Payload = Payload(studyPlanId: string, groupId: string, halfYear: string,
                             even: Obj<SavedCell>, odd: Obj<SavedCell>)

  datatype SaveOutcome = Sent(payload: Payload) | Abandoned | Crashed

  /** `handleSave`: the even week, then the odd week, then the request. */
  function SavePlan(even: Obj<CellData>, odd: Obj<CellData>, rooms: seq<Room>,
                    studyPlanId: string, groupId: string, halfYear: string): SaveOutcome
  {
    match SaveWeek(even, rooms, Kinds, true)
    case Abandon => Abandoned
    case Thrown => Crashed
    case Keep(e) =>
      match SaveWeek(odd, rooms, Kinds, false)
      case Keep(o) => Sent(Payload(studyPlanId, groupId, halfYear, e, o))
      case Abandon => Abandoned
      case Thrown => Crashed
  }

  /** Once the loop has stopped, later steps change nothing. */
  lemma {:induction false} CollectStopped(steps: seq<(string, Step<SavedCell>)>, i: nat)
    requires i <= |steps| && !Collect(steps[..i]).Keep?
    ensures Collect(steps) == Collect(steps[..i])
    decreases |steps| - i
  {
    if i < |steps| {
      assert steps[..i + 1][..i] == steps[..i];
      CollectStopped(steps, i + 1);
    } else {
      assert steps[..i] == steps;
    }
  }

  /** The `i`-th step is the `i`-th cell's key with its parse. */
  lemma ParsedStep(cells: Obj<CellData>, rooms: seq<Room>, kinds: seq<string>, evenWeek: bool, i: nat)
    requires i < |cells|
    ensures Parsed(cells, rooms, kinds, evenWeek)[i] == (cells[i].0, Entry(cells[i].1, rooms, kinds, evenWeek))
  {
  }

  /** One more turn of the loop: the next step decides whether it goes on. */
  lemma CollectNext(steps: seq<(string, Step<SavedCell>)>, i: nat, dto: Obj<SavedCell>)
    requires i < |steps| && Collect(steps[..i]) == Keep(dto)
    ensures steps[i].1.Keep? ==> Collect(steps[..i + 1]) == Keep(Put(dto, steps[i].0, steps[i].1.value))
    ensures steps[i].1 == Abandon ==> Collect(steps[..i + 1]) == Abandon
    ensures steps[i].1 == Thrown ==> Collect(steps[..i + 1]) == Thrown
  {
    assert steps[..i + 1][..i] == steps[..i];
  }

  /** `handleSave` on the grid's cells for the cohort's semester. */
  method HandleSave(grid: GridState, rooms: seq<Room>, studyPlanId: string, groupId: string,
                    yearOfAdmission: nat, semester: nat) returns (outcome: SaveOutcome)
    ensures outcome == SavePlan(grid.even, grid.odd, rooms, studyPlanId, groupId, HalfYearCode(yearOfAdmission, semester))
  {
    var even, odd := grid.even, grid.odd;
    ghost var steps := Parsed(even, rooms, Kinds, true);
    var evenDto: Obj<SavedCell> := [];
    var i := 0;
    while i < |even|
      invariant 0 <= i <= |even| && Collect(steps[..i]) == Keep(evenDto)
    {
      var step := EvenEntry(even[i].1, rooms, Kinds);
      ParsedStep(even, rooms, Kinds, true, i);
      CollectNext(steps, i, evenDto);
      if !step.Keep? {
        CollectStopped(steps, i + 1);
        outcome := if step == Abandon then Abandoned else Crashed;
        return;
      }
      evenDto := Put(evenDto, even[i].0, step.value);
      i := i + 1;
    }
    assert steps[..i] == steps;
    steps := Parsed(odd, rooms, Kinds, false);
    var oddDto: Obj<SavedCell> := [];
    i := 0;
    while i < |odd|
      invariant 0 <= i <= |odd| && Collect(steps[..i]) == Keep(oddDto)
      invariant SaveWeek(even, rooms, Kinds, true) == Keep(evenDto)
    {
      var step := OddEntry(odd[i].1, rooms, Kinds);
      ParsedStep(odd, rooms, Kinds, false, i);
      CollectNext(steps, i, oddDto);
      if !step.Keep? {
        CollectStopped(steps, i + 1);
        outcome := Crashed;
        return;
      }
      oddDto := Put(oddDto, odd[i].0, step.value);
      i := i + 1;
    }
    assert steps[..i] == steps;
    outcome := Sent(Payload(studyPlanId, groupId, HalfYearCode(yearOfAdmission, semester), evenDto, oddDto));
  }

  // ---------------------------------------------------------------- busy pairs of a room

  /** A pair already scheduled in a room, as the busy-room request returns it. */
  datatype BusyPair = BusyPair(id: string, weekType: string, dayOfWeek: string, timeSlotId: string)

  /**
   * `getBusyPairs(roomId, day, hour)`: the room's pairs (none when the room
   * is unknown) in the week shown, on that day and in that slot, in order.
   */
  function BusyPairs(byRoom: Obj<seq<BusyPair>>, roomId: string, day: string, hour: string, isEvenWeek: bool): (r: seq<BusyPair>)
    ensures var all := match Get(byRoom, roomId) case Some(ps) => ps case None => [];
      |r| <= |all|
      && forall p :: p in r <==>
        p in all && p.weekType == (if isEvenWeek then "EVEN" else "ODD") && p.dayOfWeek == day && p.timeSlotId == hour
  {
    var all := match Get(byRoom, roomId) case Some(ps) => ps case None => [];
    var wk := if isEvenWeek then "EVEN" else "ODD";
    Filter(all, (p: BusyPair) => p.weekType == wk && p.dayOfWeek == day && p.timeSlotId == hour)
  }

  /** No pair is busy in both weeks, and a room nobody fetched has no busy pair. */
  lemma BusyWeeksDisjoint(byRoom: Obj<seq<BusyPair>>, roomId: string, day: string, hour: string)
    ensures forall p :: p in BusyPairs(byRoom, roomId, day, hour, true) ==> p !in BusyPairs(byRoom, roomId, day, hour, false)
    ensures roomId !in Keys(byRoom) ==> BusyPairs(byRoom, roomId, day, hour, true) == []
  {
  }
}
