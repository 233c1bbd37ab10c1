/**
 * The schedule service (`back-nestjs/src/schedule/schedule.service.ts`):
 * the table of scheduled pairs with its three link tables (pair–group,
 * pair–room, pair–teacher) and the time-slot table, the bulk replacement of
 * one study plan's half-year (weekly and distance-learning variants), the
 * distance-learning read-back, and the busy queries.
 *
 * Pairs refer to their teacher–discipline assignment by its unique
 * (discipline, type) key. Pair ids come from a counter. `Promise.all`
 * starts the creations together; the model applies them one at a time in
 * array order, which is the order of the rows it returns.
 */
module Schedule {
  import opened Common
  import opened Text
  import JsObject
  import opened Calendar

  datatype AssignmentKey = AssignmentKey(discipline: string, lessonType: string)

  datatype TimeSlot = TimeSlot(id: string, start: string, end: Option<string>, title: string)

  /** One row of `schedulePair`. */
  datatype Pair = Pair(
    id: nat,
    halfYear: Option<string>,
    weekType: Option<WeekType>,
    numberWeek: Option<int>,
    academicWeek: Option<AcademicWeek>,
    dayOfWeek: DayOfWeek,
    timeSlotId: string,
    studyPlanId: string,
    assignment: AssignmentKey,
    isOnline: bool,
    isHoliday: bool,
    holidayName: Option<string>)

  /** A row of a link table: pair `pairId` is linked to the group, room or teacher `target`. */
  datatype Link = Link(pairId: nat, target: string)

  /** The `numberWeek` a creation is given: none, a number, or NaN (which the database rejects). */
  datatype NumberWeek = Absent | Number(n: int) | NotANumber
  {
    /** The column value of an accepted creation. */
    function Stored(): Option<int>
    {
      if Number? then Some(n) else None
    }
  }

  /** The arguments of one `schedulePair.create` call, before it runs. */
  datatype Draft = Draft(
    halfYear: Option<string>,
    weekType: Option<WeekType>,
    numberWeek: NumberWeek,
    academicWeek: Option<AcademicWeek>,
    dayOfWeek: DayOfWeek,
    slot: TimeSlot,
    studyPlanId: string,
    assignment: AssignmentKey,
    isOnline: bool,
    isHoliday: bool,
    holidayName: Option<string>,
    groups: seq<string>,
    rooms: seq<string>,
    teachers: seq<string>)

  /**
   * The rows a creation's `connect` clauses can name: study plans,
   * teacher–discipline assignments, groups, audiences and teachers.
   */
  datatype Existing = Existing(
    studyPlans: set<string>,
    assignments: set<AssignmentKey>,
    groups: set<string>,
    rooms: set<string>,
    teachers: set<string>)

  /**
   * The database accepts a creation when its week number is not NaN and
   * every row it connects to exists; otherwise that `create` rejects.
   */
  predicate Accepted(d: Draft, db: Existing)
  {
    !d.numberWeek.NotANumber? && d.studyPlanId in db.studyPlans && d.assignment in db.assignments
    && (forall g :: g in d.groups ==> g in db.groups)
    && (forall a :: a in d.rooms ==> a in db.rooms)
    && (forall t :: t in d.teachers ==> t in db.teachers)
  }

  datatype LinkKind = GroupLink | RoomLink | TeacherLink

  function Targets(d: Draft, k: LinkKind): seq<string>
  {
    match k
    case GroupLink => d.groups
    case RoomLink => d.rooms
    case TeacherLink => d.teachers
  }

  /** The row a creation writes, given the id it receives. */
  function Materialize(d: Draft, id: nat): Pair
  {
    Pair(id, d.halfYear, d.weekType, d.numberWeek.Stored(),
      d.academicWeek, d.dayOfWeek, d.slot.id, d.studyPlanId, d.assignment,
      d.isOnline, d.isHoliday, d.holidayName)
  }

  /** The rows of the creations of `ds`, the first receiving id `base`. */
  function MaterializeAll(ds: seq<Draft>, base: nat): (ps: seq<Pair>)
    ensures |ps| == |ds|
  {
    seq(|ds|, i requires 0 <= i < |ds| => Materialize(ds[i], base + i))
  }

  function LinksOf(id: nat, targets: seq<string>): (ls: seq<Link>)
    ensures |ls| == |targets|
  {
    seq(|targets|, i requires 0 <= i < |targets| => Link(id, targets[i]))
  }

  /** The link rows the creations of `ds` write, the first creation receiving id `base`. */
  function NewLinks(ds: seq<Draft>, base: nat, k: LinkKind): seq<Link>
  {
    if |ds| == 0 then []
    else NewLinks(ds[..|ds| - 1], base, k) + LinksOf(base + |ds| - 1, Targets(ds[|ds| - 1], k))
  }

  /** `connectOrCreate` on the time-slot table: an existing slot with that id is kept as it is. */
  function AddSlot(slots: map<string, TimeSlot>, s: TimeSlot): map<string, TimeSlot>
  {
    if s.id in slots then slots else slots[s.id := s]
  }

  function SlotsAfter(slots: map<string, TimeSlot>, ds: seq<Draft>): map<string, TimeSlot>
  {
    if |ds| == 0 then slots else AddSlot(SlotsAfter(slots, ds[..|ds| - 1]), ds[|ds| - 1].slot)
  }

  /** Ids of the pairs a bulk save replaces: those of the study plan and half-year. */
  function ScopeIds(ps: seq<Pair>, studyPlanId: string, halfYear: string): set<nat>
  {
    set p | p in ps && p.studyPlanId == studyPlanId && p.halfYear == Some(halfYear) :: p.id
  }

  function KeepPairs(ps: seq<Pair>, ids: set<nat>): seq<Pair>
  {
    Filter(ps, (p: Pair) => p.id !in ids)
  }

  function KeepLinks(ls: seq<Link>, ids: set<nat>): seq<Link>
  {
    Filter(ls, (l: Link) => l.pairId !in ids)
  }

  /** The group-link delete is restricted to the request's group. */
  function KeepGroupLinks(ls: seq<Link>, ids: set<nat>, groupId: string): seq<Link>
  {
    Filter(ls, (l: Link) => !(l.pairId in ids && l.target == groupId))
  }

  // ------------------------------------------------------------ request keys

  /** `mapDay`: Russian and English day names; anything else is a BadRequest. */
  function MapDay(s: string): Result<DayOfWeek>
  {
    if s == "Понедельник" || s == "Monday" then Ok(MON)
    else if s == "Вторник" || s == "Tuesday" then Ok(TUE)
    else if s == "Среда" || s == "Wednesday" then Ok(WED)
    else if s == "Четверг" || s == "Thursday" then Ok(THU)
    else if s == "Пятница" || s == "Friday" then Ok(FRI)
    else if s == "Суббота" || s == "Saturday" then Ok(SAT)
    else if s == "Воскресенье" || s == "Sunday" then Ok(SUN)
    else Err(BadRequest)
  }

  function RussianName(d: DayOfWeek): string
  {
    match d
    case MON => "Понедельник" case TUE => "Вторник" case WED => "Среда"
    case THU => "Четверг" case FRI => "Пятница" case SAT => "Суббота"
    case SUN => "Воскресенье"
  }

  function EnglishName(d: DayOfWeek): string
  {
    match d
    case MON => "Monday" case TUE => "Tuesday" case WED => "Wednesday"
    case THU => "Thursday" case FRI => "Friday" case SAT => "Saturday"
    case SUN => "Sunday"
  }

  /** Every day is accepted under its Russian and under its English name. */
  lemma MapDayNames(d: DayOfWeek)
    ensures MapDay(RussianName(d)) == Ok(d) && MapDay(EnglishName(d)) == Ok(d)
  {
    match d
    case MON =>
    case TUE =>
    case WED =>
    case THU =>
    case FRI =>
    case SAT =>
    case SUN =>
  }

  /** `mapDay` accepts exactly the fourteen names and nothing else. */
  lemma MapDayExactly(s: string)
    ensures MapDay(s).Ok? <==> exists d: DayOfWeek :: s == RussianName(d) || s == EnglishName(d)
  {
    if MapDay(s).Ok? {
      var d := MapDay(s).value;
      assert s == RussianName(d) || s == EnglishName(d);
    } else {
      forall d: DayOfWeek ensures s != RussianName(d) && s != EnglishName(d) {
        MapDayNames(d);
      }
    }
  }

  /** `daySlot.split('-', 2)[1].trim()`: the slot label after the first hyphen; `None` when `.trim()` would fail on `undefined`. */
  function SlotTitle(key: string): Option<string>
  {
    var parts := SplitLimit(key, '-', 2);
    if |parts| < 2 then None else Some(Trim(parts[1]))
  }

  /** `daySlot.split('-', 1)[0]`: the text before the first hyphen. */
  function DayLabel(key: string): string
  {
    SplitLimit(key, '-', 1)[0]
  }

  /** The time slot a cell connects to or creates: id with the em dash normalised, start and end split at hyphens. */
  function SlotFor(title: string): TimeSlot
  {
    var id := ReplaceDash(title);
    var pieces := Split(id, '-');
    TimeSlot(id, pieces[0], At(pieces, 1), title)
  }

  // ------------------------------------------------------------ bulk save

  /** One cell of the submitted grid. */
  datatype CellDto = CellDto(
    disciplineName: string,
    lessonType: string,
    isOnline: bool,
    roomId: Option<string>,
    teacherIds: Option<seq<string>>)

  datatype Scope = Scope(studyPlanId: string, groupId: string, halfYear: string)

  /** The weekly (full-time) request: `schedule.even` then `schedule.odd`. */
  datatype BulkRequest = BulkRequest(scope: Scope, even: JsObject.Obj<CellDto>, odd: JsObject.Obj<CellDto>)

  /** The distance-learning request: `schedule` keyed "week1" … "week4". */
  datatype DistanceRequest = DistanceRequest(scope: Scope, weeks: JsObject.Obj<JsObject.Obj<CellDto>>)

  /**
   * What one loop iteration does before pushing its creation: look the
   * assignment up (NotFound), cut the slot label out of the key (a crash
   * when the key has no hyphen) and map the day name (BadRequest).
   */
  function CellDraft(scope: Scope, weekType: Option<WeekType>, numberWeek: NumberWeek,
                     key: string, cell: CellDto, known: set<AssignmentKey>): Result<Draft>
  {
    var assignment := AssignmentKey(cell.disciplineName, cell.lessonType);
    if assignment !in known then Err(NotFound)
    else match SlotTitle(key)
      case None => Err(Crash)
      case Some(title) =>
        match MapDay(DayLabel(key))
        case Err(e) => Err(e)
        case Ok(day) =>
          Ok(Draft(Some(scope.halfYear), weekType, numberWeek, None, day, SlotFor(title),
            scope.studyPlanId, assignment, cell.isOnline, false, None,
            [scope.groupId],
            if Truthy(cell.roomId) then [cell.roomId.value] else [],
            cell.teacherIds.GetOr([])))
  }

  /** The creations prepared for one week's cells; the first failing cell aborts. */
  function PlanCells(scope: Scope, weekType: Option<WeekType>, numberWeek: NumberWeek,
                     cells: JsObject.Obj<CellDto>, known: set<AssignmentKey>): Result<seq<Draft>>
  {
    MapAll(cells, CellStep(scope, weekType, numberWeek, known))
  }

  /** The body of the loop over one week's cells, as a function of the cell entry. */
  function CellStep(scope: Scope, weekType: Option<WeekType>, numberWeek: NumberWeek, known: set<AssignmentKey>)
    : ((string, CellDto)) -> Result<Draft>
  {
    (c: (string, CellDto)) => CellDraft(scope, weekType, numberWeek, c.0, c.1, known)
  }

  /** A successful cell is a creation for the request's group, plan and half-year, in the given week, not a holiday. */
  lemma CellDraftShape(scope: Scope, weekType: Option<WeekType>, numberWeek: NumberWeek,
                       key: string, cell: CellDto, known: set<AssignmentKey>)
    ensures var r := CellDraft(scope, weekType, numberWeek, key, cell, known);
      (r.Ok? <==> AssignmentKey(cell.disciplineName, cell.lessonType) in known
                  && SlotTitle(key).Some? && MapDay(DayLabel(key)).Ok?)
      && (r.Ok? ==>
        r.value.groups == [scope.groupId] && r.value.halfYear == Some(scope.halfYear)
        && r.value.studyPlanId == scope.studyPlanId && r.value.weekType == weekType
        && r.value.numberWeek == numberWeek && !r.value.isHoliday
        && r.value.assignment == AssignmentKey(cell.disciplineName, cell.lessonType)
        && r.value.dayOfWeek == MapDay(DayLabel(key)).value
        && r.value.slot == SlotFor(SlotTitle(key).value))
  {
  }

  /** The weekly plan: the even cells, then the odd cells. */
  function BulkPlan(req: BulkRequest, known: set<AssignmentKey>): Result<seq<Draft>>
  {
    match PlanCells(req.scope, Some(EVEN), Absent, req.even, known)
    case Err(e) => Err(e)
    case Ok(a) =>
      match PlanCells(req.scope, Some(ODD), Absent, req.odd, known)
      case Err(e) => Err(e)
      case Ok(b) => Ok(a + b)
  }

  /** `parseInt(weekKey.replace('week', ''), 10)`. */
  function NumberWeekOf(key: string): NumberWeek
  {
    match ParseInt(ReplaceFirst(key, "week", ""))
    case None => NotANumber
    case Some(n) => Number(n)
  }

  /** The keys the client sends, "week1" … "week4", give the week numbers 1 … 4. */
  lemma NumberWeekOfWeekKey(n: nat)
    ensures NumberWeekOf("week" + NatToString(n)) == Number(n)
  {
    var key := "week" + NatToString(n);
    assert StartsWith(key[0..], "week");
    assert IndexOf(key, "week", 0) == Some(0);
    assert ReplaceFirst(key, "week", "") == NatToString(n) by {
      assert key[4..] == NatToString(n);
    }
    ParseIntOfNatToString(n, "");
    assert NatToString(n) + "" == NatToString(n);
  }

  /** The distance plan: week by week, in the order of the request's keys. */
  function DistancePlan(req: DistanceRequest, known: set<AssignmentKey>): Result<seq<Draft>>
  {
    PlanWeeks(req.scope, req.weeks, known)
  }

  function PlanWeeks(scope: Scope, weeks: JsObject.Obj<JsObject.Obj<CellDto>>, known: set<AssignmentKey>): Result<seq<Draft>>
  {
    if |weeks| == 0 then Ok([])
    else
      match PlanWeeks(scope, weeks[..|weeks| - 1], known)
      case Err(e) => Err(e)
      case Ok(ds) =>
        var (key, cells) := weeks[|weeks| - 1];
        match PlanCells(scope, None, NumberWeekOf(key), cells, known)
        case Err(e) => Err(e)
        case Ok(more) => Ok(ds + more)
  }

  lemma {:induction false} PlanWeeksErrSticky(scope: Scope, weeks: JsObject.Obj<JsObject.Obj<CellDto>>, known: set<AssignmentKey>, n: nat)
    requires n <= |weeks| && PlanWeeks(scope, weeks[..n], known).Err?
    ensures PlanWeeks(scope, weeks, known) == PlanWeeks(scope, weeks[..n], known)
    decreases |weeks| - n
  {
    if n < |weeks| {
      assert weeks[..n + 1][..n] == weeks[..n];
      PlanWeeksErrSticky(scope, weeks, known, n + 1);
    } else {
      assert weeks[..n] == weeks;
    }
  }

  /** The creations the database accepts, in order: `Promise.all` starts them all, and the rejected ones write nothing. */
  function AcceptedDrafts(ds: seq<Draft>, db: Existing): (r: seq<Draft>)
    ensures AllAccepted(r, db) && forall d :: d in r <==> d in ds && Accepted(d, db)
  {
    Filter(ds, (d: Draft) => Accepted(d, db))
  }

  predicate AllAccepted(ds: seq<Draft>, db: Existing)
  {
    forall d :: d in ds ==> Accepted(d, db)
  }

  /** A creation for the scope's group, plan and half-year, in the given week, not a holiday. */
  predicate ForScope(d: Draft, scope: Scope, weekType: Option<WeekType>, numberWeek: NumberWeek)
  {
    d.groups == [scope.groupId] && d.halfYear == Some(scope.halfYear)
    && d.studyPlanId == scope.studyPlanId && d.weekType == weekType
    && d.numberWeek == numberWeek && !d.isHoliday
  }

  /** Every creation a bulk save prepares links its pair to the request's group, and to nothing else of that kind. */
  lemma PlanCellsGroups(scope: Scope, weekType: Option<WeekType>, numberWeek: NumberWeek,
                        cells: JsObject.Obj<CellDto>, known: set<AssignmentKey>)
    requires PlanCells(scope, weekType, numberWeek, cells, known).Ok?
    ensures forall d :: d in PlanCells(scope, weekType, numberWeek, cells, known).value ==>
      ForScope(d, scope, weekType, numberWeek)
  {
    var f := CellStep(scope, weekType, numberWeek, known);
    var ds := PlanCells(scope, weekType, numberWeek, cells, known).value;
    MapAllOk(cells, f);
    forall d | d in ds ensures ForScope(d, scope, weekType, numberWeek) {
      var i :| 0 <= i < |ds| && ds[i] == d;
      CellDraftShape(scope, weekType, numberWeek, cells[i].0, cells[i].1, known);
    }
  }

  /** A key "<day>-<rest>" with a hyphen-free day and rest splits into that day and the trimmed rest. */
  lemma KeyParts(dayName: string, rest: string)
    requires '-' !in dayName && '-' !in rest
    ensures DayLabel(dayName + "-" + rest) == dayName
    ensures SlotTitle(dayName + "-" + rest) == Some(Trim(rest))
  {
    var key := dayName + "-" + rest;
    assert key == dayName + ['-'] + rest;
    SplitAtFirst(dayName, '-', rest);
    SplitNoSeparator(rest, '-');
    assert Split(key, '-') == [dayName, rest];
  }

  /** The label "<start> — <end>" has no hyphen when its halves have none. */
  lemma CanonicalLabelNoHyphen(start: string, end: string)
    requires '-' !in start && '-' !in end
    ensures '-' !in start + " " + [EmDash] + " " + end
  {
    var slotLabel := start + " " + [EmDash] + " " + end;
    assert slotLabel == start + [' ', EmDash, ' '] + end;
    forall i | 0 <= i < |slotLabel| ensures slotLabel[i] != '-' {
      if i < |start| {
        assert slotLabel[i] == start[i];
        assert start[i] in start;
      } else if i >= |start| + 3 {
        assert slotLabel[i] == end[i - |start| - 3];
        assert end[i - |start| - 3] in end;
      }
    }
  }

  /** The slot for the label "<start> — <end>" has id "<start>-<end>", start `start` and end `end`. */
  lemma CanonicalSlot(start: string, end: string)
    requires '-' !in start && '-' !in end && EmDash !in start
    requires start != [] && !IsSpace(start[|start| - 1])
    requires end != [] && !IsSpace(end[0])
    ensures var slotLabel := start + " " + [EmDash] + " " + end;
      SlotFor(slotLabel) == TimeSlot(start + "-" + end, start, Some(end), slotLabel)
  {
    ReplaceDashCanonical(start, end);
    var id := start + "-" + end;
    assert id == start + ['-'] + end;
    SplitAtFirst(start, '-', end);
    SplitNoSeparator(end, '-');
  }

  /**
   * A canonical cell key "<day name>-<start> — <end>" yields the day name,
   * the label "<start> — <end>" as the slot title, and the slot with id
   * "<start>-<end>", start `start` and end `end`.
   */
  lemma CanonicalKey(dayName: string, start: string, end: string)
    requires '-' !in dayName && '-' !in start && '-' !in end
    requires EmDash !in start
    requires start != [] && !IsSpace(start[0]) && !IsSpace(start[|start| - 1])
    requires end != [] && !IsSpace(end[0]) && !IsSpace(end[|end| - 1])
    ensures var key := dayName + "-" + start + " " + [EmDash] + " " + end;
      DayLabel(key) == dayName
      && SlotTitle(key) == Some(start + " " + [EmDash] + " " + end)
      && SlotFor(SlotTitle(key).value) == TimeSlot(start + "-" + end, start, Some(end), start + " " + [EmDash] + " " + end)
  {
    var slotLabel := start + " " + [EmDash] + " " + end;
    CanonicalLabelNoHyphen(start, end);
    assert dayName + "-" + start + " " + [EmDash] + " " + end == dayName + "-" + slotLabel;
    KeyParts(dayName, slotLabel);
    assert slotLabel[0] == start[0] && slotLabel[|slotLabel| - 1] == end[|end| - 1];
    TrimStartNoop(slotLabel);
    TrimEndNoop(slotLabel);
    CanonicalSlot(start, end);
  }

  // ------------------------------------------------------------ distance read-back

  /** One cell of the distance-learning schedule as `getDistanceSchedule` returns it. */
  datatype DistanceCell = DistanceCell(
    disciplineName: string,
    lessonType: string,
    isOnline: bool,
    roomId: Option<string>,
    teacherIds: seq<string>)

  function FirstTarget(ls: seq<Link>, id: nat): Option<string>
  {
    if |ls| == 0 then None
    else if ls[0].pairId == id then Some(ls[0].target)
    else FirstTarget(ls[1..], id)
  }

  function TargetsOf(ls: seq<Link>, id: nat): seq<string>
  {
    if |ls| == 0 then []
    else (if ls[0].pairId == id then [ls[0].target] else []) + TargetsOf(ls[1..], id)
  }

  /** The key of a pair in its week's map: "<DAY>-<slot title>". */
  function DistanceKey(p: Pair, slots: map<string, TimeSlot>): string
    requires p.timeSlotId in slots
  {
    p.dayOfWeek.Name() + "-" + slots[p.timeSlotId].title
  }

  /** A pair's cell: its assignment, the first linked room and all linked teachers. */
  function DistanceCellOf(p: Pair, rooms: seq<Link>, teachers: seq<Link>): DistanceCell
  {
    DistanceCell(p.assignment.discipline, p.assignment.lessonType, p.isOnline,
      FirstTarget(rooms, p.id), TargetsOf(teachers, p.id))
  }

  predicate InWeekRange(p: Pair)
  {
    p.numberWeek.Some? && 1 <= p.numberWeek.value <= 4
  }

  /** One iteration: `schedule[weekKey][daySlot] = cell`, failing when `schedule[weekKey]` is undefined. */
  function DistanceStep(weeks: seq<JsObject.Obj<DistanceCell>>, p: Pair, slots: map<string, TimeSlot>,
                        rooms: seq<Link>, teachers: seq<Link>): (r: Result<seq<JsObject.Obj<DistanceCell>>>)
    requires |weeks| == 4 && p.timeSlotId in slots
    ensures r.Ok? <==> InWeekRange(p)
    ensures r.Ok? ==> |r.value| == 4
  {
    if InWeekRange(p) then Ok(PlaceDistance(weeks, p, slots, rooms, teachers)) else Err(Crash)
  }

  /** The iteration in week range: the pair's cell stored under its key in the map of its own week. */
  function PlaceDistance(weeks: seq<JsObject.Obj<DistanceCell>>, p: Pair, slots: map<string, TimeSlot>,
                         rooms: seq<Link>, teachers: seq<Link>): (r: seq<JsObject.Obj<DistanceCell>>)
    requires |weeks| == 4 && p.timeSlotId in slots && InWeekRange(p)
    ensures |r| == 4
  {
    PutCell(weeks, p.numberWeek.value - 1, DistanceKey(p, slots), DistanceCellOf(p, rooms, teachers))
  }

  /** `schedule[weekKey][daySlot] = cell` on the map of week `n`. */
  function PutCell(weeks: seq<JsObject.Obj<DistanceCell>>, n: nat, key: string, cell: DistanceCell)
    : (r: seq<JsObject.Obj<DistanceCell>>)
    requires n < |weeks|
    ensures |r| == |weeks|
  {
    weeks[n := JsObject.Put(weeks[n], key, cell)]
  }

  /** The four week maps, filled pair by pair. */
  function DistanceFold(ps: seq<Pair>, slots: map<string, TimeSlot>, rooms: seq<Link>, teachers: seq<Link>)
    : (r: Result<seq<JsObject.Obj<DistanceCell>>>)
    requires forall p :: p in ps ==> p.timeSlotId in slots
    ensures r.Ok? ==> |r.value| == 4
  {
    if |ps| == 0 then Ok([[], [], [], []])
    else
      match DistanceFold(ps[..|ps| - 1], slots, rooms, teachers)
      case Err(e) => Err(e)
      case Ok(weeks) => DistanceStep(weeks, ps[|ps| - 1], slots, rooms, teachers)
  }

  lemma {:induction false} DistanceFoldErrSticky(ps: seq<Pair>, slots: map<string, TimeSlot>, rooms: seq<Link>, teachers: seq<Link>, n: nat)
    requires forall p :: p in ps ==> p.timeSlotId in slots
    requires n <= |ps| && DistanceFold(ps[..n], slots, rooms, teachers).Err?
    ensures DistanceFold(ps, slots, rooms, teachers) == DistanceFold(ps[..n], slots, rooms, teachers)
    decreases |ps| - n
  {
    if n < |ps| {
      assert ps[..n + 1][..n] == ps[..n];
      DistanceFoldErrSticky(ps, slots, rooms, teachers, n + 1);
    } else {
      assert ps[..n] == ps;
    }
  }

  /** The read-back fails exactly when some pair lacks a week number in 1 … 4; a weekly pair has none. */
  lemma {:induction false} DistanceFoldOk(ps: seq<Pair>, slots: map<string, TimeSlot>, rooms: seq<Link>, teachers: seq<Link>)
    requires forall p :: p in ps ==> p.timeSlotId in slots
    ensures DistanceFold(ps, slots, rooms, teachers).Ok? <==> forall p :: p in ps ==> InWeekRange(p)
  {
    if |ps| > 0 {
      var init := ps[..|ps| - 1];
      assert forall q :: q in ps <==> q in init || q == ps[|ps| - 1];
      DistanceFoldOk(init, slots, rooms, teachers);
    }
  }

  /** One iteration adds the pair's key to its own week's map and leaves the keys of every map otherwise as they were. */
  lemma DistanceStepKeys(weeks: seq<JsObject.Obj<DistanceCell>>, p: Pair, slots: map<string, TimeSlot>,
                         rooms: seq<Link>, teachers: seq<Link>)
    requires |weeks| == 4 && p.timeSlotId in slots && InWeekRange(p)
    ensures KeysAdded(weeks, DistanceStep(weeks, p, slots, rooms, teachers).value, p.numberWeek.value - 1, DistanceKey(p, slots))
  {
    var n := p.numberWeek.value - 1;
    var key := DistanceKey(p, slots);
    var cell := DistanceCellOf(p, rooms, teachers);
    DistanceStepPlaces(weeks, p, slots, rooms, teachers);
    PlaceDistanceIsPut(weeks, p, slots, rooms, teachers, n, key, cell);
    PutCellKeys(weeks, n, key, cell);
  }

  /** The four week maps `after` have the keys of `before`, plus `key` in week `n`. */
  ghost predicate KeysAdded(before: seq<JsObject.Obj<DistanceCell>>, after: seq<JsObject.Obj<DistanceCell>>, n: int, key: string)
  {
    |before| == 4 && |after| == 4
    && forall w, k :: 0 <= w < 4 ==>
      (k in JsObject.Keys(after[w]) <==> k in JsObject.Keys(before[w]) || (w == n && k == key))
  }

  /** Storing a cell in one week's map adds its key to that week and changes no other week's keys. */
  lemma PutCellKeys(weeks: seq<JsObject.Obj<DistanceCell>>, n: nat, key: string, cell: DistanceCell)
    requires |weeks| == 4 && n < 4
    ensures KeysAdded(weeks, PutCell(weeks, n, key, cell), n, key)
  {
    var put := JsObject.Put(weeks[n], key, cell);
    assert PutCell(weeks, n, key, cell) == weeks[n := put];
    forall w, k | 0 <= w < 4
      ensures k in JsObject.Keys(weeks[n := put][w]) <==> k in JsObject.Keys(weeks[w]) || (w == n && k == key)
    {
      if w != n {
        assert weeks[n := put][w] == weeks[w];
      }
    }
  }

  /** The fold over a non-empty list is its fold over all but the last pair, followed by one iteration. */
  lemma DistanceFoldLast(ps: seq<Pair>, slots: map<string, TimeSlot>, rooms: seq<Link>, teachers: seq<Link>)
    requires forall p :: p in ps ==> p.timeSlotId in slots
    requires |ps| > 0 && DistanceFold(ps, slots, rooms, teachers).Ok?
    ensures var init := ps[..|ps| - 1];
      var p := ps[|ps| - 1];
      (forall q :: q in ps <==> q in init || q == p)
      && DistanceFold(init, slots, rooms, teachers).Ok? && InWeekRange(p)
      && DistanceFold(ps, slots, rooms, teachers)
         == DistanceStep(DistanceFold(init, slots, rooms, teachers).value, p, slots, rooms, teachers)
  {
    var init := ps[..|ps| - 1];
    forall q | q in ps ensures q in init || q == ps[|ps| - 1] {
      var i :| 0 <= i < |ps| && ps[i] == q;
      if i < |init| {
        assert init[i] == q;
      }
    }
  }

  /** When the read-back succeeds, every pair's "<DAY>-<slot title>" key is in the map of its week. */
  lemma {:induction false} DistanceFoldCovers(ps: seq<Pair>, slots: map<string, TimeSlot>, rooms: seq<Link>, teachers: seq<Link>)
    requires forall p :: p in ps ==> p.timeSlotId in slots
    requires DistanceFold(ps, slots, rooms, teachers).Ok?
    ensures var weeks := DistanceFold(ps, slots, rooms, teachers).value;
      forall p :: p in ps ==> InWeekRange(p) && DistanceKey(p, slots) in JsObject.Keys(weeks[p.numberWeek.value - 1])
  {
    if |ps| > 0 {
      var init := ps[..|ps| - 1];
      var p := ps[|ps| - 1];
      DistanceFoldLast(ps, slots, rooms, teachers);
      var weeks := DistanceFold(init, slots, rooms, teachers).value;
      DistanceFoldCovers(init, slots, rooms, teachers);
      DistanceStepKeys(weeks, p, slots, rooms, teachers);
    }
  }

  /** Key `k` of week `w`'s map is the key of some pair of that week. */
  predicate KeyFromPair(ps: seq<Pair>, slots: map<string, TimeSlot>, w: nat, k: string)
  {
    exists p :: p in ps && p.timeSlotId in slots && p.numberWeek == Some(w + 1) && DistanceKey(p, slots) == k
  }

  /** When the read-back succeeds, every key of a week's map comes from a pair of that week. */
  lemma {:induction false} DistanceFoldOnlyPairs(ps: seq<Pair>, slots: map<string, TimeSlot>, rooms: seq<Link>, teachers: seq<Link>)
    requires forall p :: p in ps ==> p.timeSlotId in slots
    requires DistanceFold(ps, slots, rooms, teachers).Ok?
    ensures var weeks := DistanceFold(ps, slots, rooms, teachers).value;
      forall w: nat, k :: w < 4 && k in JsObject.Keys(weeks[w]) ==> KeyFromPair(ps, slots, w, k)
  {
    if |ps| > 0 {
      var init := ps[..|ps| - 1];
      var p := ps[|ps| - 1];
      DistanceFoldLast(ps, slots, rooms, teachers);
      var weeks := DistanceFold(init, slots, rooms, teachers).value;
      DistanceFoldOnlyPairs(init, slots, rooms, teachers);
      DistanceStepKeys(weeks, p, slots, rooms, teachers);
      KeysFromPairsStep(init, p, ps, slots, weeks, DistanceFold(ps, slots, rooms, teachers).value);
    }
  }

  /** The step of `DistanceFoldOnlyPairs`, on the maps alone. */
  lemma KeysFromPairsStep(init: seq<Pair>, p: Pair, ps: seq<Pair>, slots: map<string, TimeSlot>,
                          weeks: seq<JsObject.Obj<DistanceCell>>, after: seq<JsObject.Obj<DistanceCell>>)
    requires |weeks| == 4 && |after| == 4 && p.timeSlotId in slots && InWeekRange(p)
    requires p in ps && forall q :: q in init ==> q in ps
    requires forall w: nat, k :: w < 4 && k in JsObject.Keys(weeks[w]) ==> KeyFromPair(init, slots, w, k)
    requires KeysAdded(weeks, after, p.numberWeek.value - 1, DistanceKey(p, slots))
    ensures forall w: nat, k :: w < 4 && k in JsObject.Keys(after[w]) ==> KeyFromPair(ps, slots, w, k)
  {
    forall w: nat, k | w < 4 && k in JsObject.Keys(after[w]) ensures KeyFromPair(ps, slots, w, k) {
      if k in JsObject.Keys(weeks[w]) {
        var q :| q in init && q.timeSlotId in slots && q.numberWeek == Some(w + 1) && DistanceKey(q, slots) == k;
        assert q in ps;
      } else {
        assert p.numberWeek == Some(w + 1) && DistanceKey(p, slots) == k;
      }
    }
  }

  /** Pair `p` is written under key `k` of week `w`'s map. */
  predicate Lands(p: Pair, slots: map<string, TimeSlot>, w: nat, k: string)
  {
    p.timeSlotId in slots && p.numberWeek == Some(w + 1) && DistanceKey(p, slots) == k
  }

  /** The last pair of the list written under key `k` of week `w`'s map, if any. */
  function LastAt(ps: seq<Pair>, slots: map<string, TimeSlot>, w: nat, k: string): (r: Option<Pair>)
    ensures r.Some? ==> Lands(r.value, slots, w, k)
  {
    if |ps| == 0 then None
    else if Lands(ps[|ps| - 1], slots, w, k) then Some(ps[|ps| - 1])
    else LastAt(ps[..|ps| - 1], slots, w, k)
  }

  /** `LastAt` finds nothing exactly when no pair lands on the key, and otherwise a pair that no later pair follows there. */
  lemma LastAtIsLast(ps: seq<Pair>, slots: map<string, TimeSlot>, w: nat, k: string)
    ensures LastAt(ps, slots, w, k).None? <==> forall i :: 0 <= i < |ps| ==> !Lands(ps[i], slots, w, k)
    ensures LastAt(ps, slots, w, k).Some? ==>
      exists i :: (0 <= i < |ps| && ps[i] == LastAt(ps, slots, w, k).value
        && forall j :: i < j < |ps| ==> !Lands(ps[j], slots, w, k))
  {
    LastAtNone(ps, slots, w, k);
    LastAtLatest(ps, slots, w, k);
  }

  /** `LastAt` finds nothing exactly when no pair lands on the key. */
  lemma {:induction false} LastAtNone(ps: seq<Pair>, slots: map<string, TimeSlot>, w: nat, k: string)
    ensures LastAt(ps, slots, w, k).None? <==> forall i :: 0 <= i < |ps| ==> !Lands(ps[i], slots, w, k)
  {
    if |ps| > 0 && !Lands(ps[|ps| - 1], slots, w, k) {
      var init := ps[..|ps| - 1];
      LastAtNone(init, slots, w, k);
      assert forall i :: 0 <= i < |init| ==> init[i] == ps[i];
    }
  }

  /** What `LastAt` finds is a pair of the list that no later pair follows on the key. */
  lemma {:induction false} LastAtLatest(ps: seq<Pair>, slots: map<string, TimeSlot>, w: nat, k: string)
    ensures LastAt(ps, slots, w, k).Some? ==>
      exists i :: (0 <= i < |ps| && ps[i] == LastAt(ps, slots, w, k).value
        && forall j :: i < j < |ps| ==> !Lands(ps[j], slots, w, k))
  {
    if |ps| > 0 {
      var last := |ps| - 1;
      if Lands(ps[last], slots, w, k) {
        assert ps[last] == LastAt(ps, slots, w, k).value;
      } else {
        var init := ps[..last];
        LastAtLatest(init, slots, w, k);
        if LastAt(init, slots, w, k).Some? {
          var i :| 0 <= i < |init| && init[i] == LastAt(init, slots, w, k).value
            && forall j :: i < j < |init| ==> !Lands(init[j], slots, w, k);
          NoLaterLanding(ps, init, slots, w, k, i);
          assert ps[i] == LastAt(ps, slots, w, k).value;
        }
      }
    }
  }

  /** A pair of all but the last that no later pair follows on the key is still not followed when the last pair misses it. */
  lemma NoLaterLanding(ps: seq<Pair>, init: seq<Pair>, slots: map<string, TimeSlot>, w: nat, k: string, i: nat)
    requires |ps| > 0 && init == ps[..|ps| - 1] && !Lands(ps[|ps| - 1], slots, w, k) && i < |init|
    requires forall j :: i < j < |init| ==> !Lands(init[j], slots, w, k)
    ensures forall j :: i < j < |ps| ==> !Lands(ps[j], slots, w, k)
  {
    assert forall j :: i < j < |init| ==> init[j] == ps[j];
  }

  /** The cell a key holds when `q` is the last pair written under it. */
  function CellFrom(q: Option<Pair>, rooms: seq<Link>, teachers: seq<Link>): Option<DistanceCell>
  {
    if q.Some? then Some(DistanceCellOf(q.value, rooms, teachers)) else None
  }

  /**
   * When the read-back succeeds, each key of each week's map holds the cell
   * of the last pair written under it, and no cell where no pair lands: a
   * later pair at the same day and slot of the same week overwrites an
   * earlier one. No pairs give four empty maps.
   */
  lemma {:induction false} DistanceFoldValues(ps: seq<Pair>, slots: map<string, TimeSlot>, rooms: seq<Link>, teachers: seq<Link>)
    requires forall p :: p in ps ==> p.timeSlotId in slots
    requires DistanceFold(ps, slots, rooms, teachers).Ok?
    ensures var weeks := DistanceFold(ps, slots, rooms, teachers).value;
      (|ps| == 0 ==> weeks == [[], [], [], []])
      && forall w: nat, k :: w < 4 ==> JsObject.Get(weeks[w], k) == CellFrom(LastAt(ps, slots, w, k), rooms, teachers)
  {
    if |ps| > 0 {
      var init := ps[..|ps| - 1];
      var p := ps[|ps| - 1];
      DistanceFoldLast(ps, slots, rooms, teachers);
      DistanceFoldValues(init, slots, rooms, teachers);
      var weeks := DistanceFold(init, slots, rooms, teachers).value;
      var after := DistanceFold(ps, slots, rooms, teachers).value;
      var n := p.numberWeek.value - 1;
      var key := DistanceKey(p, slots);
      assert after == PutCell(weeks, n, key, DistanceCellOf(p, rooms, teachers));
      assert after == weeks[n := JsObject.Put(weeks[n], key, DistanceCellOf(p, rooms, teachers))];
      JsObject.PutGet(weeks[n], key, DistanceCellOf(p, rooms, teachers));
      forall w: nat, k | w < 4
        ensures JsObject.Get(after[w], k) == CellFrom(LastAt(ps, slots, w, k), rooms, teachers)
      {
        if Lands(p, slots, w, k) {
          assert w == n && k == key;
        } else {
          assert LastAt(ps, slots, w, k) == LastAt(init, slots, w, k);
          assert JsObject.Get(after[w], k) == JsObject.Get(weeks[w], k);
        }
      }
    }
  }

  // ------------------------------------------------------------ busy map helper

  datatype SlotRecord = SlotRecord(weekType: Option<WeekType>, dayOfWeek: DayOfWeek, timeSlotId: string)

  datatype Unit = Unit

  function SlotKey(r: SlotRecord): string
  {
    r.dayOfWeek.Name() + "-" + r.timeSlotId
  }

  /**
   * `groupBySlot`: marks each record's "<DAY>-<slot id>" key in `even` when
   * its week type is EVEN and in `odd` otherwise (a record without a week
   * type lands in `odd`).
   */
  method GroupBySlot(records: seq<SlotRecord>) returns (even: JsObject.Obj<Unit>, odd: JsObject.Obj<Unit>)
    ensures forall k :: k in JsObject.Keys(even) <==> exists r :: r in records && r.weekType == Some(EVEN) && SlotKey(r) == k
    ensures forall k :: k in JsObject.Keys(odd) <==> exists r :: r in records && r.weekType != Some(EVEN) && SlotKey(r) == k
    ensures JsObject.WellFormed(even) && JsObject.WellFormed(odd)
  {
    even, odd := [], [];
    var i := 0;
    while i < |records|
      invariant 0 <= i <= |records|
      invariant JsObject.WellFormed(even) && JsObject.WellFormed(odd)
      invariant forall k :: k in JsObject.Keys(even) <==> exists r :: r in records[..i] && r.weekType == Some(EVEN) && SlotKey(r) == k
      invariant forall k :: k in JsObject.Keys(odd) <==> exists r :: r in records[..i] && r.weekType != Some(EVEN) && SlotKey(r) == k
    {
      var r := records[i];
      var slotKey := r.dayOfWeek.Name() + "-" + r.timeSlotId;
      assert forall q :: q in records[..i + 1] <==> q in records[..i] || q == r;
      JsObject.PutRemoveWellFormed(even, slotKey, Unit);
      JsObject.PutRemoveWellFormed(odd, slotKey, Unit);
      if r.weekType == Some(EVEN) {
        even := JsObject.Put(even, slotKey, Unit);
      } else {
        odd := JsObject.Put(odd, slotKey, Unit);
      }
      i := i + 1;
    }
    assert records[..i] == records;
  }

  lemma DistanceFoldSnoc(ps: seq<Pair>, i: nat, slots: map<string, TimeSlot>, rooms: seq<Link>, teachers: seq<Link>,
                         weeks: seq<JsObject.Obj<DistanceCell>>)
    requires forall p :: p in ps ==> p.timeSlotId in slots
    requires i < |ps| && DistanceFold(ps[..i], slots, rooms, teachers) == Ok(weeks)
    ensures DistanceFold(ps[..i + 1], slots, rooms, teachers) == DistanceStep(weeks, ps[i], slots, rooms, teachers)
  {
    assert ps[..i + 1][..i] == ps[..i];
  }

  /** The iteration in week range is the update of its own week's map in place. */
  lemma DistanceStepUpdates(weeks: seq<JsObject.Obj<DistanceCell>>, p: Pair, slots: map<string, TimeSlot>,
                            rooms: seq<Link>, teachers: seq<Link>, after: seq<JsObject.Obj<DistanceCell>>)
    requires |weeks| == 4 && p.timeSlotId in slots && InWeekRange(p)
    requires after == weeks[p.numberWeek.value - 1 :=
      JsObject.Put(weeks[p.numberWeek.value - 1], DistanceKey(p, slots), DistanceCellOf(p, rooms, teachers))]
    ensures DistanceStep(weeks, p, slots, rooms, teachers) == Ok(after)
  {
    var n := p.numberWeek.value - 1;
    var key := DistanceKey(p, slots);
    var cell := DistanceCellOf(p, rooms, teachers);
    DistanceStepPlaces(weeks, p, slots, rooms, teachers);
    PlaceDistanceIsPut(weeks, p, slots, rooms, teachers, n, key, cell);
    PutCellUpdates(weeks, n, key, cell, after);
  }

  /** An iteration in week range succeeds with the placed maps. */
  lemma DistanceStepPlaces(weeks: seq<JsObject.Obj<DistanceCell>>, p: Pair, slots: map<string, TimeSlot>,
                           rooms: seq<Link>, teachers: seq<Link>)
    requires |weeks| == 4 && p.timeSlotId in slots && InWeekRange(p)
    ensures DistanceStep(weeks, p, slots, rooms, teachers) == Ok(PlaceDistance(weeks, p, slots, rooms, teachers))
  {
  }

  /** Placing a pair stores its cell under its key in the map of week `n`, its week number less one. */
  lemma PlaceDistanceIsPut(weeks: seq<JsObject.Obj<DistanceCell>>, p: Pair, slots: map<string, TimeSlot>,
                           rooms: seq<Link>, teachers: seq<Link>, n: nat, key: string, cell: DistanceCell)
    requires |weeks| == 4 && p.timeSlotId in slots && InWeekRange(p)
    requires n == p.numberWeek.value - 1 && key == DistanceKey(p, slots) && cell == DistanceCellOf(p, rooms, teachers)
    ensures PlaceDistance(weeks, p, slots, rooms, teachers) == PutCell(weeks, n, key, cell)
  {
  }

  /** `PutCell` is the update in place of week `n`'s map. */
  lemma PutCellUpdates(weeks: seq<JsObject.Obj<DistanceCell>>, n: nat, key: string, cell: DistanceCell,
                       after: seq<JsObject.Obj<DistanceCell>>)
    requires n < |weeks|
    requires after == weeks[n := JsObject.Put(weeks[n], key, cell)]
    ensures PutCell(weeks, n, key, cell) == after
  {
  }

  /** The loop of `getDistanceSchedule` over the fetched pairs. */
  method FillWeeks(ps: seq<Pair>, slots: map<string, TimeSlot>, rooms: seq<Link>, teachers: seq<Link>)
    returns (r: Result<seq<JsObject.Obj<DistanceCell>>>)
    requires forall p :: p in ps ==> p.timeSlotId in slots
    ensures r == DistanceFold(ps, slots, rooms, teachers)
  {
    var schedule: seq<JsObject.Obj<DistanceCell>> := [[], [], [], []];
    if |ps| == 0 {
      return Ok(schedule);
    }
    var i := 0;
    while i < |ps|
      invariant 0 <= i <= |ps|
      invariant DistanceFold(ps[..i], slots, rooms, teachers) == Ok(schedule)
    {
      var pair := ps[i];
      assert pair in ps;
      DistanceFoldSnoc(ps, i, slots, rooms, teachers, schedule);
      var daySlot := pair.dayOfWeek.Name() + "-" + slots[pair.timeSlotId].title;
      if pair.numberWeek.None? || !(1 <= pair.numberWeek.value <= 4) {
        assert DistanceFold(ps[..i + 1], slots, rooms, teachers).Err?;
        DistanceFoldErrSticky(ps, slots, rooms, teachers, i + 1);
        return Err(Crash);
      }
      var n := pair.numberWeek.value;
      var cell := DistanceCell(pair.assignment.discipline, pair.assignment.lessonType, pair.isOnline,
        FirstTarget(rooms, pair.id), TargetsOf(teachers, pair.id));
      assert daySlot == DistanceKey(pair, slots) && cell == DistanceCellOf(pair, rooms, teachers);
      var before := schedule;
      schedule := schedule[n - 1 := JsObject.Put(schedule[n - 1], daySlot, cell)];
      DistanceStepUpdates(before, pair, slots, rooms, teachers, schedule);
      i := i + 1;
    }
    assert ps[..i] == ps;
    return Ok(schedule);
  }

  lemma {:induction false} FilterAll(ds: seq<Draft>, db: Existing)
    requires AllAccepted(ds, db)
    ensures AcceptedDrafts(ds, db) == ds
  {
    if |ds| > 0 {
      FilterAll(ds[1..], db);
    }
  }

  lemma {:induction false} FilterNone(ds: seq<Draft>, db: Existing)
    requires forall d :: d in ds ==> !Accepted(d, db)
    ensures AcceptedDrafts(ds, db) == []
  {
    if |ds| > 0 {
      assert ds[0] in ds;
      FilterNone(ds[1..], db);
    }
  }

  /** A link written by a creation: draft `i`'s target `t` is linked to the id `base + i`. */
  lemma {:induction false} NewLinksContain(ds: seq<Draft>, base: nat, k: LinkKind, i: nat, t: string)
    requires i < |ds| && t in Targets(ds[i], k)
    ensures Link(base + i, t) in NewLinks(ds, base, k)
  {
    var n := |ds| - 1;
    if i < n {
      assert ds[..n][i] == ds[i];
      NewLinksContain(ds[..n], base, k, i, t);
    } else {
      var j :| 0 <= j < |Targets(ds[i], k)| && Targets(ds[i], k)[j] == t;
      assert LinksOf(base + n, Targets(ds[n], k))[j] == Link(base + i, t);
    }
  }

  /** Every creation of a weekly plan is for the request's group, plan and half-year, with a week type. */
  lemma BulkPlanShape(req: BulkRequest, known: set<AssignmentKey>)
    requires BulkPlan(req, known).Ok?
    ensures forall d :: d in BulkPlan(req, known).value ==>
      ForScope(d, req.scope, d.weekType, Absent) && d.weekType.Some?
  {
    var even := PlanCells(req.scope, Some(EVEN), Absent, req.even, known).value;
    var odd := PlanCells(req.scope, Some(ODD), Absent, req.odd, known).value;
    assert BulkPlan(req, known).value == even + odd;
    PlanCellsGroups(req.scope, Some(EVEN), Absent, req.even, known);
    PlanCellsGroups(req.scope, Some(ODD), Absent, req.odd, known);
  }
}
