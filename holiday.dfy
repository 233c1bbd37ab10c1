/**
 * Holidays (`HolidayService` and the holiday page). A holiday is a schedule
 * pair flagged `isHoliday`, placed in the academic week holding its date,
 * on that date's day of the week, in one or more time slots, under a fixed
 * study plan and assignment. A recurring holiday repeats a one-time holiday
 * every seven days up to an end date.
 */
module Holiday {
  import opened Common
  import opened Text
  import opened Calendar
  import opened Schedule
  import opened ScheduleStore

  const HolidayStudyPlan := "cmb0aapcz0002secxky779s00"
  /** The assignment row with discipline "Праздник" and type "holiday". */
  const HolidayAssignment := AssignmentKey("Праздник", "holiday")

  /** The creation `createHoliday` prepares for one slot label. */
  function HolidayDraft(week: AcademicWeek, date: Day, name: string, roomId: Option<string>, slot: string): Draft
  {
    Draft(None, None, Absent, Some(week), WeekDayOf(date), SlotFor(slot),
      HolidayStudyPlan, HolidayAssignment, false, true, Some(name),
      [], if Truthy(roomId) then [roomId.value] else [], [])
  }

  /** `createHoliday` before it writes: the week holding the date, then one creation per slot label. */
  function HolidayPlan(weeks: seq<AcademicWeek>, date: Day, name: string, roomId: Option<string>, slots: seq<string>)
    : (r: Result<seq<Draft>>)
    ensures r.Err? <==> forall j :: 0 <= j < |weeks| ==> !weeks[j].Contains(date)
    ensures r.Err? ==> r.error == NotFound
    ensures r.Ok? ==> |r.value| == |slots|
    ensures r.Ok? ==> forall k :: 0 <= k < |slots| ==>
      var d := r.value[k];
      d.academicWeek.Some? && d.academicWeek.value in weeks && d.academicWeek.value.Contains(date)
      && d.numberWeek == Absent
      && d.dayOfWeek == WeekDayOf(date) && d.isHoliday && d.holidayName == Some(name)
      && d.studyPlanId == HolidayStudyPlan && d.assignment == HolidayAssignment
      && d.slot.title == slots[k] && d.slot.id == ReplaceDash(slots[k])
      && d.groups == [] && d.teachers == [] && (d.rooms != [] <==> Truthy(roomId))
  {
    match FindWeek(weeks, date)
    case None => Err(NotFound)
    case Some(i) => Ok(seq(|slots|, k requires 0 <= k < |slots| => HolidayDraft(weeks[i], date, name, roomId, slots[k])))
  }

  /** The rows every holiday creation connects to: the fixed study plan and assignment, and the room when one is given. */
  predicate HolidayRowsExist(db: Existing, roomId: Option<string>)
  {
    HolidayStudyPlan in db.studyPlans && HolidayAssignment in db.assignments
    && (Truthy(roomId) ==> roomId.value in db.rooms)
  }

  /** `createHoliday` is rejected by the database: it has creations to run, and a row they connect to is missing. */
  predicate HolidayRejected(db: Existing, roomId: Option<string>, slots: seq<string>)
  {
    |slots| > 0 && !HolidayRowsExist(db, roomId)
  }

  /**
   * The creations `createHoliday` runs for the week it found are the
   * plan's. They all connect to the same rows, so the database accepts all
   * of them or none.
   */
  lemma HolidayCreations(weeks: seq<AcademicWeek>, i: nat, date: Day, name: string, roomId: Option<string>,
                         slots: seq<string>, db: Existing, creations: seq<Draft>)
    requires FindWeek(weeks, date) == Some(i) && i < |weeks|
    requires creations == seq(|slots|, k requires 0 <= k < |slots| => HolidayDraft(weeks[i], date, name, roomId, slots[k]))
    ensures HolidayPlan(weeks, date, name, roomId, slots) == Ok(creations)
    ensures HolidayRejected(db, roomId, slots) ==> AcceptedDrafts(creations, db) == [] && !AllAccepted(creations, db)
    ensures !HolidayRejected(db, roomId, slots) ==> AcceptedDrafts(creations, db) == creations && AllAccepted(creations, db)
  {
    forall d | d in creations ensures Accepted(d, db) <==> HolidayRowsExist(db, roomId) {
      var k :| 0 <= k < |creations| && creations[k] == d;
    }
    if HolidayRowsExist(db, roomId) {
      FilterAll(creations, db);
    } else {
      FilterNone(creations, db);
      if |slots| > 0 {
        assert creations[0] in creations;
      }
    }
  }

  /**
   * `createHoliday`: NotFound and no write when no week holds the date.
   * Otherwise one creation per slot label, run by `Promise.all`: all are
   * written when the fixed study plan and assignment and the room exist;
   * when one of them is missing every creation is rejected and nothing is
   * written.
   */
  method CreateHoliday(store: PairStore, weeks: seq<AcademicWeek>, db: Existing, date: Day, name: string,
                       roomId: Option<string>, slots: seq<string>) returns (r: Result<seq<Pair>>)
    requires store.Valid()
    modifies store
    ensures store.Valid()
    ensures var plan := HolidayPlan(weeks, date, name, roomId, slots);
      (plan.Err? ==> r == Err(NotFound) && store.State() == old(store.State()))
      && (plan.Ok? && HolidayRejected(db, roomId, slots) ==> r == Err(Crash) && store.State() == old(store.State()))
      && (plan.Ok? && !HolidayRejected(db, roomId, slots) ==>
            r == Ok(MaterializeAll(plan.value, old(store.nextId))) && store.State() == CreateAll(old(store.State()), plan.value))
  {
    var i := FindWeek(weeks, date);
    if i.None? {
      return Err(NotFound);
    }
    var week := weeks[i.value];
    var creations := seq(|slots|, k requires 0 <= k < |slots| => HolidayDraft(week, date, name, roomId, slots[k]));
    HolidayCreations(weeks, i.value, date, name, roomId, slots, db, creations);
    ghost var s0 := store.State();
    var pairs := store.ExecuteAll(AcceptedDrafts(creations, db));
    if AllAccepted(creations, db) {
      return Ok(pairs);
    }
    CreateAllNone(s0);
    return Err(Crash);
  }

  // ------------------------------------------------------------ recurring holidays

  /** The dates the loop visits: `start`, `start + 7`, … while not after `finish`. */
  function RecurringDates(start: Day, finish: Day): (ds: seq<Day>)
    decreases finish - start + 7
  {
    if start > finish then [] else [start] + RecurringDates(start + 7, finish)
  }

  /** The loop runs ⌊(finish − start) / 7⌋ + 1 times when start ≤ finish and not at all otherwise; its `k`-th date is `start + 7k`. */
  lemma {:induction false} RecurringDatesShape(start: Day, finish: Day)
    ensures |RecurringDates(start, finish)| == if start <= finish then (finish - start) / 7 + 1 else 0
    ensures forall k :: 0 <= k < |RecurringDates(start, finish)| ==> RecurringDates(start, finish)[k] == start + 7 * k
    decreases finish - start + 7
  {
    if start <= finish {
      RecurringDatesShape(start + 7, finish);
      var rest := RecurringDates(start + 7, finish);
      assert |rest| == if start + 7 <= finish then (finish - start - 7) / 7 + 1 else 0;
      assert forall k :: 1 <= k < |rest| + 1 ==> RecurringDates(start, finish)[k] == rest[k - 1];
    }
  }

  /** A date `start + 7k` is visited exactly when it is not after `finish`. */
  lemma RecurringDatesIndex(start: Day, finish: Day, k: nat)
    ensures k < |RecurringDates(start, finish)| <==> start + 7 * k <= finish
  {
    RecurringDatesShape(start, finish);
  }

  /** Every visited date falls on the weekday of `start`. */
  lemma RecurringSameWeekday(start: Day, finish: Day)
    ensures forall d :: d in RecurringDates(start, finish) ==> WeekDayOf(d) == WeekDayOf(start)
  {
    var ds := RecurringDates(start, finish);
    RecurringDatesShape(start, finish);
    forall d | d in ds ensures WeekDayOf(d) == WeekDayOf(start) {
      var k :| 0 <= k < |ds| && ds[k] == d;
      WeekdayPeriodic(start, k);
    }
  }

  /** What the loop has created so far, and the error an iteration has thrown, if any. */
  datatype Run = Run(done: seq<Draft>, thrown: Option<Error>)
  {
    predicate Failed()
    {
      thrown.Some?
    }
  }

  /**
   * The loop over `dates`: each iteration adds its creations; the first
   * one that throws (no week for its date, or creations the database
   * rejects) stops it, keeping what earlier ones created.
   */
  function RecurringRun(weeks: seq<AcademicWeek>, db: Existing, dates: seq<Day>, name: string,
                        roomId: Option<string>, slots: seq<string>): Run
  {
    if |dates| == 0 then Run([], None)
    else
      var prev := RecurringRun(weeks, db, dates[..|dates| - 1], name, roomId, slots);
      if prev.Failed() then prev
      else
        match HolidayPlan(weeks, dates[|dates| - 1], name, roomId, slots)
        case Err(e) => Run(prev.done, Some(e))
        case Ok(ds) => if HolidayRejected(db, roomId, slots) then Run(prev.done, Some(Crash)) else Run(prev.done + ds, None)
  }

  lemma {:induction false} RecurringRunFailedSticky(weeks: seq<AcademicWeek>, db: Existing, dates: seq<Day>, name: string,
                                                    roomId: Option<string>, slots: seq<string>, n: nat)
    requires n <= |dates| && RecurringRun(weeks, db, dates[..n], name, roomId, slots).Failed()
    ensures RecurringRun(weeks, db, dates, name, roomId, slots) == RecurringRun(weeks, db, dates[..n], name, roomId, slots)
    decreases |dates| - n
  {
    if n < |dates| {
      assert dates[..n + 1][..n] == dates[..n];
      RecurringRunFailedSticky(weeks, db, dates, name, roomId, slots, n + 1);
    } else {
      assert dates[..n] == dates;
    }
  }

  lemma MulSucc(n: nat, m: nat)
    ensures (n + 1) * m == n * m + m
  {
  }

  /** A date no academic week holds, the case `createHoliday` answers with NotFound. */
  predicate InNoWeek(weeks: seq<AcademicWeek>, date: Day)
  {
    forall j :: 0 <= j < |weeks| ==> !weeks[j].Contains(date)
  }

  /**
   * The loop fails exactly when some visited date lies in no academic week,
   * or when there is a date to visit and the database rejects the holiday's
   * creations; when it does not fail it creates one pair per date and slot
   * label, each on the weekday of its date.
   */
  lemma RecurringRunOutcome(weeks: seq<AcademicWeek>, db: Existing, dates: seq<Day>, name: string,
                            roomId: Option<string>, slots: seq<string>)
    ensures var run := RecurringRun(weeks, db, dates, name, roomId, slots);
      (run.Failed() <==> (exists d :: d in dates && InNoWeek(weeks, d)) || (|dates| > 0 && HolidayRejected(db, roomId, slots)))
      && (!run.Failed() ==> |run.done| == |dates| * |slots|)
      && forall d :: d in run.done ==> d.isHoliday && exists date :: date in dates && d.dayOfWeek == WeekDayOf(date)
  {
    RecurringRunFails(weeks, db, dates, name, roomId, slots);
    RecurringRunCount(weeks, db, dates, name, roomId, slots);
    RecurringRunDays(weeks, db, dates, name, roomId, slots);
  }

  /** The loop fails exactly when some visited date lies in no academic week, or when there is a date and the holiday's creations are rejected. */
  lemma {:induction false} RecurringRunFails(weeks: seq<AcademicWeek>, db: Existing, dates: seq<Day>, name: string,
                                             roomId: Option<string>, slots: seq<string>)
    ensures RecurringRun(weeks, db, dates, name, roomId, slots).Failed() <==>
      (exists d :: d in dates && InNoWeek(weeks, d)) || (|dates| > 0 && HolidayRejected(db, roomId, slots))
  {
    if |dates| > 0 {
      var n := |dates| - 1;
      var init := dates[..n];
      var last := dates[n];
      RecurringRunFails(weeks, db, init, name, roomId, slots);
      assert forall d :: d in dates <==> d in init || d == last;
      var plan := HolidayPlan(weeks, last, name, roomId, slots);
      if RecurringRun(weeks, db, init, name, roomId, slots).Failed() {
        if |init| == 0 {
          assert false;
        }
        if !HolidayRejected(db, roomId, slots) {
          var d :| d in init && InNoWeek(weeks, d);
          assert d in dates;
        }
      } else if plan.Err? {
        assert InNoWeek(weeks, last);
      } else {
        assert !InNoWeek(weeks, last);
      }
    }
  }

  /**
   * With the connected rows present the loop can only stop with NotFound;
   * with them missing it creates nothing at all.
   */
  lemma {:induction false} RecurringRunErrors(weeks: seq<AcademicWeek>, db: Existing, dates: seq<Day>, name: string,
                                              roomId: Option<string>, slots: seq<string>)
    ensures var run := RecurringRun(weeks, db, dates, name, roomId, slots);
      (!HolidayRejected(db, roomId, slots) && run.Failed() ==> run.thrown == Some(NotFound))
      && (HolidayRejected(db, roomId, slots) ==> run.done == [])
  {
    if |dates| > 0 {
      RecurringRunErrors(weeks, db, dates[..|dates| - 1], name, roomId, slots);
    }
  }

  /** Without failure the loop creates one holiday pair per date and slot. */
  lemma {:induction false} RecurringRunCount(weeks: seq<AcademicWeek>, db: Existing, dates: seq<Day>, name: string,
                                             roomId: Option<string>, slots: seq<string>)
    ensures var run := RecurringRun(weeks, db, dates, name, roomId, slots);
      !run.Failed() ==> |run.done| == |dates| * |slots|
  {
    if |dates| > 0 {
      var n := |dates| - 1;
      RecurringRunCount(weeks, db, dates[..n], name, roomId, slots);
      MulSucc(n, |slots|);
    }
  }

  /** Every created pair is a holiday on the weekday of a visited date. */
  lemma {:induction false} RecurringRunDays(weeks: seq<AcademicWeek>, db: Existing, dates: seq<Day>, name: string,
                                            roomId: Option<string>, slots: seq<string>)
    ensures forall d :: d in RecurringRun(weeks, db, dates, name, roomId, slots).done ==>
      d.isHoliday && exists date :: date in dates && d.dayOfWeek == WeekDayOf(date)
  {
    if |dates| > 0 {
      var n := |dates| - 1;
      var init := dates[..n];
      var last := dates[n];
      RecurringRunDays(weeks, db, init, name, roomId, slots);
      var prev := RecurringRun(weeks, db, init, name, roomId, slots);
      var run := RecurringRun(weeks, db, dates, name, roomId, slots);
      var plan := HolidayPlan(weeks, last, name, roomId, slots);
      if !prev.Failed() && plan.Ok? && !HolidayRejected(db, roomId, slots) {
        assert run.done == prev.done + plan.value;
        forall d | d in run.done ensures d.isHoliday && exists date :: date in dates && d.dayOfWeek == WeekDayOf(date) {
          if d in plan.value {
            var k :| 0 <= k < |plan.value| && plan.value[k] == d;
            assert d.dayOfWeek == WeekDayOf(last);
            assert last in dates;
          } else {
            assert d in prev.done;
            var date :| date in init && d.dayOfWeek == WeekDayOf(date);
            assert date in dates;
          }
        }
      }
    }
  }

  /** One more iteration of the loop, after `k` iterations that all created their holidays. */
  lemma RecurringRunStep(weeks: seq<AcademicWeek>, db: Existing, dates: seq<Day>, k: nat, name: string,
                         roomId: Option<string>, slots: seq<string>, done: seq<Draft>)
    requires k < |dates| && RecurringRun(weeks, db, dates[..k], name, roomId, slots) == Run(done, None)
    ensures var plan := HolidayPlan(weeks, dates[k], name, roomId, slots);
      (plan.Err? ==> RecurringRun(weeks, db, dates, name, roomId, slots) == Run(done, Some(NotFound)))
      && (plan.Ok? && HolidayRejected(db, roomId, slots) ==>
            RecurringRun(weeks, db, dates, name, roomId, slots) == Run(done, Some(Crash)))
      && (plan.Ok? && !HolidayRejected(db, roomId, slots) ==>
            RecurringRun(weeks, db, dates[..k + 1], name, roomId, slots) == Run(done + plan.value, None))
  {
    assert dates[..k + 1][..k] == dates[..k];
    if HolidayPlan(weeks, dates[k], name, roomId, slots).Err? || HolidayRejected(db, roomId, slots) {
      RecurringRunFailedSticky(weeks, db, dates, name, roomId, slots, k + 1);
    }
  }

  /** Appending one iteration's creations to what earlier iterations created. */
  lemma RecurringAdvance(s0: Tables, done: seq<Draft>, plan: seq<Draft>, all: seq<Pair>, created: seq<Pair>)
    requires all == MaterializeAll(done, s0.nextId)
    requires created == MaterializeAll(plan, CreateAll(s0, done).nextId)
    ensures all + created == MaterializeAll(done + plan, s0.nextId)
    ensures CreateAll(CreateAll(s0, done), plan) == CreateAll(s0, done + plan)
  {
    MaterializeAllAppend(done, plan, s0.nextId);
    CreateAllAppend(s0, done, plan);
  }

  /**
   * `createRecurringHoliday`: one `createHoliday` per visited date, the
   * results concatenated in order. The first date that throws (NotFound
   * for a date in no academic week, a rejected creation otherwise) ends
   * the loop with that error, and the holidays of the earlier dates stay
   * created.
   */
  method CreateRecurringHoliday(store: PairStore, weeks: seq<AcademicWeek>, db: Existing, start: Day, finish: Day,
                                name: string, roomId: Option<string>, slots: seq<string>) returns (r: Result<seq<Pair>>)
    requires store.Valid()
    modifies store
    ensures store.Valid()
    ensures var run := RecurringRun(weeks, db, RecurringDates(start, finish), name, roomId, slots);
      store.State() == CreateAll(old(store.State()), run.done)
      && (run.Failed() ==> r == Err(run.thrown.value))
      && (!run.Failed() ==> r == Ok(MaterializeAll(run.done, old(store.nextId))))
  {
    ghost var dates := RecurringDates(start, finish);
    ghost var s0 := store.State();
    ghost var done: seq<Draft> := [];
    ghost var k := 0;
    RecurringDatesIndex(start, finish, 0);
    var all: seq<Pair> := [];
    var current := start;
    while current <= finish
      invariant 0 <= k <= |dates| && current == start + 7 * k
      invariant k < |dates| <==> current <= finish
      invariant RecurringRun(weeks, db, dates[..k], name, roomId, slots) == Run(done, None)
      invariant store.Valid() && store.State() == CreateAll(s0, done)
      invariant all == MaterializeAll(done, s0.nextId)
      decreases finish - current
    {
      assert dates[k] == current by {
        RecurringDatesShape(start, finish);
      }
      RecurringRunStep(weeks, db, dates, k, name, roomId, slots, done);
      var pairs := CreateHoliday(store, weeks, db, current, name, roomId, slots);
      if pairs.Err? {
        return Err(pairs.error);
      }
      ghost var planned := HolidayPlan(weeks, current, name, roomId, slots);
      assert planned.Ok? && !HolidayRejected(db, roomId, slots);
      ghost var plan := planned.value;
      RecurringAdvance(s0, done, plan, all, pairs.value);
      all := all + pairs.value;
      done := done + plan;
      current := current + 7;
      k := k + 1;
      RecurringDatesIndex(start, finish, k);
    }
    assert dates[..k] == dates;
    r := Ok(all);
  }

  // ------------------------------------------------------------ listing

  /**
   * The sort key of `getAllHolidays`: week start (rows without a week
   * last), then weekday, then slot start. The database orders the
   * `DayOfWeek` enum by its members' positions in the schema, which is not
   * part of this model; `rank` gives those positions, so every statement
   * below holds whatever the enum's order is.
   */
  datatype HolidayKey = HolidayKey(hasWeek: bool, weekStart: int, day: nat, slotStart: string)

  function KeyOf(p: Pair, slots: map<string, TimeSlot>, rank: DayOfWeek -> nat): HolidayKey
  {
    HolidayKey(p.academicWeek.Some?,
      if p.academicWeek.Some? then p.academicWeek.value.startDate else 0,
      rank(p.dayOfWeek),
      if p.timeSlotId in slots then slots[p.timeSlotId].start else "")
  }

  predicate KeyLeq(a: HolidayKey, b: HolidayKey)
  {
    if a.hasWeek != b.hasWeek then a.hasWeek
    else if a.hasWeek && a.weekStart != b.weekStart then a.weekStart < b.weekStart
    else if a.day != b.day then a.day < b.day
    else LexLeq(a.slotStart, b.slotStart)
  }

  lemma KeyLeqTotal(a: HolidayKey, b: HolidayKey)
    ensures KeyLeq(a, b) || KeyLeq(b, a)
  {
    LexLeqTotal(a.slotStart, b.slotStart);
  }

  lemma KeyLeqTrans(a: HolidayKey, b: HolidayKey, c: HolidayKey)
    requires KeyLeq(a, b) && KeyLeq(b, c)
    ensures KeyLeq(a, c)
  {
    if a.hasWeek == b.hasWeek == c.hasWeek && (!a.hasWeek || a.weekStart == b.weekStart == c.weekStart)
       && a.day == b.day == c.day {
      LexLeqTrans(a.slotStart, b.slotStart, c.slotStart);
    }
  }

  predicate SortedByKey(ps: seq<Pair>, slots: map<string, TimeSlot>, rank: DayOfWeek -> nat)
  {
    forall i, j :: 0 <= i < j < |ps| ==> KeyLeq(KeyOf(ps[i], slots, rank), KeyOf(ps[j], slots, rank))
  }

  /** A row no later than every row of a sorted list can be put in front of it. */
  lemma SortedCons(a: Pair, rest: seq<Pair>, slots: map<string, TimeSlot>, rank: DayOfWeek -> nat)
    requires SortedByKey(rest, slots, rank)
    requires forall x :: x in rest ==> KeyLeq(KeyOf(a, slots, rank), KeyOf(x, slots, rank))
    ensures SortedByKey([a] + rest, slots, rank)
  {
    var r := [a] + rest;
    forall i, j | 0 <= i < j < |r| ensures KeyLeq(KeyOf(r[i], slots, rank), KeyOf(r[j], slots, rank)) {
      if i == 0 {
        assert r[j] == rest[j - 1];
      } else {
        assert r[i] == rest[i - 1] && r[j] == rest[j - 1];
      }
    }
  }

  /** Places `p` before the first row it does not follow. */
  function InsertByKey(p: Pair, ps: seq<Pair>, slots: map<string, TimeSlot>, rank: DayOfWeek -> nat): (r: seq<Pair>)
    ensures multiset(r) == multiset(ps) + multiset{p}
  {
    if |ps| == 0 then [p]
    else if KeyLeq(KeyOf(p, slots, rank), KeyOf(ps[0], slots, rank)) then [p] + ps
    else
      assert ps == [ps[0]] + ps[1..];
      [ps[0]] + InsertByKey(p, ps[1..], slots, rank)
  }

  /** Inserting into a sorted list keeps it sorted. */
  lemma {:induction false} InsertByKeySorted(p: Pair, ps: seq<Pair>, slots: map<string, TimeSlot>, rank: DayOfWeek -> nat)
    requires SortedByKey(ps, slots, rank)
    ensures SortedByKey(InsertByKey(p, ps, slots, rank), slots, rank)
  {
    if |ps| == 0 {
    } else if KeyLeq(KeyOf(p, slots, rank), KeyOf(ps[0], slots, rank)) {
      forall x | x in ps ensures KeyLeq(KeyOf(p, slots, rank), KeyOf(x, slots, rank)) {
        var m :| 0 <= m < |ps| && ps[m] == x;
        if m > 0 {
          KeyLeqTrans(KeyOf(p, slots, rank), KeyOf(ps[0], slots, rank), KeyOf(x, slots, rank));
        }
      }
      SortedCons(p, ps, slots, rank);
    } else {
      var tail := ps[1..];
      assert SortedByKey(tail, slots, rank) by {
        forall i, j | 0 <= i < j < |tail| ensures KeyLeq(KeyOf(tail[i], slots, rank), KeyOf(tail[j], slots, rank)) {
          assert tail[i] == ps[i + 1] && tail[j] == ps[j + 1];
        }
      }
      InsertByKeySorted(p, tail, slots, rank);
      var rest := InsertByKey(p, tail, slots, rank);
      KeyLeqTotal(KeyOf(p, slots, rank), KeyOf(ps[0], slots, rank));
      forall x | x in rest ensures KeyLeq(KeyOf(ps[0], slots, rank), KeyOf(x, slots, rank)) {
        assert x in multiset(rest);
        if x != p {
          assert x in multiset(tail);
          var m :| 0 <= m < |tail| && tail[m] == x;
          assert ps[m + 1] == x;
        }
      }
      SortedCons(ps[0], rest, slots, rank);
    }
  }

  /** An insertion sort by the listing key. */
  function SortByKey(ps: seq<Pair>, slots: map<string, TimeSlot>, rank: DayOfWeek -> nat): (r: seq<Pair>)
    ensures SortedByKey(r, slots, rank) && multiset(r) == multiset(ps)
  {
    if |ps| == 0 then []
    else
      assert ps == [ps[0]] + ps[1..];
      var sorted := SortByKey(ps[1..], slots, rank);
      InsertByKeySorted(ps[0], sorted, slots, rank);
      InsertByKey(ps[0], sorted, slots, rank)
  }

  /** `getAllHolidays`: exactly the holiday pairs, ordered by week start, weekday (in the enum's order `rank`) and slot start. */
  function GetAllHolidays(t: Tables, rank: DayOfWeek -> nat): (r: seq<Pair>)
    ensures SortedByKey(r, t.timeSlots, rank)
    ensures multiset(r) == multiset(Filter(t.pairs, (p: Pair) => p.isHoliday))
    ensures forall p :: p in r <==> p in t.pairs && p.isHoliday
  {
    var holidays := Filter(t.pairs, (p: Pair) => p.isHoliday);
    var r := SortByKey(holidays, t.timeSlots, rank);
    assert forall p :: p in r <==> p in holidays by {
      forall p ensures p in r <==> p in holidays {
        assert p in r <==> p in multiset(r);
        assert p in holidays <==> p in multiset(holidays);
      }
    }
    r
  }

  // ------------------------------------------------------------ the holiday page

  /** `getHolidayDate`'s day offset from the week start: MON … SAT are 0 … 5, SUN is 6, an unknown code counts as MON. */
  function DayOffset(code: string): (k: nat)
    ensures k <= 6
  {
    if code == "TUE" then 1 else if code == "WED" then 2 else if code == "THU" then 3
    else if code == "FRI" then 4 else if code == "SAT" then 5 else if code == "SUN" then 6
    else 0
  }

  /** The offsets of the seven enum members are their positions in the enum, hence distinct. */
  lemma DayOffsetOfName(d: DayOfWeek)
    ensures DayOffset(d.Name()) == d.Ordinal()
  {
  }

  lemma DayOffsetInjective(a: DayOfWeek, b: DayOfWeek)
    requires DayOffset(a.Name()) == DayOffset(b.Name())
    ensures a == b
  {
    DayOffsetOfName(a);
    DayOffsetOfName(b);
  }

  /** A holiday row as the page receives it. */
  datatype HolidayRow = HolidayRow(weekStart: Day, dayCode: string, name: string)

  /** `getHolidayDate`: the week start moved forward by the day's offset, always within the week. */
  function HolidayDate(row: HolidayRow): (d: Day)
    ensures row.weekStart <= d <= row.weekStart + 6
  {
    row.weekStart + DayOffset(row.dayCode)
  }

  /**
   * The page shows a holiday on the date it was created for: a date in a
   * Monday-to-Sunday week, stored as that week's start and the date's
   * weekday, comes back unchanged.
   */
  lemma HolidayDateRoundTrip(week: AcademicWeek, date: Day)
    requires JsDay(week.startDate) == 1 && week.endDate == week.startDate + 6 && week.Contains(date)
    ensures HolidayDate(HolidayRow(week.startDate, WeekDayOf(date).Name(), "")) == date
  {
    var off := date - week.startDate;
    SameWeekday(date, week.startDate + off);
    assert JsDay(date) == (1 + off) % 7 by {
      assert date == week.startDate + off;
      assert (week.startDate + off + 4) % 7 == ((week.startDate + 4) % 7 + off) % 7;
    }
    DayOffsetOfName(WeekDayOf(date));
  }

  /** `filteredHolidays`: everything when either end of the range is unset, else the rows dated within it, ends included. */
  function FilterHolidays(rows: seq<HolidayRow>, from: Option<Day>, to: Option<Day>): (r: seq<HolidayRow>)
    ensures from.None? || to.None? ==> r == rows
    ensures from.Some? && to.Some? ==>
      forall row :: row in r <==> row in rows && from.value <= HolidayDate(row) <= to.value
  {
    if from.None? || to.None? then rows
    else Filter(rows, (row: HolidayRow) => from.value <= HolidayDate(row) <= to.value)
  }

  /** The `dayOfWeek` of the recurring form: the SUN … SAT code of the range start. */
  function RecurringDayCode(start: Day): (code: string)
  {
    ["SUN", "MON", "TUE", "WED", "THU", "FRI", "SAT"][JsDay(start)]
  }

  /** The page's code is the name of the weekday the server gives every date of the range. */
  lemma RecurringDayCodeAgrees(start: Day, finish: Day)
    ensures RecurringDayCode(start) == WeekDayOf(start).Name()
    ensures forall d :: d in RecurringDates(start, finish) ==> WeekDayOf(d).Name() == RecurringDayCode(start)
  {
    RecurringSameWeekday(start, finish);
  }

  /** The slot labels the form offers. */
  const HoursOfDay: seq<string> := [
    "08:30 — 10:00", "10:10 — 11:40", "11:50 — 13:20", "13:50 — 15:20",
    "15:30 — 17:00", "17:10 — 18:40", "18:50 — 20:20"]

  /** A clock time as the form writes it: digits and colons only. */
  predicate ClockText(t: string)
  {
    forall c :: c in t ==> '0' <= c <= '9' || c == ':'
  }

  /** A label joining two clock times by a spaced em dash turns into the two times joined by a hyphen. */
  lemma ClockLabelId(a: string, b: string)
    requires |a| > 0 && |b| > 0 && ClockText(a) && ClockText(b)
    ensures ReplaceDash(a + " " + [EmDash] + " " + b) == a + "-" + b
  {
    assert a[|a| - 1] in a && b[0] in b;
    ReplaceDashCanonical(a, b);
  }

  /** A label of the form "<time> — <time>" with a five-character first time. */
  lemma ClockLabelAt(h: string)
    requires |h| > 8 && h[5] == ' ' && h[6] == EmDash && h[7] == ' '
    requires ClockText(h[..5]) && ClockText(h[8..])
    ensures ReplaceDash(h) == h[..5] + "-" + h[8..]
  {
    assert h == h[..5] + " " + [EmDash] + " " + h[8..];
    ClockLabelId(h[..5], h[8..]);
  }

  /** Each label's slot id is its two times joined by a hyphen. */
  lemma HoursOfDaySlotIds()
    ensures forall i :: 0 <= i < |HoursOfDay| ==>
      ReplaceDash(HoursOfDay[i]) == HoursOfDay[i][..5] + "-" + HoursOfDay[i][8..]
  {
    forall i | 0 <= i < |HoursOfDay|
      ensures ReplaceDash(HoursOfDay[i]) == HoursOfDay[i][..5] + "-" + HoursOfDay[i][8..]
    {
      ClockLabelAt(HoursOfDay[i]);
    }
  }
}
