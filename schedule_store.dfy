/**
 * The schedule tables as `ScheduleService` changes them: the pairs, their
 * link rows to groups, rooms and teachers, the time slots, and the counter
 * that hands out pair ids. A database write is a function from tables to
 * tables; `PairStore` holds the tables in fields and runs the bulk saves
 * step by step.
 */
module ScheduleStore {
  import opened Common
  import opened Calendar
  import JsObject
  import opened Schedule

  datatype Tables = Tables(
    pairs: seq<Pair>,
    groupLinks: seq<Link>,
    roomLinks: seq<Link>,
    teacherLinks: seq<Link>,
    timeSlots: map<string, TimeSlot>,
    nextId: nat)

  predicate LinksBelow(ls: seq<Link>, bound: nat)
  {
    forall l :: l in ls ==> l.pairId < bound
  }

  /**
   * Ids are unique and below the counter, link rows only name ids the
   * counter has handed out, every pair's time slot exists, and slots are
   * stored under their own id.
   */
  predicate Consistent(t: Tables)
  {
    (forall p :: p in t.pairs ==> p.id < t.nextId && p.timeSlotId in t.timeSlots)
    && (forall p, q :: p in t.pairs && q in t.pairs && p.id == q.id ==> p == q)
    && LinksBelow(t.groupLinks, t.nextId) && LinksBelow(t.roomLinks, t.nextId)
    && LinksBelow(t.teacherLinks, t.nextId)
    && (forall id :: id in t.timeSlots ==> t.timeSlots[id].id == id)
  }

  function LinkTable(t: Tables, k: LinkKind): seq<Link>
  {
    match k
    case GroupLink => t.groupLinks
    case RoomLink => t.roomLinks
    case TeacherLink => t.teacherLinks
  }

  /** One `schedulePair.create`: the row under the next id, its link rows and the `connectOrCreate` of its time slot. */
  function Create(t: Tables, d: Draft): Tables
  {
    Tables(t.pairs + [Materialize(d, t.nextId)],
      t.groupLinks + LinksOf(t.nextId, d.groups),
      t.roomLinks + LinksOf(t.nextId, d.rooms),
      t.teacherLinks + LinksOf(t.nextId, d.teachers),
      AddSlot(t.timeSlots, d.slot),
      t.nextId + 1)
  }

  /** The creations of `ds`, in order: one row each, numbered from the counter on, with their link rows and any new slots. */
  function CreateAll(t: Tables, ds: seq<Draft>): Tables
  {
    Tables(t.pairs + MaterializeAll(ds, t.nextId),
      t.groupLinks + NewLinks(ds, t.nextId, GroupLink),
      t.roomLinks + NewLinks(ds, t.nextId, RoomLink),
      t.teacherLinks + NewLinks(ds, t.nextId, TeacherLink),
      SlotsAfter(t.timeSlots, ds),
      t.nextId + |ds|)
  }

  /** Steps 2–5 of a bulk save: the group links of `groupId`, all room and teacher links, and the pairs with the given ids. */
  function Delete(t: Tables, ids: set<nat>, groupId: string): Tables
  {
    t.(pairs := KeepPairs(t.pairs, ids),
       groupLinks := KeepGroupLinks(t.groupLinks, ids, groupId),
       roomLinks := KeepLinks(t.roomLinks, ids),
       teacherLinks := KeepLinks(t.teacherLinks, ids))
  }

  predicate InScope(p: Pair, scope: Scope)
  {
    p.studyPlanId == scope.studyPlanId && p.halfYear == Some(scope.halfYear)
  }

  /** The deletions a bulk save starts with: every pair of the study plan and half-year. */
  function Clear(t: Tables, scope: Scope): Tables
  {
    Delete(t, ScopeIds(t.pairs, scope.studyPlanId, scope.halfYear), scope.groupId)
  }

  lemma LinksOfBelow(id: nat, targets: seq<string>, bound: nat)
    requires id < bound
    ensures LinksBelow(LinksOf(id, targets), bound)
  {
  }

  /** A creation keeps the tables consistent. */
  lemma CreateConsistent(t: Tables, d: Draft)
    requires Consistent(t)
    ensures Consistent(Create(t, d))
  {
    var t' := Create(t, d);
    LinksOfBelow(t.nextId, d.groups, t'.nextId);
    LinksOfBelow(t.nextId, d.rooms, t'.nextId);
    LinksOfBelow(t.nextId, d.teachers, t'.nextId);
  }

  lemma MaterializeAllAppend(a: seq<Draft>, b: seq<Draft>, base: nat)
    ensures MaterializeAll(a + b, base) == MaterializeAll(a, base) + MaterializeAll(b, base + |a|)
  {
  }

  lemma {:induction false} NewLinksAppend(a: seq<Draft>, b: seq<Draft>, base: nat, k: LinkKind)
    ensures NewLinks(a + b, base, k) == NewLinks(a, base, k) + NewLinks(b, base + |a|, k)
  {
    if |b| == 0 {
      assert a + b == a;
    } else {
      var n := |b| - 1;
      assert (a + b)[..|a + b| - 1] == a + b[..n];
      NewLinksAppend(a, b[..n], base, k);
      AppendAssoc(NewLinks(a, base, k), NewLinks(b[..n], base + |a|, k), LinksOf(base + |a| + n, Targets(b[n], k)));
    }
  }

  lemma {:induction false} SlotsAfterAppend(slots: map<string, TimeSlot>, a: seq<Draft>, b: seq<Draft>)
    ensures SlotsAfter(slots, a + b) == SlotsAfter(SlotsAfter(slots, a), b)
  {
    if |b| == 0 {
      assert a + b == a;
    } else {
      var n := |b| - 1;
      assert (a + b)[..|a + b| - 1] == a + b[..n];
      SlotsAfterAppend(slots, a, b[..n]);
    }
  }

  /** Running the creations of `a` and then those of `b` is running those of `a + b`. */
  /** Running no creation changes nothing. */
  lemma CreateAllNone(t: Tables)
    ensures CreateAll(t, []) == t
  {
    assert t.pairs + [] == t.pairs;
  }

  lemma CreateAllAppend(t: Tables, a: seq<Draft>, b: seq<Draft>)
    ensures CreateAll(t, a + b) == CreateAll(CreateAll(t, a), b)
  {
    MaterializeAllAppend(a, b, t.nextId);
    NewLinksAppend(a, b, t.nextId, GroupLink);
    NewLinksAppend(a, b, t.nextId, RoomLink);
    NewLinksAppend(a, b, t.nextId, TeacherLink);
    SlotsAfterAppend(t.timeSlots, a, b);
    AppendAssoc(t.pairs, MaterializeAll(a, t.nextId), MaterializeAll(b, t.nextId + |a|));
    AppendAssoc(t.groupLinks, NewLinks(a, t.nextId, GroupLink), NewLinks(b, t.nextId + |a|, GroupLink));
    AppendAssoc(t.roomLinks, NewLinks(a, t.nextId, RoomLink), NewLinks(b, t.nextId + |a|, RoomLink));
    AppendAssoc(t.teacherLinks, NewLinks(a, t.nextId, TeacherLink), NewLinks(b, t.nextId + |a|, TeacherLink));
  }

  /** Deleting rows keeps the tables consistent. */
  lemma DeleteConsistent(t: Tables, ids: set<nat>, groupId: string)
    requires Consistent(t)
    ensures Consistent(Delete(t, ids, groupId))
  {
  }

  /** One more creation after the first `i`: the closed form takes one `create` step. */
  lemma CreateAllStep(t: Tables, ds: seq<Draft>, i: nat)
    requires i < |ds|
    ensures CreateAll(t, ds[..i + 1]) == Create(CreateAll(t, ds[..i]), ds[i])
  {
    var init := ds[..i];
    var d := ds[i];
    var next := ds[..i + 1];
    assert next == init + [d];
    var id := t.nextId + i;
    var row := Materialize(d, id);
    MaterializeAllSnoc(MaterializeAll(init, t.nextId), row, ds, i, t.nextId, id);
    NewLinksSnoc(ds, i, t.nextId, GroupLink, id);
    NewLinksSnoc(ds, i, t.nextId, RoomLink, id);
    NewLinksSnoc(ds, i, t.nextId, TeacherLink, id);
    AppendAssoc(t.pairs, MaterializeAll(init, t.nextId), [row]);
    AppendAssoc(t.groupLinks, NewLinks(init, t.nextId, GroupLink), LinksOf(id, d.groups));
    AppendAssoc(t.roomLinks, NewLinks(init, t.nextId, RoomLink), LinksOf(id, d.rooms));
    AppendAssoc(t.teacherLinks, NewLinks(init, t.nextId, TeacherLink), LinksOf(id, d.teachers));
  }

  lemma MaterializeAllSnoc(before: seq<Pair>, p: Pair, ds: seq<Draft>, i: nat, base: nat, id: nat)
    requires i < |ds| && before == MaterializeAll(ds[..i], base)
    requires id == base + i && p == Materialize(ds[i], id)
    ensures before + [p] == MaterializeAll(ds[..i + 1], base)
  {
  }

  lemma NewLinksSnoc(ds: seq<Draft>, i: nat, base: nat, k: LinkKind, id: nat)
    requires i < |ds| && id == base + i
    ensures NewLinks(ds[..i + 1], base, k) == NewLinks(ds[..i], base, k) + LinksOf(id, Targets(ds[i], k))
  {
    assert ds[..i + 1][..i] == ds[..i];
  }

  lemma {:induction false} CreateAllConsistent(t: Tables, ds: seq<Draft>)
    requires Consistent(t)
    ensures Consistent(CreateAll(t, ds))
  {
    if |ds| > 0 {
      var n := |ds| - 1;
      CreateAllConsistent(t, ds[..n]);
      assert ds[..n + 1] == ds;
      CreateAllStep(t, ds, n);
      CreateConsistent(CreateAll(t, ds[..n]), ds[n]);
    }
  }

  /**
   * The deletions of a bulk save remove every pair of the scope and keep
   * every other pair; the counter and the slots are untouched.
   */
  lemma ClearScope(t: Tables, scope: Scope)
    requires Consistent(t)
    ensures var c := Clear(t, scope);
      (forall p :: p in c.pairs ==> !InScope(p, scope))
      && (forall p :: p in t.pairs && !InScope(p, scope) ==> p in c.pairs)
      && (forall p :: p in c.pairs ==> p in t.pairs)
      && c.nextId == t.nextId && c.timeSlots == t.timeSlots
  {
  }

  // ------------------------------------------------------------ link lookups

  lemma {:induction false} TargetsOfAppend(a: seq<Link>, b: seq<Link>, id: nat)
    ensures TargetsOf(a + b, id) == TargetsOf(a, id) + TargetsOf(b, id)
  {
    if |a| > 0 {
      var ab := a + b;
      assert ab[0] == a[0] && ab[1..] == a[1..] + b;
      TargetsOfAppend(a[1..], b, id);
      var head := if a[0].pairId == id then [a[0].target] else [];
      assert TargetsOf(ab, id) == head + TargetsOf(a[1..] + b, id);
      assert TargetsOf(a, id) == head + TargetsOf(a[1..], id);
      AppendAssoc(head, TargetsOf(a[1..], id), TargetsOf(b, id));
    } else {
      assert a + b == b;
    }
  }

  lemma {:induction false} TargetsOfLinksOf(owner: nat, targets: seq<string>, id: nat)
    ensures TargetsOf(LinksOf(owner, targets), id) == if owner == id then targets else []
  {
    var ls := LinksOf(owner, targets);
    if |targets| > 0 {
      assert ls[1..] == LinksOf(owner, targets[1..]);
      TargetsOfLinksOf(owner, targets[1..], id);
    }
  }

  lemma {:induction false} TargetsOfBelow(ls: seq<Link>, id: nat)
    requires LinksBelow(ls, id)
    ensures TargetsOf(ls, id) == []
  {
    if |ls| > 0 {
      TargetsOfBelow(ls[1..], id);
    }
  }

  /** Among the link rows of creations numbered from `base`, the rows of id `base + i` are those of creation `i`, in order. */
  lemma {:induction false} TargetsOfNewLinks(ds: seq<Draft>, base: nat, k: LinkKind, i: nat, id: nat)
    requires i < |ds| && id == base + i
    ensures TargetsOf(NewLinks(ds, base, k), id) == Targets(ds[i], k)
  {
    var n := |ds| - 1;
    var init := ds[..n];
    var older := NewLinks(init, base, k);
    var lastId := base + n;
    var last := LinksOf(lastId, Targets(ds[n], k));
    assert NewLinks(ds, base, k) == older + last;
    TargetsOfLinksOf(lastId, Targets(ds[n], k), id);
    TargetsOfAppend(older, last, id);
    if i < n {
      assert init[i] == ds[i];
      TargetsOfNewLinks(init, base, k, i, id);
      assert TargetsOf(last, id) == [];
      assert TargetsOf(older, id) + [] == TargetsOf(older, id);
    } else {
      NewLinksBelow(init, base, k);
      assert |init| == i;
      TargetsAfterOlder(older, last, id);
    }
  }

  lemma {:induction false} NewLinksBelow(ds: seq<Draft>, base: nat, k: LinkKind)
    ensures LinksBelow(NewLinks(ds, base, k), base + |ds|)
  {
    if |ds| > 0 {
      NewLinksBelow(ds[..|ds| - 1], base, k);
      LinksOfBelow(base + |ds| - 1, Targets(ds[|ds| - 1], k), base + |ds|);
    }
  }

  /**
   * After creations on consistent tables, the link rows of the `i`-th new
   * pair are exactly the targets its creation named: old rows never carry
   * the new ids.
   */
  lemma CreateAllLinks(t: Tables, ds: seq<Draft>, k: LinkKind)
    ensures LinkTable(CreateAll(t, ds), k) == LinkTable(t, k) + NewLinks(ds, t.nextId, k)
  {
  }

  lemma CreatedLinks(t: Tables, ds: seq<Draft>, k: LinkKind, i: nat, id: nat)
    requires LinksBelow(LinkTable(t, k), t.nextId) && i < |ds| && id == t.nextId + i
    ensures TargetsOf(LinkTable(CreateAll(t, ds), k), id) == Targets(ds[i], k)
  {
    CreateAllLinks(t, ds, k);
    TargetsOfNewLinks(ds, t.nextId, k, i, id);
    TargetsAfterOlder(LinkTable(t, k), NewLinks(ds, t.nextId, k), id);
  }

  /** Rows of older ids do not change the rows found for a newer id. */
  lemma TargetsAfterOlder(before: seq<Link>, added: seq<Link>, id: nat)
    requires LinksBelow(before, id)
    ensures TargetsOf(before + added, id) == TargetsOf(added, id)
  {
    TargetsOfAppend(before, added, id);
    TargetsOfBelow(before, id);
    assert [] + TargetsOf(added, id) == TargetsOf(added, id);
  }

  // ------------------------------------------------------------ queries

  /** `findByGroup`: the group's pairs of the half-year and week type. */
  function FindByGroup(t: Tables, groupId: string, halfYear: string, weekType: WeekType): (r: seq<Pair>)
    ensures forall p :: p in r <==>
      p in t.pairs && p.halfYear == Some(halfYear) && p.weekType == Some(weekType) && Link(p.id, groupId) in t.groupLinks
  {
    Filter(t.pairs, (p: Pair) => p.halfYear == Some(halfYear) && p.weekType == Some(weekType) && Link(p.id, groupId) in t.groupLinks)
  }

  /** `findBusyRooms`: the half-year's pairs held in the room. */
  function FindBusyRooms(t: Tables, audienceId: string, halfYear: string): (r: seq<Pair>)
    ensures forall p :: p in r <==> p in t.pairs && p.halfYear == Some(halfYear) && Link(p.id, audienceId) in t.roomLinks
  {
    Filter(t.pairs, (p: Pair) => p.halfYear == Some(halfYear) && Link(p.id, audienceId) in t.roomLinks)
  }

  /** `findBusyTeachers`: the half-year's pairs the teacher is linked to. */
  function FindBusyTeachers(t: Tables, teacherId: string, halfYear: string): (r: seq<Pair>)
    ensures forall p :: p in r <==> p in t.pairs && p.halfYear == Some(halfYear) && Link(p.id, teacherId) in t.teacherLinks
  {
    Filter(t.pairs, (p: Pair) => p.halfYear == Some(halfYear) && Link(p.id, teacherId) in t.teacherLinks)
  }

  /** The pairs `getDistanceSchedule` fetches: the study plan's pairs of the half-year linked to the group. */
  function DistancePairs(t: Tables, groupId: string, studyPlanId: string, halfYear: string): (r: seq<Pair>)
    ensures forall p :: p in r <==>
      p in t.pairs && p.studyPlanId == studyPlanId && p.halfYear == Some(halfYear) && Link(p.id, groupId) in t.groupLinks
  {
    Filter(t.pairs, (p: Pair) => p.studyPlanId == studyPlanId && p.halfYear == Some(halfYear) && Link(p.id, groupId) in t.groupLinks)
  }

  // ------------------------------------------------------------ bulk saves

  /** What a successful bulk save leaves: the scope cleared, then the creations. */
  function Saved(t: Tables, scope: Scope, ds: seq<Draft>): Tables
  {
    CreateAll(Clear(t, scope), ds)
  }

  predicate AllInScope(ds: seq<Draft>, scope: Scope)
  {
    forall d :: d in ds ==>
      d.groups == [scope.groupId] && d.halfYear == Some(scope.halfYear) && d.studyPlanId == scope.studyPlanId
  }

  /**
   * A bulk save replaces the scope: afterwards its pairs are exactly the
   * new rows, one per creation; every pair outside the scope is still
   * there, and nothing else is.
   */
  lemma SavedScope(t: Tables, scope: Scope, ds: seq<Draft>)
    requires Consistent(t) && AllInScope(ds, scope)
    ensures var s := Saved(t, scope, ds);
      (forall p :: p in s.pairs && InScope(p, scope) <==> p in MaterializeAll(ds, t.nextId))
      && (forall p :: !InScope(p, scope) ==> (p in s.pairs <==> p in t.pairs))
  {
    ClearScope(t, scope);
    MaterializeAllInScope(ds, t.nextId, scope);
  }

  lemma MaterializeAllInScope(ds: seq<Draft>, base: nat, scope: Scope)
    requires AllInScope(ds, scope)
    ensures forall p :: p in MaterializeAll(ds, base) ==> InScope(p, scope)
  {
    var created := MaterializeAll(ds, base);
    forall p | p in created ensures InScope(p, scope) {
      var i :| 0 <= i < |ds| && created[i] == p;
      assert ds[i] in ds;
    }
  }

  /**
   * After a bulk save, each new pair is found by `findByGroup` for its
   * week type, and its room and teacher rows are exactly those its cell named.
   */
  lemma SavedPairsAreFound(t: Tables, scope: Scope, ds: seq<Draft>, i: nat)
    requires Consistent(t) && AllInScope(ds, scope) && i < |ds| && ds[i].weekType.Some?
    ensures var s := Saved(t, scope, ds);
      var p := MaterializeAll(ds, t.nextId)[i];
      p in FindByGroup(s, scope.groupId, scope.halfYear, ds[i].weekType.value)
      && TargetsOf(s.roomLinks, p.id) == ds[i].rooms
      && TargetsOf(s.teacherLinks, p.id) == ds[i].teachers
  {
    assert ds[i] in ds;
    var c := Clear(t, scope);
    DeleteConsistent(t, ScopeIds(t.pairs, scope.studyPlanId, scope.halfYear), scope.groupId);
    assert c.nextId == t.nextId;
    var s := CreateAll(c, ds);
    var id := c.nextId + i;
    CreatedPairLinks(c, ds, i, id);
    assert ds[i].groups == [scope.groupId];
    TargetsOfMember(s.groupLinks, id, scope.groupId);
    CreatedRow(c, ds, i, id);
    assert s == Saved(t, scope, ds);
  }

  /** The `i`-th creation's row is in the table, under id `nextId + i`. */
  lemma CreatedRow(c: Tables, ds: seq<Draft>, i: nat, id: nat)
    requires i < |ds| && id == c.nextId + i
    ensures var p := MaterializeAll(ds, c.nextId)[i];
      p in CreateAll(c, ds).pairs && p == Materialize(ds[i], id)
  {
    var created := MaterializeAll(ds, c.nextId);
    assert created[i] == Materialize(ds[i], id);
    var all := c.pairs + created;
    assert all[|c.pairs| + i] == created[i];
    assert created[i] in all;
  }

  /** The link rows of the `i`-th new pair, table by table, are those its creation named. */
  lemma CreatedPairLinks(c: Tables, ds: seq<Draft>, i: nat, id: nat)
    requires LinksBelow(c.groupLinks, c.nextId) && LinksBelow(c.roomLinks, c.nextId)
    requires LinksBelow(c.teacherLinks, c.nextId) && i < |ds| && id == c.nextId + i
    ensures var s := CreateAll(c, ds);
      TargetsOf(s.groupLinks, id) == ds[i].groups
      && TargetsOf(s.roomLinks, id) == ds[i].rooms
      && TargetsOf(s.teacherLinks, id) == ds[i].teachers
  {
    CreatedLinks(c, ds, GroupLink, i, id);
    CreatedLinks(c, ds, RoomLink, i, id);
    CreatedLinks(c, ds, TeacherLink, i, id);
  }

  lemma {:induction false} TargetsOfMember(ls: seq<Link>, id: nat, target: string)
    requires target in TargetsOf(ls, id)
    ensures Link(id, target) in ls
  {
    if ls[0].pairId == id && ls[0].target == target {
    } else {
      TargetsOfMember(ls[1..], id, target);
    }
  }

  /** The creations of a weekly save all belong to the request's scope. */
  lemma BulkPlanInScope(req: BulkRequest, known: set<AssignmentKey>, db: Existing)
    requires BulkPlan(req, known).Ok?
    ensures AllInScope(BulkPlan(req, known).value, req.scope)
    ensures AllInScope(AcceptedDrafts(BulkPlan(req, known).value, db), req.scope)
  {
    BulkPlanShape(req, known);
  }

  /** The creations of a distance save, and those of them the database accepts, all belong to the request's scope. */
  lemma {:induction false} DistancePlanInScope(scope: Scope, weeks: JsObject.Obj<JsObject.Obj<CellDto>>,
                                                known: set<AssignmentKey>, db: Existing)
    requires PlanWeeks(scope, weeks, known).Ok?
    ensures AllInScope(PlanWeeks(scope, weeks, known).value, scope)
    ensures AllInScope(AcceptedDrafts(PlanWeeks(scope, weeks, known).value, db), scope)
  {
    if |weeks| > 0 {
      var n := |weeks| - 1;
      DistancePlanInScope(scope, weeks[..n], known, db);
      var (key, cells) := weeks[n];
      PlanCellsGroups(scope, None, NumberWeekOf(key), cells, known);
    }
  }

  // ------------------------------------------------------------ the store

  class PairStore {
    var pairs: seq<Pair>
    var groupLinks: seq<Link>
    var roomLinks: seq<Link>
    var teacherLinks: seq<Link>
    var timeSlots: map<string, TimeSlot>
    var nextId: nat

    function State(): Tables
      reads this
    {
      Tables(pairs, groupLinks, roomLinks, teacherLinks, timeSlots, nextId)
    }

    ghost predicate Valid()
      reads this
    {
      Consistent(State())
    }

    constructor ()
      ensures Valid() && State() == Tables([], [], [], [], map[], 0)
    {
      pairs, groupLinks, roomLinks, teacherLinks := [], [], [], [];
      timeSlots := map[];
      nextId := 0;
    }

    /** One `schedulePair.create`. */
    method Insert(d: Draft) returns (p: Pair)
      requires Valid()
      modifies this
      ensures Valid()
      ensures State() == Create(old(State()), d) && p == Materialize(d, old(nextId))
    {
      CreateConsistent(State(), d);
      p := Materialize(d, nextId);
      if d.slot.id !in timeSlots {
        timeSlots := timeSlots[d.slot.id := d.slot];
      }
      pairs := pairs + [p];
      groupLinks := groupLinks + LinksOf(p.id, d.groups);
      roomLinks := roomLinks + LinksOf(p.id, d.rooms);
      teacherLinks := teacherLinks + LinksOf(p.id, d.teachers);
      nextId := nextId + 1;
    }

    /**
     * `Promise.all(creations)`: the creations are started together and their
     * rows come back in array order. The model applies them one at a time in
     * that order.
     */
    method ExecuteAll(ds: seq<Draft>) returns (created: seq<Pair>)
      requires Valid()
      modifies this
      ensures Valid()
      ensures State() == CreateAll(old(State()), ds)
      ensures created == MaterializeAll(ds, old(nextId))
    {
      created := [];
      ghost var s0 := State();
      var i := 0;
      while i < |ds|
        invariant 0 <= i <= |ds|
        invariant Valid()
        invariant nextId == s0.nextId + i
        invariant State() == CreateAll(s0, ds[..i])
        invariant created == MaterializeAll(ds[..i], s0.nextId)
      {
        assert ds[i] in ds;
        CreateAllStep(s0, ds, i);
        ghost var id := nextId;
        var p := Insert(ds[i]);
        MaterializeAllSnoc(created, p, ds, i, s0.nextId, id);
        created := created + [p];
        i := i + 1;
      }
      assert ds[..i] == ds;
    }

    method DeleteScope(ids: set<nat>, groupId: string)
      requires Valid()
      modifies this
      ensures Valid()
      ensures State() == Delete(old(State()), ids, groupId)
    {
      DeleteConsistent(State(), ids, groupId);
      groupLinks := KeepGroupLinks(groupLinks, ids, groupId);
      roomLinks := KeepLinks(roomLinks, ids);
      teacherLinks := KeepLinks(teacherLinks, ids);
      pairs := KeepPairs(pairs, ids);
    }

    /** The loop over one week's cells, preparing one creation per cell. */
    static method PlanCellsLoop(scope: Scope, weekType: Option<WeekType>, numberWeek: NumberWeek,
                                cells: JsObject.Obj<CellDto>, known: set<AssignmentKey>) returns (r: Result<seq<Draft>>)
      ensures r == PlanCells(scope, weekType, numberWeek, cells, known)
    {
      var creations: seq<Draft> := [];
      var i := 0;
      while i < |cells|
        invariant 0 <= i <= |cells|
        invariant PlanCells(scope, weekType, numberWeek, cells[..i], known) == Ok(creations)
      {
        var (daySlot, data) := cells[i];
        MapAllSnoc(cells, CellStep(scope, weekType, numberWeek, known), i, creations);
        var d := CellDraft(scope, weekType, numberWeek, daySlot, data, known);
        if d.Err? {
          return Err(d.error);
        }
        creations := creations + [d.value];
        i := i + 1;
      }
      assert cells[..i] == cells;
      return Ok(creations);
    }

    /** The loop over the weeks of a distance request, each week's cells in turn. */
    static method PlanWeeksLoop(scope: Scope, weeks: JsObject.Obj<JsObject.Obj<CellDto>>, known: set<AssignmentKey>)
      returns (r: Result<seq<Draft>>)
      ensures r == PlanWeeks(scope, weeks, known)
    {
      var creations: seq<Draft> := [];
      var i := 0;
      while i < |weeks|
        invariant 0 <= i <= |weeks|
        invariant PlanWeeks(scope, weeks[..i], known) == Ok(creations)
      {
        var (weekKey, slots) := weeks[i];
        assert weeks[..i + 1][..i] == weeks[..i];
        var numberWeek := NumberWeekOf(weekKey);
        var week := PlanCellsLoop(scope, None, numberWeek, slots, known);
        if week.Err? {
          PlanWeeksErrSticky(scope, weeks, known, i + 1);
          return Err(week.error);
        }
        creations := creations + week.value;
        i := i + 1;
      }
      assert weeks[..i] == weeks;
      return Ok(creations);
    }

    /**
     * `bulkCreate`: clears the study plan's half-year, then prepares one
     * creation per cell of `even` and `odd`, looking each assignment up in
     * `db`; the first cell that fails aborts the call after the deletions,
     * with nothing created. Otherwise `Promise.all` starts every creation:
     * those whose connected rows all exist are written, and the call
     * returns their rows only when none was rejected.
     */
    method BulkCreate(req: BulkRequest, db: Existing) returns (r: Result<seq<Pair>>)
      requires Valid()
      modifies this
      ensures Valid()
      ensures var plan := BulkPlan(req, db.assignments);
        (plan.Err? ==> r == Err(plan.error) && State() == Clear(old(State()), req.scope))
        && (plan.Ok? ==> State() == Saved(old(State()), req.scope, AcceptedDrafts(plan.value, db))
                          && r == if AllAccepted(plan.value, db) then Ok(MaterializeAll(plan.value, old(nextId))) else Err(Crash))
    {
      var known := db.assignments;
      ghost var s0 := State();
      var ids := ScopeIds(pairs, req.scope.studyPlanId, req.scope.halfYear);
      DeleteScope(ids, req.scope.groupId);
      var even := PlanCellsLoop(req.scope, Some(EVEN), Absent, req.even, known);
      if even.Err? {
        return Err(even.error);
      }
      var odd := PlanCellsLoop(req.scope, Some(ODD), Absent, req.odd, known);
      if odd.Err? {
        return Err(odd.error);
      }
      var creations := even.value + odd.value;
      var accepted := AcceptedDrafts(creations, db);
      var created := ExecuteAll(accepted);
      if AllAccepted(creations, db) {
        FilterAll(creations, db);
        r := Ok(created);
      } else {
        r := Err(Crash);
      }
    }

    /**
     * `bulkCreateDistance`: the same replacement with the cells keyed by
     * week ("week1" … "week4") and `numberWeek` parsed from the key. A key
     * whose number does not parse passes NaN to the database: those
     * creations are rejected, like those connecting to a missing row, and
     * the call fails, while the other creations are written.
     */
    method BulkCreateDistance(req: DistanceRequest, db: Existing) returns (r: Result<seq<Pair>>)
      requires Valid()
      modifies this
      ensures Valid()
      ensures var plan := DistancePlan(req, db.assignments);
        (plan.Err? ==> r == Err(plan.error) && State() == Clear(old(State()), req.scope))
        && (plan.Ok? ==> State() == Saved(old(State()), req.scope, AcceptedDrafts(plan.value, db))
                          && r == if AllAccepted(plan.value, db) then Ok(MaterializeAll(plan.value, old(nextId))) else Err(Crash))
    {
      var known := db.assignments;
      var ids := ScopeIds(pairs, req.scope.studyPlanId, req.scope.halfYear);
      DeleteScope(ids, req.scope.groupId);
      var plan := PlanWeeksLoop(req.scope, req.weeks, known);
      if plan.Err? {
        return Err(plan.error);
      }
      var creations := plan.value;
      var accepted := AcceptedDrafts(creations, db);
      var created := ExecuteAll(accepted);
      if AllAccepted(creations, db) {
        FilterAll(creations, db);
        r := Ok(created);
      } else {
        r := Err(Crash);
      }
    }

    /** `getDistanceSchedule`: the four week maps of the group's distance-learning pairs. */
    method GetDistanceSchedule(groupId: string, studyPlanId: string, halfYear: string)
      returns (r: Result<seq<JsObject.Obj<DistanceCell>>>)
      requires Valid()
      ensures r == DistanceFold(DistancePairs(State(), groupId, studyPlanId, halfYear), timeSlots, roomLinks, teacherLinks)
    {
      var ps := DistancePairs(State(), groupId, studyPlanId, halfYear);
      r := FillWeeks(ps, timeSlots, roomLinks, teacherLinks);
    }
  }
}
