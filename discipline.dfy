/**
 * The discipline service of the backend: the disciplines common to several
 * groups, the lecture/practice list of disciplines with their teachers, the
 * teacher assignment registry keyed by (discipline, type), the group
 * assignment records and a teacher's audience-type preferences.
 *
 * Generated temporary ids (`Math.random().toString(36)`) are modelled as
 * the label `Temporary(k)` of the `k`-th item; stored records carry
 * `Stored(id)`.
 */
module Disciplines {
  import opened Common

  /** A discipline row of a study plan; absent hours are `null`. */
  datatype StudyDiscipline = StudyDiscipline(name: string, studyPlanId: string, semester: int,
                                             lecture: Option<int>, elLecture: Option<int>,
                                             practice: Option<int>, laboratory: Option<int>,
                                             elPractice: Option<int>, elLaboratory: Option<int>)

  datatype Group = Group(id: string, studyPlanId: Option<string>)

  /** A `DisciplineGroupAssignment` with the ids of its groups. */
  datatype GroupAssignment = GroupAssignment(id: nat, discipline: string, semester: int, groups: seq<string>)

  /** A `TeacherDisciplineAssignment`, unique by (discipline, type). */
  datatype TeacherAssignment = TeacherAssignment(id: nat, discipline: string, kind: string,
                                                 teachers: seq<string>, audienceTypeId: Option<string>)

  /** The two kinds of item the service lists. */
  datatype Kind = Lecture | Practice
  {
    function Name(): string
    {
      match this
      case Lecture => "lecture"
      case Practice => "practice"
    }
  }

  datatype ItemId = Stored(n: nat) | Temporary(k: nat)

  // ------------------------------------------------------------ insertion-ordered sets

  predicate Unique(xs: seq<string>)
  {
    forall i, j :: 0 <= i < j < |xs| ==> xs[i] != xs[j]
  }

  /** `Array.from(new Set(xs))`: each element once, at its first occurrence. */
  function Dedup(xs: seq<string>): (r: seq<string>)
    ensures forall x :: x in r <==> x in xs
    ensures Unique(r) && |r| <= |xs|
  {
    if |xs| == 0 then []
    else
      var init := xs[..|xs| - 1];
      var d := Dedup(init);
      assert xs == init + [xs[|xs| - 1]];
      if xs[|xs| - 1] in d then d else d + [xs[|xs| - 1]]
  }

  /** `[...acc].filter(name => set.has(name))`. */
  function KeepIn(acc: seq<string>, s: seq<string>): (r: seq<string>)
    ensures forall x :: x in r <==> x in acc && x in s
    ensures Unique(acc) ==> Unique(r)
  {
    if |acc| == 0 then []
    else
      var rest := KeepIn(acc[1..], s);
      assert acc == [acc[0]] + acc[1..];
      (if acc[0] in s then [acc[0]] else []) + rest
  }

  // ------------------------------------------------------------ lookups

  /** `group.findMany({ where: { id: { in: ids } } })`, in table order. */
  function FoundGroups(gs: seq<Group>, ids: seq<string>): (r: seq<Group>)
    ensures forall g :: g in r <==> g in gs && g.id in ids
    ensures |r| <= |gs|
  {
    if |gs| == 0 then []
    else (if gs[0].id in ids then [gs[0]] else []) + FoundGroups(gs[1..], ids)
  }

  /** `groups.map(g => g.studyPlanId).filter(Boolean)`. */
  function TruthyPlans(gs: seq<Group>): (r: seq<string>)
    ensures forall p :: p in r <==> exists g :: g in gs && Truthy(g.studyPlanId) && g.studyPlanId.value == p
  {
    if |gs| == 0 then []
    else
      assert forall g :: g in gs <==> g == gs[0] || g in gs[1..];
      (if Truthy(gs[0].studyPlanId) then [gs[0].studyPlanId.value] else []) + TruthyPlans(gs[1..])
  }

  /** A discipline counts as a lecture of its plan when it has lecture or e-lecture hours, as a practice when it has any other hours. */
  predicate Offers(d: StudyDiscipline, k: Kind)
  {
    match k
    case Lecture => d.lecture.Some? || d.elLecture.Some?
    case Practice => d.practice.Some? || d.laboratory.Some? || d.elPractice.Some? || d.elLaboratory.Some?
  }

  /** Some discipline of plan `sp` in semester `sem` named `n` has hours of kind `k`. */
  predicate PlanOffers(ds: seq<StudyDiscipline>, sp: string, sem: int, k: Kind, n: string)
  {
    exists d :: d in ds && d.studyPlanId == sp && d.semester == sem && Offers(d, k) && d.name == n
  }

  /** The names added to one plan's lecture or practice set, in scan order. */
  function PlanNames(ds: seq<StudyDiscipline>, sp: string, sem: int, k: Kind): (r: seq<string>)
    ensures forall n :: n in r <==> PlanOffers(ds, sp, sem, k, n)
  {
    if |ds| == 0 then []
    else
      var d := ds[0];
      assert forall e :: e in ds <==> e == d || e in ds[1..];
      (if d.studyPlanId == sp && d.semester == sem && Offers(d, k) then [d.name] else [])
      + PlanNames(ds[1..], sp, sem, k)
  }

  /** One plan's `Set` of names. */
  function PlanSet(ds: seq<StudyDiscipline>, sp: string, sem: int, k: Kind): (r: seq<string>)
    ensures Unique(r) && forall n :: n in r <==> PlanOffers(ds, sp, sem, k, n)
  {
    Dedup(PlanNames(ds, sp, sem, k))
  }

  /** The `reduce` over the remaining plans' sets. */
  function KeepCommon(acc: seq<string>, ds: seq<StudyDiscipline>, plans: seq<string>, sem: int, k: Kind): (r: seq<string>)
    ensures Unique(acc) ==> Unique(r)
    decreases |plans|
  {
    if |plans| == 0 then acc
    else KeepCommon(KeepIn(acc, PlanSet(ds, plans[0], sem, k)), ds, plans[1..], sem, k)
  }

  /** The names common to every plan, in the first plan's order. */
  function CommonNames(ds: seq<StudyDiscipline>, plans: seq<string>, sem: int, k: Kind): (r: seq<string>)
    requires |plans| > 0
    ensures Unique(r)
  {
    KeepCommon(PlanSet(ds, plans[0], sem, k), ds, plans[1..], sem, k)
  }

  lemma {:induction false} KeepCommonSpec(acc: seq<string>, ds: seq<StudyDiscipline>, plans: seq<string>,
                                          sem: int, k: Kind, n: string)
    ensures n in KeepCommon(acc, ds, plans, sem, k) <==>
      n in acc && forall p :: p in plans ==> PlanOffers(ds, p, sem, k, n)
    decreases |plans|
  {
    if |plans| > 0 {
      KeepCommonSpec(KeepIn(acc, PlanSet(ds, plans[0], sem, k)), ds, plans[1..], sem, k, n);
      assert forall p :: p in plans <==> p == plans[0] || p in plans[1..];
    }
  }

  /** A name is common exactly when every plan offers it with that kind. */
  lemma CommonNamesSpec(ds: seq<StudyDiscipline>, plans: seq<string>, sem: int, k: Kind, n: string)
    requires |plans| > 0
    ensures n in CommonNames(ds, plans, sem, k) <==> forall p :: p in plans ==> PlanOffers(ds, p, sem, k, n)
  {
    KeepCommonSpec(PlanSet(ds, plans[0], sem, k), ds, plans[1..], sem, k, n);
    assert forall p :: p in plans <==> p == plans[0] || p in plans[1..];
  }

  // ------------------------------------------------------------ getCommonDisciplinesByGroupsAndSemester

  /** An item of the common-discipline list. */
  datatype Item = Item(id: ItemId, title: string, kind: Kind, groups: seq<string>)

  /** `tempResult`: a lecture item per common lecture name, then a practice item per common practice name. */
  function TempItems(lect: seq<string>, prac: seq<string>): (r: seq<Item>)
    ensures |r| == |lect| + |prac|
    ensures forall i :: 0 <= i < |lect| ==> r[i] == Item(Temporary(i), lect[i], Lecture, [])
    ensures forall i :: |lect| <= i < |r| ==> r[i] == Item(Temporary(i), prac[i - |lect|], Practice, [])
  {
    seq(|lect| + |prac|, i requires 0 <= i < |lect| + |prac| =>
      if i < |lect| then Item(Temporary(i), lect[i], Lecture, [])
      else Item(Temporary(i), prac[i - |lect|], Practice, []))
  }

  /** The group-assignment query: same semester, a common name, and at least one of the chosen groups. */
  predicate Relevant(a: GroupAssignment, names: seq<string>, sem: int, groupIds: seq<string>)
  {
    a.semester == sem && a.discipline in names && exists g :: g in a.groups && g in groupIds
  }

  function Existing(gas: seq<GroupAssignment>, names: seq<string>, sem: int, groupIds: seq<string>): (r: seq<GroupAssignment>)
    ensures forall a :: a in r <==> a in gas && Relevant(a, names, sem, groupIds)
  {
    if |gas| == 0 then []
    else
      var init := gas[..|gas| - 1];
      var last := gas[|gas| - 1];
      assert gas == init + [last];
      Existing(init, names, sem, groupIds) + (if Relevant(last, names, sem, groupIds) then [last] else [])
  }

  /** `mapByName`: every record under its discipline name, later records overwriting earlier ones. */
  function ByName(records: seq<GroupAssignment>): (m: map<string, GroupAssignment>)
    ensures forall n :: n in m <==> exists a :: a in records && a.discipline == n
    ensures forall n :: n in m ==> m[n] in records && m[n].discipline == n
  {
    if |records| == 0 then map[]
    else
      var init := records[..|records| - 1];
      assert records == init + [records[|records| - 1]];
      ByName(init)[records[|records| - 1].discipline := records[|records| - 1]]
  }

  /** The record kept for a name is the last one with that name. */
  lemma {:induction false} ByNameLast(records: seq<GroupAssignment>, i: nat)
    requires i < |records|
    requires forall j :: i < j < |records| ==> records[j].discipline != records[i].discipline
    ensures ByName(records)[records[i].discipline] == records[i]
  {
    var n := |records| - 1;
    if i < n {
      var init := records[..n];
      ByNameLast(init, i);
    }
  }

  /** An item whose title has a record takes the record's id and groups. */
  function Resolve(item: Item, m: map<string, GroupAssignment>): Item
  {
    if item.title in m then item.(id := Stored(m[item.title].id), groups := m[item.title].groups) else item
  }

  /** The distinct study plans of the found groups. */
  function PlansOf(found: seq<Group>): seq<string>
  {
    Dedup(TruthyPlans(found))
  }

  /** `getCommonDisciplinesByGroupsAndSemester(groupIds, semester)`. */
  function CommonDisciplines(gs: seq<Group>, ds: seq<StudyDiscipline>, gas: seq<GroupAssignment>,
                             groupIds: seq<string>, sem: int): (r: Result<seq<Item>>)
  {
    if |groupIds| < 2 then Err(PlainError)
    else
      var found := FoundGroups(gs, groupIds);
      if exists g :: g in found && !Truthy(g.studyPlanId) then Err(NotFound)
      else
        var plans := PlansOf(found);
        if |plans| == 0 then Err(Crash)
        else
          var lect := CommonNames(ds, plans, sem, Lecture);
          var prac := CommonNames(ds, plans, sem, Practice);
          var temp := TempItems(lect, prac);
          var m := ByName(Existing(gas, lect + prac, sem, groupIds));
          Ok(seq(|temp|, i requires 0 <= i < |temp| => Resolve(temp[i], m)))
  }

  /** The method with the service's two loops: `mapByName` is filled, then every item is resolved in place. */
  method GetCommonDisciplines(gs: seq<Group>, ds: seq<StudyDiscipline>, gas: seq<GroupAssignment>,
                              groupIds: seq<string>, sem: int) returns (r: Result<seq<Item>>)
    ensures r == CommonDisciplines(gs, ds, gas, groupIds, sem)
  {
    if |groupIds| < 2 {
      return Err(PlainError);
    }
    var found := FoundGroups(gs, groupIds);
    if exists g :: g in found && !Truthy(g.studyPlanId) {
      return Err(NotFound);
    }
    var plans := PlansOf(found);
    if |plans| == 0 {
      return Err(Crash);
    }
    var lect := CommonNames(ds, plans, sem, Lecture);
    var prac := CommonNames(ds, plans, sem, Practice);
    var temp := TempItems(lect, prac);
    var existing := Existing(gas, lect + prac, sem, groupIds);
    var byName := BuildByName(existing);
    var items := ResolveItems(temp, byName);
    r := Ok(items);
  }

  /** The loop filling `mapByName`. */
  method BuildByName(existing: seq<GroupAssignment>) returns (byName: map<string, GroupAssignment>)
    ensures byName == ByName(existing)
  {
    byName := map[];
    for i := 0 to |existing|
      invariant byName == ByName(existing[..i])
    {
      assert existing[..i + 1][..i] == existing[..i];
      byName := byName[existing[i].discipline := existing[i]];
    }
    assert existing[..|existing|] == existing;
  }

  /** The loop over `tempResult` that resolves each item in place. */
  method ResolveItems(temp: seq<Item>, byName: map<string, GroupAssignment>) returns (items: seq<Item>)
    ensures items == seq(|temp|, i requires 0 <= i < |temp| => Resolve(temp[i], byName))
  {
    items := temp;
    for i := 0 to |items|
      invariant |items| == |temp|
      invariant forall j :: 0 <= j < i ==> items[j] == Resolve(temp[j], byName)
      invariant forall j :: i <= j < |items| ==> items[j] == temp[j]
    {
      if items[i].title in byName {
        var record := byName[items[i].title];
        items := items[i := items[i].(id := Stored(record.id), groups := record.groups)];
      }
    }
  }

  /** The record of one title: same semester, that discipline, and at least one of the chosen groups. */
  predicate Matching(a: GroupAssignment, title: string, sem: int, groupIds: seq<string>)
  {
    a.semester == sem && a.discipline == title && exists g :: g in a.groups && g in groupIds
  }

  /** The record kept for a common name is the last matching record of the table. */
  lemma {:induction false} ExistingByName(gas: seq<GroupAssignment>, names: seq<string>, sem: int,
                                          groupIds: seq<string>, j: nat)
    requires j < |gas| && gas[j].discipline in names && Matching(gas[j], gas[j].discipline, sem, groupIds)
    requires forall k :: j < k < |gas| ==> !Matching(gas[k], gas[j].discipline, sem, groupIds)
    ensures ByName(Existing(gas, names, sem, groupIds))[gas[j].discipline] == gas[j]
  {
    var n := gas[j].discipline;
    var init := gas[..|gas| - 1];
    var last := gas[|gas| - 1];
    var e := Existing(init, names, sem, groupIds);
    if j == |gas| - 1 {
      assert Existing(gas, names, sem, groupIds) == e + [last];
    } else {
      ExistingByName(init, names, sem, groupIds, j);
      if Relevant(last, names, sem, groupIds) {
        assert Existing(gas, names, sem, groupIds) == e + [last];
        assert last.discipline != n;
      } else {
        assert Existing(gas, names, sem, groupIds) == e;
      }
    }
  }

  /**
   * The call fails with a plain error for fewer than two group ids, with
   * NotFound when a found group has no study plan, and on the `reduce` over
   * no plans when none of the ids is a group.
   */
  lemma CommonDisciplinesErrors(gs: seq<Group>, ds: seq<StudyDiscipline>, gas: seq<GroupAssignment>,
                                groupIds: seq<string>, sem: int)
    ensures CommonDisciplines(gs, ds, gas, groupIds, sem) == Err(PlainError) <==> |groupIds| < 2
    ensures CommonDisciplines(gs, ds, gas, groupIds, sem) == Err(NotFound) <==>
      |groupIds| >= 2 && exists g :: g in FoundGroups(gs, groupIds) && !Truthy(g.studyPlanId)
    ensures CommonDisciplines(gs, ds, gas, groupIds, sem) == Err(Crash) <==>
      |groupIds| >= 2 && FoundGroups(gs, groupIds) == []
  {
    var found := FoundGroups(gs, groupIds);
    if |groupIds| >= 2 && found != [] && forall g :: g in found ==> Truthy(g.studyPlanId) {
      assert found[0] in found;
      assert found[0].studyPlanId.value in TruthyPlans(found);
      assert found[0].studyPlanId.value in PlansOf(found);
    }
  }

  /**
   * An item of kind `k` titled `n` is listed exactly when, for every found
   * group, some discipline of that group's study plan in the semester is
   * named `n` and has hours of kind `k`.
   */
  lemma CommonDisciplinesItems(gs: seq<Group>, ds: seq<StudyDiscipline>, gas: seq<GroupAssignment>,
                               groupIds: seq<string>, sem: int, k: Kind, n: string)
    requires CommonDisciplines(gs, ds, gas, groupIds, sem).Ok?
    ensures var r := CommonDisciplines(gs, ds, gas, groupIds, sem).value;
      (exists i :: 0 <= i < |r| && r[i].title == n && r[i].kind == k) <==>
        forall g :: g in FoundGroups(gs, groupIds) ==>
          Truthy(g.studyPlanId) && PlanOffers(ds, g.studyPlanId.value, sem, k, n)
  {
    var found := FoundGroups(gs, groupIds);
    var plans := PlansOf(found);
    var lect := CommonNames(ds, plans, sem, Lecture);
    var prac := CommonNames(ds, plans, sem, Practice);
    var m := ByName(Existing(gas, lect + prac, sem, groupIds));
    ResolvedListed(lect, prac, m, k, n);
    CommonNamesSpec(ds, plans, sem, k, n);
    PlansCover(found, ds, sem, k, n);
  }

  /** The resolved list holds a `k` item titled `n` exactly when `n` is among the names of that kind. */
  lemma ResolvedListed(lect: seq<string>, prac: seq<string>, m: map<string, GroupAssignment>, k: Kind, n: string)
    ensures var temp := TempItems(lect, prac);
      var r := seq(|temp|, i requires 0 <= i < |temp| => Resolve(temp[i], m));
      (exists i :: 0 <= i < |r| && r[i].title == n && r[i].kind == k) <==> n in (if k == Lecture then lect else prac)
  {
    var temp := TempItems(lect, prac);
    var r := seq(|temp|, i requires 0 <= i < |temp| => Resolve(temp[i], m));
    var names := if k == Lecture then lect else prac;
    if exists i :: 0 <= i < |r| && r[i].title == n && r[i].kind == k {
      var i :| 0 <= i < |r| && r[i].title == n && r[i].kind == k;
      assert r[i].title == temp[i].title && r[i].kind == temp[i].kind;
      if i < |lect| {
        assert n == lect[i];
      } else {
        assert n == prac[i - |lect|];
      }
    }
    if n in names {
      var j :| 0 <= j < |names| && names[j] == n;
      var i := if k == Lecture then j else |lect| + j;
      assert r[i].title == temp[i].title && r[i].kind == temp[i].kind;
    }
  }

  /** When every found group has a plan, a property of every distinct plan is a property of every group's plan. */
  lemma PlansCover(found: seq<Group>, ds: seq<StudyDiscipline>, sem: int, k: Kind, n: string)
    requires forall g :: g in found ==> Truthy(g.studyPlanId)
    ensures (forall p :: p in PlansOf(found) ==> PlanOffers(ds, p, sem, k, n)) <==>
      forall g :: g in found ==> Truthy(g.studyPlanId) && PlanOffers(ds, g.studyPlanId.value, sem, k, n)
  {
    var plans := PlansOf(found);
    assert forall g :: g in found ==> g.studyPlanId.value in plans;
    if forall g :: g in found ==> Truthy(g.studyPlanId) && PlanOffers(ds, g.studyPlanId.value, sem, k, n) {
      forall p | p in plans ensures PlanOffers(ds, p, sem, k, n) {
        assert p in TruthyPlans(found);
        var g :| g in found && Truthy(g.studyPlanId) && g.studyPlanId.value == p;
      }
    }
  }

  /** Every lecture item comes before every practice item, and no (title, kind) is listed twice. */
  lemma CommonDisciplinesOrder(gs: seq<Group>, ds: seq<StudyDiscipline>, gas: seq<GroupAssignment>,
                               groupIds: seq<string>, sem: int)
    requires CommonDisciplines(gs, ds, gas, groupIds, sem).Ok?
    ensures var r := CommonDisciplines(gs, ds, gas, groupIds, sem).value;
      forall i, j :: 0 <= i < j < |r| && r[i].kind == Practice ==> r[j].kind == Practice
    ensures var r := CommonDisciplines(gs, ds, gas, groupIds, sem).value;
      forall i, j :: 0 <= i < j < |r| && r[i].kind == r[j].kind ==> r[i].title != r[j].title
  {
    var found := FoundGroups(gs, groupIds);
    var plans := PlansOf(found);
    var lect := CommonNames(ds, plans, sem, Lecture);
    var prac := CommonNames(ds, plans, sem, Practice);
    var temp := TempItems(lect, prac);
    var r := CommonDisciplines(gs, ds, gas, groupIds, sem).value;
    forall i, j | 0 <= i < j < |r| && r[i].kind == r[j].kind ensures r[i].title != r[j].title {
      assert r[i].title == temp[i].title && r[i].kind == temp[i].kind;
      assert r[j].title == temp[j].title && r[j].kind == temp[j].kind;
      if i < |lect| {
        assert j < |lect|;
      } else {
        assert prac[i - |lect|] != prac[j - |lect|];
      }
    }
    forall i, j | 0 <= i < j < |r| && r[i].kind == Practice ensures r[j].kind == Practice {
      assert r[i].kind == temp[i].kind && r[j].kind == temp[j].kind;
    }
  }

  /**
   * Item `i` keeps its temporary id and no groups when no record matches its
   * title; otherwise it takes the id and groups of the last matching record.
   */
  lemma CommonDisciplinesResolved(gs: seq<Group>, ds: seq<StudyDiscipline>, gas: seq<GroupAssignment>,
                                  groupIds: seq<string>, sem: int, i: nat)
    requires CommonDisciplines(gs, ds, gas, groupIds, sem).Ok?
    requires i < |CommonDisciplines(gs, ds, gas, groupIds, sem).value|
    ensures var item := CommonDisciplines(gs, ds, gas, groupIds, sem).value[i];
      (forall a :: a in gas ==> !Matching(a, item.title, sem, groupIds)) ==>
        item.id == Temporary(i) && item.groups == []
    ensures var item := CommonDisciplines(gs, ds, gas, groupIds, sem).value[i];
      forall j :: (0 <= j < |gas| && Matching(gas[j], item.title, sem, groupIds)
                   && forall k :: j < k < |gas| ==> !Matching(gas[k], item.title, sem, groupIds)) ==>
        item.id == Stored(gas[j].id) && item.groups == gas[j].groups
  {
    var found := FoundGroups(gs, groupIds);
    var plans := PlansOf(found);
    var lect := CommonNames(ds, plans, sem, Lecture);
    var prac := CommonNames(ds, plans, sem, Practice);
    var temp := TempItems(lect, prac);
    var names := lect + prac;
    var m := ByName(Existing(gas, names, sem, groupIds));
    var item := CommonDisciplines(gs, ds, gas, groupIds, sem).value[i];
    assert item == Resolve(temp[i], m);
    assert temp[i].title in names by {
      if i < |lect| {
        assert temp[i].title == names[i];
      } else {
        assert temp[i].title == names[i];
      }
    }
    forall j | 0 <= j < |gas| && Matching(gas[j], item.title, sem, groupIds)
      && (forall k :: j < k < |gas| ==> !Matching(gas[k], item.title, sem, groupIds))
      ensures item.id == Stored(gas[j].id) && item.groups == gas[j].groups
    {
      ExistingByName(gas, names, sem, groupIds, j);
    }
  }

  // ------------------------------------------------------------ getFormattedDisciplines

  /** JavaScript truthiness of an optional number: `undefined`, `null` and `0` are falsy. */
  predicate TruthyNumber(n: Option<int>)
  {
    n.Some? && n.value != 0
  }

  /** The `where` filter of the discipline query: an optional plan list and an optional semester. */
  datatype Where = Where(plans: Option<seq<string>>, semester: Option<int>)

  /** The filter built from the optional arguments. */
  function WhereFor(gs: seq<Group>, groupIds: Option<seq<string>>, semester: Option<int>): Where
  {
    var sem := if TruthyNumber(semester) then semester else None;
    if groupIds.Some? && |groupIds.value| > 0 then Where(Some(PlansOf(FoundGroups(gs, groupIds.value))), sem)
    else Where(None, sem)
  }

  predicate Selects(w: Where, d: StudyDiscipline)
  {
    (w.plans.None? || d.studyPlanId in w.plans.value) && (w.semester.None? || d.semester == w.semester.value)
  }

  /** The names of the disciplines the query returns, in table order. */
  function SelectNames(ds: seq<StudyDiscipline>, w: Where): (r: seq<string>)
    ensures forall n :: n in r <==> exists d :: d in ds && Selects(w, d) && d.name == n
  {
    if |ds| == 0 then []
    else
      assert forall d :: d in ds <==> d == ds[0] || d in ds[1..];
      (if Selects(w, ds[0]) then [ds[0].name] else []) + SelectNames(ds[1..], w)
  }

  /** `teacherDisciplineAssignment.findUnique({ where: { discipline_type } })`. */
  function FindAssignment(tas: seq<TeacherAssignment>, discipline: string, kind: string): (r: Option<TeacherAssignment>)
    ensures r.None? <==> forall a :: a in tas ==> a.discipline != discipline || a.kind != kind
    ensures r.Some? ==> r.value in tas && r.value.discipline == discipline && r.value.kind == kind
  {
    if |tas| == 0 then None
    else if tas[0].discipline == discipline && tas[0].kind == kind then Some(tas[0])
    else
      assert forall a :: a in tas <==> a == tas[0] || a in tas[1..];
      FindAssignment(tas[1..], discipline, kind)
  }

  /** An entry of the formatted list. */
  datatype Entry = Entry(id: ItemId, title: string, kind: Kind, teachers: seq<string>)

  /** The entry for `title` and `k`, the `i`-th of the list. */
  function EntryFor(tas: seq<TeacherAssignment>, title: string, k: Kind, i: nat): Entry
  {
    match FindAssignment(tas, title, k.Name())
    case Some(a) => Entry(Stored(a.id), title, k, a.teachers)
    case None => Entry(Temporary(i), title, k, [])
  }

  /** A lecture entry and then a practice entry per title. */
  function Entries(tas: seq<TeacherAssignment>, titles: seq<string>): seq<Entry>
  {
    seq(2 * |titles|, i requires 0 <= i < 2 * |titles| =>
      EntryFor(tas, titles[i / 2], if i % 2 == 0 then Lecture else Practice, i))
  }

  /** `getFormattedDisciplines(groupIds?, semester?)`. */
  function Formatted(gs: seq<Group>, ds: seq<StudyDiscipline>, tas: seq<TeacherAssignment>,
                     groupIds: Option<seq<string>>, semester: Option<int>): seq<Entry>
  {
    Entries(tas, Dedup(SelectNames(ds, WhereFor(gs, groupIds, semester))))
  }

  /** The titles of the entries are those of the list. */
  lemma EntriesTitles(tas: seq<TeacherAssignment>, titles: seq<string>, n: string)
    ensures var r := Entries(tas, titles);
      (exists i :: 0 <= i < |r| && r[i].title == n) <==> n in titles
  {
    var r := Entries(tas, titles);
    if n in titles {
      var j :| 0 <= j < |titles| && titles[j] == n;
      assert (2 * j) / 2 == j;
      assert r[2 * j].title == n;
    }
    if exists i :: 0 <= i < |r| && r[i].title == n {
      var i :| 0 <= i < |r| && r[i].title == n;
      assert r[i].title == titles[i / 2];
    }
  }

  /** The list holds a lecture entry and then a practice entry per title. */
  lemma FormattedPairs(gs: seq<Group>, ds: seq<StudyDiscipline>, tas: seq<TeacherAssignment>,
                       groupIds: Option<seq<string>>, semester: Option<int>)
    ensures var r := Formatted(gs, ds, tas, groupIds, semester);
      |r| % 2 == 0 && forall i :: 0 <= i < |r| / 2 ==>
        r[2 * i].kind == Lecture && r[2 * i + 1].kind == Practice && r[2 * i].title == r[2 * i + 1].title
  {
    var r := Formatted(gs, ds, tas, groupIds, semester);
    forall i | 0 <= i < |r| / 2
      ensures r[2 * i].kind == Lecture && r[2 * i + 1].kind == Practice && r[2 * i].title == r[2 * i + 1].title
    {
      assert (2 * i) / 2 == i && (2 * i) % 2 == 0;
      assert (2 * i + 1) / 2 == i && (2 * i + 1) % 2 == 1;
    }
  }

  /** A title is listed exactly when some selected discipline has that name. */
  lemma FormattedTitles(gs: seq<Group>, ds: seq<StudyDiscipline>, tas: seq<TeacherAssignment>,
                        groupIds: Option<seq<string>>, semester: Option<int>, n: string)
    ensures var r := Formatted(gs, ds, tas, groupIds, semester);
      (exists i :: 0 <= i < |r| && r[i].title == n) <==>
        exists d :: d in ds && Selects(WhereFor(gs, groupIds, semester), d) && d.name == n
  {
    var w := WhereFor(gs, groupIds, semester);
    var names := SelectNames(ds, w);
    var titles := Dedup(names);
    assert Formatted(gs, ds, tas, groupIds, semester) == Entries(tas, titles);
    EntriesTitles(tas, titles, n);
    assert n in titles <==> n in names;
  }

  /** No title is listed twice with the same kind. */
  lemma FormattedDistinct(gs: seq<Group>, ds: seq<StudyDiscipline>, tas: seq<TeacherAssignment>,
                          groupIds: Option<seq<string>>, semester: Option<int>)
    ensures var r := Formatted(gs, ds, tas, groupIds, semester);
      forall i, j :: 0 <= i < j < |r| && r[i].kind == r[j].kind ==> r[i].title != r[j].title
  {
    var titles := Dedup(SelectNames(ds, WhereFor(gs, groupIds, semester)));
    var r := Formatted(gs, ds, tas, groupIds, semester);
    forall i, j | 0 <= i < j < |r| && r[i].kind == r[j].kind ensures r[i].title != r[j].title {
      assert r[i].title == titles[i / 2] && r[j].title == titles[j / 2];
      assert r[i].kind == (if i % 2 == 0 then Lecture else Practice);
      assert r[j].kind == (if j % 2 == 0 then Lecture else Practice);
      assert i / 2 < j / 2;
    }
  }

  /** The unique constraint on (discipline, type). */
  predicate UniqueKeys(tas: seq<TeacherAssignment>)
  {
    forall i, j :: 0 <= i < j < |tas| ==> tas[i].discipline != tas[j].discipline || tas[i].kind != tas[j].kind
  }

  /** Under the unique constraint, the lookup by key finds the one record with that key. */
  lemma {:induction false} FindAssignmentUnique(tas: seq<TeacherAssignment>, a: TeacherAssignment)
    requires UniqueKeys(tas) && a in tas
    ensures FindAssignment(tas, a.discipline, a.kind) == Some(a)
  {
    var j :| 0 <= j < |tas| && tas[j] == a;
    if j > 0 {
      assert tas[1..][j - 1] == a;
      if !(tas[0].discipline == a.discipline && tas[0].kind == a.kind) {
        FindAssignmentUnique(tas[1..], a);
      }
    }
  }

  /** An entry carries the registered assignment's id and teachers, or a temporary id and no teachers. */
  lemma FormattedTeachers(gs: seq<Group>, ds: seq<StudyDiscipline>, tas: seq<TeacherAssignment>,
                          groupIds: Option<seq<string>>, semester: Option<int>, i: nat, a: TeacherAssignment)
    requires UniqueKeys(tas)
    requires i < |Formatted(gs, ds, tas, groupIds, semester)|
    ensures var e := Formatted(gs, ds, tas, groupIds, semester)[i];
      (a in tas && a.discipline == e.title && a.kind == e.kind.Name() ==> e.id == Stored(a.id) && e.teachers == a.teachers)
      && ((forall b :: b in tas ==> b.discipline != e.title || b.kind != e.kind.Name()) ==>
         e.id == Temporary(i) && e.teachers == [])
  {
    var e := Formatted(gs, ds, tas, groupIds, semester)[i];
    if a in tas && a.discipline == e.title && a.kind == e.kind.Name() {
      FindAssignmentUnique(tas, a);
    }
  }

  // ------------------------------------------------------------ getTeacherPairs

  /** The assignments a teacher is linked to, in table order. */
  function Linked(tas: seq<TeacherAssignment>, teacherId: string): (r: seq<TeacherAssignment>)
    ensures forall a :: a in r <==> a in tas && teacherId in a.teachers
  {
    if |tas| == 0 then []
    else
      assert forall a :: a in tas <==> a == tas[0] || a in tas[1..];
      (if teacherId in tas[0].teachers then [tas[0]] else []) + Linked(tas[1..], teacherId)
  }

  /** `getTeacherPairs(teacherId)`: the NotFound raised for no assignment is rethrown by the catch as a plain error. */
  function TeacherPairs(tas: seq<TeacherAssignment>, teacherId: string): (r: Result<seq<TeacherAssignment>>)
    ensures r.Err? <==> forall a :: a in tas ==> teacherId !in a.teachers
    ensures r.Err? ==> r.error == PlainError
    ensures r.Ok? ==> forall a :: a in r.value <==> a in tas && teacherId in a.teachers
  {
    var linked := Linked(tas, teacherId);
    if |linked| == 0 then Err(PlainError)
    else
      assert linked[0] in linked;
      Ok(linked)
  }

  // ------------------------------------------------------------ assignTeachers

  /** One entry of the `assignTeachers` request. */
  datatype AssignmentDto = AssignmentDto(discipline: string, kind: string, teachers: seq<string>)

  predicate UniqueIds(tas: seq<TeacherAssignment>)
  {
    forall i, j :: 0 <= i < j < |tas| ==> tas[i].id != tas[j].id
  }

  predicate IdsBelow(tas: seq<TeacherAssignment>, next: nat)
  {
    forall a :: a in tas ==> a.id < next
  }

  /** The registry invariant: the unique (discipline, type) key, unique ids, and ids below the next one. */
  predicate RegistryValid(tas: seq<TeacherAssignment>, next: nat)
  {
    UniqueKeys(tas) && UniqueIds(tas) && IdsBelow(tas, next)
  }

  /** The position of the record with a key. */
  function IndexOfKey(tas: seq<TeacherAssignment>, discipline: string, kind: string): (r: Option<nat>)
    ensures r.None? <==> forall a :: a in tas ==> a.discipline != discipline || a.kind != kind
    ensures r.Some? ==> r.value < |tas| && tas[r.value].discipline == discipline && tas[r.value].kind == kind
  {
    if |tas| == 0 then None
    else if tas[0].discipline == discipline && tas[0].kind == kind then Some(0)
    else
      assert forall a :: a in tas <==> a == tas[0] || a in tas[1..];
      match IndexOfKey(tas[1..], discipline, kind)
      case None => None
      case Some(i) => Some(i + 1)
  }

  /** The registry after an upsert, with the next free id and the record returned. */
  datatype Upserted = Upserted(tas: seq<TeacherAssignment>, next: nat, record: TeacherAssignment)

  /** One `upsert`: the key's record gets exactly the given teachers (`set`), or a record is created (`connect`). */
  function Upsert(tas: seq<TeacherAssignment>, next: nat, d: AssignmentDto): (u: Upserted)
    ensures u.record.discipline == d.discipline && u.record.kind == d.kind && u.record.teachers == d.teachers
    ensures u.record in u.tas && u.next >= next
  {
    match IndexOfKey(tas, d.discipline, d.kind)
    case Some(i) =>
      var a := tas[i].(teachers := d.teachers);
      assert tas[i := a][i] == a;
      Upserted(tas[i := a], next, a)
    case None =>
      var a := TeacherAssignment(next, d.discipline, d.kind, d.teachers, None);
      Upserted(tas + [a], next + 1, a)
  }

  /** An upsert keeps the registry invariant. */
  lemma UpsertValid(tas: seq<TeacherAssignment>, next: nat, d: AssignmentDto)
    requires RegistryValid(tas, next)
    ensures RegistryValid(Upsert(tas, next, d).tas, Upsert(tas, next, d).next)
  {
    var u := Upsert(tas, next, d);
    match IndexOfKey(tas, d.discipline, d.kind)
    case Some(i) =>
      forall a | a in u.tas ensures a.id < u.next {
        var j :| 0 <= j < |u.tas| && u.tas[j] == a;
        assert tas[j] in tas;
      }
    case None =>
      forall i, j | 0 <= i < j < |u.tas| ensures u.tas[i].id != u.tas[j].id {
        if j == |tas| {
          assert tas[i] in tas;
        }
      }
  }

  /** After an upsert, the key's record is the returned one and every other key keeps its record. */
  lemma UpsertFind(tas: seq<TeacherAssignment>, next: nat, d: AssignmentDto, discipline: string, kind: string)
    requires RegistryValid(tas, next)
    ensures var u := Upsert(tas, next, d);
      FindAssignment(u.tas, discipline, kind) ==
        if discipline == d.discipline && kind == d.kind then Some(u.record) else FindAssignment(tas, discipline, kind)
  {
    var u := Upsert(tas, next, d);
    UpsertValid(tas, next, d);
    if discipline == d.discipline && kind == d.kind {
      FindAssignmentUnique(u.tas, u.record);
    } else {
      match FindAssignment(tas, discipline, kind)
      case Some(b) =>
        var j :| 0 <= j < |tas| && tas[j] == b;
        assert u.tas[j] == b;
        FindAssignmentUnique(u.tas, b);
      case None =>
        forall a | a in u.tas ensures a.discipline != discipline || a.kind != kind {
          var j :| 0 <= j < |u.tas| && u.tas[j] == a;
          if j < |tas| && a != u.record {
            assert tas[j] in tas;
          }
        }
    }
  }

  /** The registry after upserting `ds` in order, and the records returned. */
  datatype Assigned = Assigned(tas: seq<TeacherAssignment>, next: nat, results: seq<TeacherAssignment>)

  function UpsertAll(tas: seq<TeacherAssignment>, next: nat, ds: seq<AssignmentDto>): (r: Assigned)
    ensures |r.results| == |ds|
  {
    if |ds| == 0 then Assigned(tas, next, [])
    else
      var p := UpsertAll(tas, next, ds[..|ds| - 1]);
      var u := Upsert(p.tas, p.next, ds[|ds| - 1]);
      Assigned(u.tas, u.next, p.results + [u.record])
  }

  /** One more entry upserts on top of the earlier ones. */
  lemma UpsertAllStep(tas: seq<TeacherAssignment>, next: nat, ds: seq<AssignmentDto>, i: nat)
    requires i < |ds|
    ensures var p := UpsertAll(tas, next, ds[..i]);
      var u := Upsert(p.tas, p.next, ds[i]);
      UpsertAll(tas, next, ds[..i + 1]) == Assigned(u.tas, u.next, p.results + [u.record])
  {
    assert ds[..i + 1][..i] == ds[..i];
  }

  /** Upserting keeps the registry invariant. */
  lemma {:induction false} UpsertAllValid(tas: seq<TeacherAssignment>, next: nat, ds: seq<AssignmentDto>)
    requires RegistryValid(tas, next)
    ensures RegistryValid(UpsertAll(tas, next, ds).tas, UpsertAll(tas, next, ds).next)
  {
    if |ds| > 0 {
      UpsertAllValid(tas, next, ds[..|ds| - 1]);
      var p := UpsertAll(tas, next, ds[..|ds| - 1]);
      UpsertValid(p.tas, p.next, ds[|ds| - 1]);
    }
  }

  /** One record is returned per entry, in order, carrying that entry's key and exactly its teachers. */
  lemma {:induction false} UpsertAllResults(tas: seq<TeacherAssignment>, next: nat, ds: seq<AssignmentDto>)
    ensures var r := UpsertAll(tas, next, ds).results;
      forall i :: 0 <= i < |ds| ==>
        r[i].discipline == ds[i].discipline && r[i].kind == ds[i].kind && r[i].teachers == ds[i].teachers
  {
    if |ds| > 0 {
      var init := ds[..|ds| - 1];
      UpsertAllResults(tas, next, init);
      var r := UpsertAll(tas, next, ds).results;
      forall i | 0 <= i < |ds|
        ensures r[i].discipline == ds[i].discipline && r[i].kind == ds[i].kind && r[i].teachers == ds[i].teachers
      {
        if i < |init| {
          assert r[i] == UpsertAll(tas, next, init).results[i];
          assert init[i] == ds[i];
        }
      }
    }
  }

  /** The teachers of the last entry with a key, if any. */
  function LastTeachers(ds: seq<AssignmentDto>, discipline: string, kind: string): Option<seq<string>>
  {
    if |ds| == 0 then None
    else if ds[|ds| - 1].discipline == discipline && ds[|ds| - 1].kind == kind then Some(ds[|ds| - 1].teachers)
    else LastTeachers(ds[..|ds| - 1], discipline, kind)
  }

  /**
   * After the upserts, a key named in the request has exactly the teachers
   * of its last entry, and every other key keeps its record.
   */
  lemma {:induction false} UpsertAllLastWins(tas: seq<TeacherAssignment>, next: nat, ds: seq<AssignmentDto>,
                                             discipline: string, kind: string)
    requires RegistryValid(tas, next)
    ensures var f := FindAssignment(UpsertAll(tas, next, ds).tas, discipline, kind);
      match LastTeachers(ds, discipline, kind)
      case Some(ts) => f.Some? && f.value.teachers == ts
      case None => f == FindAssignment(tas, discipline, kind)
  {
    if |ds| > 0 {
      var init := ds[..|ds| - 1];
      UpsertAllLastWins(tas, next, init, discipline, kind);
      UpsertAllValid(tas, next, init);
      var p := UpsertAll(tas, next, init);
      UpsertFind(p.tas, p.next, ds[|ds| - 1], discipline, kind);
    }
  }

  /** Every teacher id of the entry exists; otherwise Prisma rejects the `set` or `connect`. */
  predicate Known(d: AssignmentDto, teacherIds: set<string>)
  {
    forall t :: t in d.teachers ==> t in teacherIds
  }

  /** The number of leading entries whose teachers all exist. */
  function KnownPrefix(ds: seq<AssignmentDto>, teacherIds: set<string>): (n: nat)
    ensures n <= |ds|
  {
    if |ds| == 0 || !Known(ds[0], teacherIds) then 0 else 1 + KnownPrefix(ds[1..], teacherIds)
  }

  /** The first `i` entries all name existing teachers. */
  predicate KnownUpTo(ds: seq<AssignmentDto>, teacherIds: set<string>, i: nat)
  {
    i <= |ds| && forall j :: 0 <= j < i ==> Known(ds[j], teacherIds)
  }

  lemma KnownUpToStep(ds: seq<AssignmentDto>, teacherIds: set<string>, i: nat)
    requires KnownUpTo(ds, teacherIds, i) && i < |ds| && Known(ds[i], teacherIds)
    ensures KnownUpTo(ds, teacherIds, i + 1)
  {
  }

  /** The loop stops at the first entry with an unknown teacher. */
  lemma {:induction false} KnownPrefixAt(ds: seq<AssignmentDto>, teacherIds: set<string>, i: nat)
    requires KnownUpTo(ds, teacherIds, i)
    requires i == |ds| || !Known(ds[i], teacherIds)
    ensures KnownPrefix(ds, teacherIds) == i
  {
    if i > 0 {
      assert Known(ds[0], teacherIds);
      KnownPrefixAt(ds[1..], teacherIds, i - 1);
    }
  }

  // ------------------------------------------------------------ sendSelectedDisciplines

  /** The ids of the found groups, in table order. */
  function GroupIds(gs: seq<Group>): (r: seq<string>)
    ensures |r| == |gs| && forall i :: 0 <= i < |gs| ==> r[i] == gs[i].id
  {
    seq(|gs|, i requires 0 <= i < |gs| => gs[i].id)
  }

  predicate UniqueRecordIds(gas: seq<GroupAssignment>)
  {
    forall i, j :: 0 <= i < j < |gas| ==> gas[i].id != gas[j].id
  }

  /** Every record named in the request has exactly the found groups; the others keep theirs. */
  function SetGroups(gas: seq<GroupAssignment>, recordIds: seq<nat>, groups: seq<string>): (r: seq<GroupAssignment>)
    ensures |r| == |gas|
    ensures forall i :: 0 <= i < |gas| ==>
      r[i].id == gas[i].id && r[i].discipline == gas[i].discipline && r[i].semester == gas[i].semester
    ensures forall i :: 0 <= i < |gas| ==> r[i].groups == if gas[i].id in recordIds then groups else gas[i].groups
  {
    seq(|gas|, i requires 0 <= i < |gas| => if gas[i].id in recordIds then gas[i].(groups := groups) else gas[i])
  }

  /** `disciplineGroupAssignment.findUnique({ where: { id } })` as a position. */
  function IndexOfRecord(gas: seq<GroupAssignment>, id: nat): (r: Option<nat>)
    ensures r.None? <==> forall i :: 0 <= i < |gas| ==> gas[i].id != id
    ensures r.Some? ==> r.value < |gas| && gas[r.value].id == id
  {
    if |gas| == 0 then None
    else if gas[0].id == id then Some(0)
    else
      match IndexOfRecord(gas[1..], id)
      case None =>
        assert forall i :: 1 <= i < |gas| ==> gas[i] == gas[1..][i - 1];
        None
      case Some(i) => Some(i + 1)
  }

  /** The updated records returned, one per requested id that exists, in request order. */
  function Updated(gas: seq<GroupAssignment>, recordIds: seq<nat>): seq<GroupAssignment>
  {
    if |recordIds| == 0 then []
    else
      var rest := Updated(gas, recordIds[..|recordIds| - 1]);
      match IndexOfRecord(gas, recordIds[|recordIds| - 1])
      case Some(i) => rest + [gas[i]]
      case None => rest
  }

  /** Every returned record is a requested one and has exactly the found groups. */
  lemma {:induction false} UpdatedSpec(gas: seq<GroupAssignment>, recordIds: seq<nat>, groups: seq<string>)
    ensures forall a :: a in Updated(SetGroups(gas, recordIds, groups), recordIds) ==>
      a.id in recordIds && a.groups == groups
  {
    var s := SetGroups(gas, recordIds, groups);
    UpdatedWithin(s, recordIds, recordIds);
    forall a | a in Updated(s, recordIds) ensures a.id in recordIds && a.groups == groups {
      var j :| 0 <= j < |s| && s[j] == a && s[j].id in recordIds;
    }
  }

  lemma {:induction false} UpdatedWithin(gas: seq<GroupAssignment>, ids: seq<nat>, all: seq<nat>)
    requires forall x :: x in ids ==> x in all
    ensures forall a :: a in Updated(gas, ids) ==> exists j :: 0 <= j < |gas| && gas[j] == a && gas[j].id in all
  {
    if |ids| > 0 {
      var init := ids[..|ids| - 1];
      assert forall x :: x in init ==> x in ids;
      UpdatedWithin(gas, init, all);
      assert ids[|ids| - 1] in ids;
    }
  }

  /** Records a later step does not touch keep the same lookups, so earlier results stay the same. */
  lemma {:induction false} UpdatedStable(g: seq<GroupAssignment>, h: seq<GroupAssignment>, ids: seq<nat>)
    requires |g| == |h| && forall x :: x in ids ==> IndexOfRecord(g, x) == IndexOfRecord(h, x)
    requires forall x :: x in ids && IndexOfRecord(g, x).Some? ==> g[IndexOfRecord(g, x).value] == h[IndexOfRecord(h, x).value]
    ensures Updated(g, ids) == Updated(h, ids)
  {
    if |ids| > 0 {
      var init := ids[..|ids| - 1];
      assert forall x :: x in init ==> x in ids;
      assert ids[|ids| - 1] in ids;
      UpdatedStable(g, h, init);
    }
  }

  /** A request that repeats a group id finds fewer groups than ids, because group ids are unique. */
  lemma DuplicateGroupIdsFail(gs: seq<Group>, groupIds: seq<string>, i: nat, j: nat)
    requires UniqueGroupIds(gs)
    requires i < j < |groupIds| && groupIds[i] == groupIds[j]
    ensures |FoundGroups(gs, groupIds)| < |groupIds|
  {
    var found := FoundGroups(gs, groupIds);
    FoundUnique(gs, groupIds);
    var ids := GroupIds(found);
    DistinctCard(ids);
    assert (set x | x in ids) <= (set x | x in groupIds) by {
      forall x | x in ids ensures x in groupIds {
        var k :| 0 <= k < |ids| && ids[k] == x;
        assert found[k] in found;
      }
    }
    DuplicateCard(groupIds, i, j);
    CardSubset(set x | x in ids, set x | x in groupIds);
  }

  predicate UniqueGroupIds(gs: seq<Group>)
  {
    forall a, b :: 0 <= a < b < |gs| ==> gs[a].id != gs[b].id
  }

  /** The found groups keep the table's unique ids. */
  lemma FoundUnique(gs: seq<Group>, groupIds: seq<string>)
    requires UniqueGroupIds(gs)
    ensures Unique(GroupIds(FoundGroups(gs, groupIds)))
  {
    FoundUniqueGroups(gs, groupIds);
    var found := FoundGroups(gs, groupIds);
    var ids := GroupIds(found);
    forall a, b | 0 <= a < b < |ids| ensures ids[a] != ids[b] {
      assert ids[a] == found[a].id && ids[b] == found[b].id;
    }
  }

  lemma {:induction false} FoundUniqueGroups(gs: seq<Group>, groupIds: seq<string>)
    requires UniqueGroupIds(gs)
    ensures UniqueGroupIds(FoundGroups(gs, groupIds))
  {
    if |gs| > 0 {
      var tail := gs[1..];
      assert UniqueGroupIds(tail);
      FoundUniqueGroups(tail, groupIds);
      var rest := FoundGroups(tail, groupIds);
      if gs[0].id in groupIds {
        TailApart(gs);
        ConsUnique(gs[0], rest);
      }
    }
  }

  lemma TailApart(gs: seq<Group>)
    requires UniqueGroupIds(gs) && |gs| > 0
    ensures forall g :: g in gs[1..] ==> g.id != gs[0].id
  {
    forall g | g in gs[1..] ensures g.id != gs[0].id {
      var m :| 0 <= m < |gs[1..]| && gs[1..][m] == g;
      assert gs[m + 1] == g;
    }
  }

  lemma ConsUnique(g0: Group, rest: seq<Group>)
    requires UniqueGroupIds(rest) && forall g :: g in rest ==> g.id != g0.id
    ensures UniqueGroupIds([g0] + rest)
  {
    var found := [g0] + rest;
    forall a, b | 0 <= a < b < |found| ensures found[a].id != found[b].id {
      if a == 0 {
        assert found[b] == rest[b - 1] && rest[b - 1] in rest;
      } else {
        assert found[a] == rest[a - 1] && found[b] == rest[b - 1];
      }
    }
  }

  lemma {:induction false} DistinctCard(xs: seq<string>)
    requires Unique(xs)
    ensures |set x | x in xs| == |xs|
  {
    if |xs| > 0 {
      var rest := xs[1..];
      DistinctCard(rest);
      assert (set x | x in xs) == {xs[0]} + (set x | x in rest);
      assert xs[0] !in (set x | x in rest);
    }
  }

  lemma {:induction false} CardAtMost(xs: seq<string>)
    ensures |set x | x in xs| <= |xs|
  {
    if |xs| > 0 {
      CardAtMost(xs[1..]);
      assert (set x | x in xs) == {xs[0]} + (set x | x in xs[1..]);
    }
  }

  lemma {:induction false} DuplicateCard(xs: seq<string>, i: nat, j: nat)
    requires i < j < |xs| && xs[i] == xs[j]
    ensures |set x | x in xs| < |xs|
  {
    var rest := xs[1..];
    assert (set x | x in xs) == {xs[0]} + (set x | x in rest);
    if i == 0 {
      assert xs[0] in rest by {
        assert rest[j - 1] == xs[j];
      }
      assert (set x | x in xs) == (set x | x in rest);
      CardAtMost(rest);
    } else {
      DuplicateCard(rest, i - 1, j - 1);
    }
  }

  lemma CardSubset(a: set<string>, b: set<string>)
    requires a <= b
    ensures |a| <= |b|
  {
    assert b == a + (b - a);
  }

  // ------------------------------------------------------------ savePreferences

  /**
   * One entry of `audienceTypes`. An entry without `audienceTypeId` sends an
   * update whose data Prisma drops, so it changes nothing.
   */
  datatype Preference = Preference(id: nat, audienceTypeId: Option<string>)

  /** The audience type of the last entry for an assignment id that gives one, if any. */
  function LastPreference(prefs: seq<Preference>, id: nat): Option<string>
  {
    if |prefs| == 0 then None
    else if prefs[|prefs| - 1].id == id && prefs[|prefs| - 1].audienceTypeId.Some? then prefs[|prefs| - 1].audienceTypeId
    else LastPreference(prefs[..|prefs| - 1], id)
  }

  /** Some assignment with the id is linked to the teacher: `findFirst` finds it. */
  predicate LinkedTo(tas: seq<TeacherAssignment>, id: nat, teacherId: string)
  {
    exists j :: 0 <= j < |tas| && tas[j].id == id && teacherId in tas[j].teachers
  }

  /**
   * The entry's `update` is refused by the database: it names an assignment
   * of the teacher and an audience type that does not exist.
   */
  predicate PreferenceRefused(tas: seq<TeacherAssignment>, teacherId: string, p: Preference, audienceTypeIds: set<string>)
  {
    LinkedTo(tas, p.id, teacherId) && p.audienceTypeId.Some? && p.audienceTypeId.value !in audienceTypeIds
  }

  /** How many leading entries the loop applies before an update is refused. */
  function AcceptedPrefix(tas: seq<TeacherAssignment>, teacherId: string, prefs: seq<Preference>, audienceTypeIds: set<string>): (n: nat)
    ensures n <= |prefs|
    ensures forall j :: 0 <= j < n ==> !PreferenceRefused(tas, teacherId, prefs[j], audienceTypeIds)
    ensures n < |prefs| ==> PreferenceRefused(tas, teacherId, prefs[n], audienceTypeIds)
  {
    if |prefs| == 0 || PreferenceRefused(tas, teacherId, prefs[0], audienceTypeIds) then 0
    else 1 + AcceptedPrefix(tas, teacherId, prefs[1..], audienceTypeIds)
  }

  /** A preference is applied to an assignment only when the teacher is linked to it; the last entry for it wins. */
  function ApplyPreferences(tas: seq<TeacherAssignment>, teacherId: string, prefs: seq<Preference>): (r: seq<TeacherAssignment>)
    ensures |r| == |tas|
  {
    seq(|tas|, i requires 0 <= i < |tas| =>
      if teacherId in tas[i].teachers && LastPreference(prefs, tas[i].id).Some?
      then tas[i].(audienceTypeId := LastPreference(prefs, tas[i].id))
      else tas[i])
  }

  /** The last entry for an id is the one whose value is applied: no later entry names the same id. */
  lemma {:induction false} LastPreferenceSpec(prefs: seq<Preference>, id: nat)
    ensures LastPreference(prefs, id).None? <==> forall k :: 0 <= k < |prefs| ==> !Sets(prefs[k], id)
    ensures LastPreference(prefs, id).Some? ==>
      exists k :: (0 <= k < |prefs| && prefs[k] == Preference(id, LastPreference(prefs, id))
        && forall m :: k < m < |prefs| ==> !Sets(prefs[m], id))
  {
    if |prefs| > 0 {
      var init := prefs[..|prefs| - 1];
      LastPreferenceSpec(init, id);
      if !Sets(prefs[|prefs| - 1], id) {
        assert forall k :: 0 <= k < |init| ==> init[k] == prefs[k];
        if LastPreference(init, id).Some? {
          var k :| 0 <= k < |init| && init[k] == Preference(id, LastPreference(init, id))
            && forall m :: k < m < |init| ==> !Sets(init[m], id);
          assert prefs[k] == init[k];
        }
      }
    }
  }

  /** The entry gives an audience type for the assignment id. */
  predicate Sets(p: Preference, id: nat)
  {
    p.id == id && p.audienceTypeId.Some?
  }

  /**
   * `savePreferences` changes only the audience type, only of assignments the
   * teacher is linked to and a preference names; the others are unchanged.
   */
  lemma ApplyPreferencesSpec(tas: seq<TeacherAssignment>, teacherId: string, prefs: seq<Preference>, i: nat)
    requires i < |tas|
    ensures var a := ApplyPreferences(tas, teacherId, prefs)[i];
      a.(audienceTypeId := tas[i].audienceTypeId) == tas[i]
      && (teacherId !in tas[i].teachers || (forall k :: 0 <= k < |prefs| ==> !Sets(prefs[k], tas[i].id)) ==> a == tas[i])
      && (teacherId in tas[i].teachers && (exists k :: 0 <= k < |prefs| && Sets(prefs[k], tas[i].id)) ==>
            a.audienceTypeId.Some?
            && exists k :: (0 <= k < |prefs| && prefs[k] == Preference(tas[i].id, a.audienceTypeId)
                 && forall m :: k < m < |prefs| ==> !Sets(prefs[m], tas[i].id)))
  {
    LastPreferenceSpec(prefs, tas[i].id);
  }

  // ------------------------------------------------------------ loop steps

  /** Records with the same ids give the same lookups. */
  lemma {:induction false} IndexOfRecordSameIds(g: seq<GroupAssignment>, h: seq<GroupAssignment>, x: nat)
    requires |g| == |h| && forall j :: 0 <= j < |g| ==> g[j].id == h[j].id
    ensures IndexOfRecord(g, x) == IndexOfRecord(h, x)
  {
    if |g| > 0 && g[0].id != x {
      IndexOfRecordSameIds(g[1..], h[1..], x);
    }
  }

  /** One iteration of the `sendSelectedDisciplines` loop on the closed form: the state. */
  lemma SendStepState(g0: seq<GroupAssignment>, recordIds: seq<nat>, ids: seq<string>, i: nat)
    requires UniqueRecordIds(g0) && i < |recordIds|
    ensures var cur := SetGroups(g0, recordIds[..i], ids);
      var nxt := SetGroups(g0, recordIds[..i + 1], ids);
      match IndexOfRecord(cur, recordIds[i])
      case Some(k) => nxt == cur[k := cur[k].(groups := ids)]
      case None => nxt == cur
  {
    var x := recordIds[i];
    var before := recordIds[..i];
    var after := recordIds[..i + 1];
    assert after[..i] == before && after[i] == x;
    assert forall y :: y in after <==> y in before || y == x;
    var cur := SetGroups(g0, before, ids);
    var nxt := SetGroups(g0, after, ids);
    IndexOfRecordSameIds(cur, g0, x);
    match IndexOfRecord(cur, x)
    case Some(k) =>
      forall j | 0 <= j < |g0| ensures nxt[j] == cur[k := cur[k].(groups := ids)][j] {
        if j == k {
          assert g0[j].id == x;
        } else if g0[j].id == x {
          assert false;
        }
      }
    case None =>
      forall j | 0 <= j < |g0| ensures nxt[j] == cur[j] {
        assert g0[j].id != x;
      }
  }

  /** One iteration of the `sendSelectedDisciplines` loop on the closed form: the records returned. */
  lemma SendStepUpdated(g0: seq<GroupAssignment>, recordIds: seq<nat>, ids: seq<string>, i: nat)
    requires i < |recordIds|
    ensures var cur := SetGroups(g0, recordIds[..i], ids);
      var nxt := SetGroups(g0, recordIds[..i + 1], ids);
      var idx := IndexOfRecord(cur, recordIds[i]);
      Updated(nxt, recordIds[..i + 1]) == Updated(cur, recordIds[..i]) + (if idx.Some? then [nxt[idx.value]] else [])
  {
    var x := recordIds[i];
    var before := recordIds[..i];
    var after := recordIds[..i + 1];
    assert after[..i] == before && after[i] == x;
    var cur := SetGroups(g0, before, ids);
    var nxt := SetGroups(g0, after, ids);
    IndexOfRecordSameIds(cur, nxt, x);
    forall y | y in before ensures IndexOfRecord(nxt, y) == IndexOfRecord(cur, y) {
      IndexOfRecordSameIds(cur, nxt, y);
    }
    forall y | y in before && IndexOfRecord(nxt, y).Some?
      ensures nxt[IndexOfRecord(nxt, y).value] == cur[IndexOfRecord(cur, y).value]
    {
      assert y in after;
    }
    UpdatedStable(nxt, cur, before);
  }

  /** The first assignment with an id that the teacher is linked to. */
  function IndexOfLinked(tas: seq<TeacherAssignment>, id: nat, teacherId: string): (r: Option<nat>)
    ensures r.None? <==> forall j :: 0 <= j < |tas| ==> tas[j].id != id || teacherId !in tas[j].teachers
    ensures r.Some? ==> r.value < |tas| && tas[r.value].id == id && teacherId in tas[r.value].teachers
  {
    if |tas| == 0 then None
    else if tas[0].id == id && teacherId in tas[0].teachers then Some(0)
    else
      match IndexOfLinked(tas[1..], id, teacherId)
      case None =>
        assert forall j :: 1 <= j < |tas| ==> tas[j] == tas[1..][j - 1];
        None
      case Some(k) => Some(k + 1)
  }

  /** Applying preferences keeps the registry invariant. */
  lemma ApplyPreferencesValid(tas: seq<TeacherAssignment>, next: nat, teacherId: string, prefs: seq<Preference>)
    requires RegistryValid(tas, next)
    ensures RegistryValid(ApplyPreferences(tas, teacherId, prefs), next)
  {
    var r := ApplyPreferences(tas, teacherId, prefs);
    forall a | a in r ensures a.id < next {
      var j :| 0 <= j < |r| && r[j] == a;
      assert tas[j] in tas;
    }
  }

  /** One iteration of the `savePreferences` loop on the closed form. */
  lemma PreferenceStep(tas0: seq<TeacherAssignment>, teacherId: string, prefs: seq<Preference>, i: nat)
    requires UniqueIds(tas0) && i < |prefs|
    ensures var cur := ApplyPreferences(tas0, teacherId, prefs[..i]);
      var nxt := ApplyPreferences(tas0, teacherId, prefs[..i + 1]);
      match IndexOfLinked(cur, prefs[i].id, teacherId)
      case Some(k) => nxt == (if prefs[i].audienceTypeId.Some? then cur[k := cur[k].(audienceTypeId := prefs[i].audienceTypeId)] else cur)
      case None => nxt == cur
  {
    var p := prefs[i];
    var before := prefs[..i];
    var after := prefs[..i + 1];
    assert after[..i] == before && after[i] == p;
    var cur := ApplyPreferences(tas0, teacherId, before);
    var nxt := ApplyPreferences(tas0, teacherId, after);
    assert forall x :: LastPreference(after, x) == if Sets(p, x) then p.audienceTypeId else LastPreference(before, x);
    match IndexOfLinked(cur, p.id, teacherId)
    case Some(k) =>
      if p.audienceTypeId.Some? {
        forall j | 0 <= j < |tas0| ensures nxt[j] == cur[k := cur[k].(audienceTypeId := p.audienceTypeId)][j] {
          if j != k && tas0[j].id == p.id {
            assert false;
          }
        }
      } else {
        forall j | 0 <= j < |tas0| ensures nxt[j] == cur[j] {
        }
      }
    case None =>
      forall j | 0 <= j < |tas0| ensures nxt[j] == cur[j] {
        assert cur[j].id == tas0[j].id && cur[j].teachers == tas0[j].teachers;
      }
  }

  /**
   * The loop looks the entry up in the table as updated so far; since the
   * updates change audience types only, that lookup decides refusal exactly
   * as the table before the loop would.
   */
  lemma LookupDecidesRefusal(tas0: seq<TeacherAssignment>, teacherId: string, prefs: seq<Preference>, i: nat,
                             audienceTypeIds: set<string>)
    requires i < |prefs|
    ensures var p := prefs[i];
      PreferenceRefused(tas0, teacherId, p, audienceTypeIds)
      <==> IndexOfLinked(ApplyPreferences(tas0, teacherId, prefs[..i]), p.id, teacherId).Some?
           && p.audienceTypeId.Some? && p.audienceTypeId.value !in audienceTypeIds
  {
    var cur := ApplyPreferences(tas0, teacherId, prefs[..i]);
    var p := prefs[i];
    assert forall j :: 0 <= j < |tas0| ==> cur[j].id == tas0[j].id && cur[j].teachers == tas0[j].teachers;
    if LinkedTo(tas0, p.id, teacherId) {
      var j :| 0 <= j < |tas0| && tas0[j].id == p.id && teacherId in tas0[j].teachers;
      assert cur[j].id == p.id && teacherId in cur[j].teachers;
    }
  }

  // ------------------------------------------------------------ the tables

  /** The tables the discipline service reads and updates. */
  class Registry {
    var groups: seq<Group>
    var disciplines: seq<StudyDiscipline>
    var groupAssignments: seq<GroupAssignment>
    var teacherAssignments: seq<TeacherAssignment>
    var teacherIds: set<string>
    /** The ids of the audience-type table, which `audienceTypeId` refers to. */
    var audienceTypeIds: set<string>
    var textWishes: map<string, string>
    var nextId: nat

    ghost predicate Valid()
      reads this
    {
      RegistryValid(teacherAssignments, nextId) && UniqueRecordIds(groupAssignments)
    }

    constructor (groups: seq<Group>, disciplines: seq<StudyDiscipline>, groupAssignments: seq<GroupAssignment>,
                 teacherIds: set<string>, audienceTypeIds: set<string>)
      requires UniqueRecordIds(groupAssignments)
      ensures Valid()
      ensures this.groups == groups && this.disciplines == disciplines
      ensures this.groupAssignments == groupAssignments && this.teacherIds == teacherIds
      ensures this.audienceTypeIds == audienceTypeIds
      ensures teacherAssignments == [] && textWishes == map[] && nextId == 0
    {
      this.groups := groups;
      this.disciplines := disciplines;
      this.groupAssignments := groupAssignments;
      this.teacherIds := teacherIds;
      this.audienceTypeIds := audienceTypeIds;
      teacherAssignments := [];
      textWishes := map[];
      nextId := 0;
    }

    /**
     * `assignTeachers(assignments)`: the entries are upserted in order; an
     * entry naming a teacher that does not exist ends the loop with the
     * earlier upserts kept.
     */
    method AssignTeachers(ds: seq<AssignmentDto>) returns (r: Result<seq<TeacherAssignment>>)
      requires Valid()
      modifies this
      ensures Valid()
      ensures var n := KnownPrefix(ds, teacherIds);
        var p := UpsertAll(old(teacherAssignments), old(nextId), ds[..n]);
        teacherAssignments == p.tas && nextId == p.next && r == (if n == |ds| then Ok(p.results) else Err(Crash))
      ensures groups == old(groups) && disciplines == old(disciplines) && groupAssignments == old(groupAssignments)
      ensures teacherIds == old(teacherIds) && audienceTypeIds == old(audienceTypeIds) && textWishes == old(textWishes)
    {
      var results := [];
      for i := 0 to |ds|
        invariant UpsertAll(old(teacherAssignments), old(nextId), ds[..i]) == Assigned(teacherAssignments, nextId, results)
        invariant KnownUpTo(ds, teacherIds, i)
        invariant RegistryValid(teacherAssignments, nextId)
        invariant groups == old(groups) && disciplines == old(disciplines) && groupAssignments == old(groupAssignments)
        invariant teacherIds == old(teacherIds) && audienceTypeIds == old(audienceTypeIds) && textWishes == old(textWishes)
      {
        if !Known(ds[i], teacherIds) {
          KnownPrefixAt(ds, teacherIds, i);
          return Err(Crash);
        }
        KnownUpToStep(ds, teacherIds, i);
        UpsertAllStep(old(teacherAssignments), old(nextId), ds, i);
        UpsertValid(teacherAssignments, nextId, ds[i]);
        var u := Upsert(teacherAssignments, nextId, ds[i]);
        teacherAssignments, nextId := u.tas, u.next;
        results := results + [u.record];
      }
      assert ds[..|ds|] == ds;
      KnownPrefixAt(ds, teacherIds, |ds|);
      r := Ok(results);
    }

    /**
     * `sendSelectedDisciplines(ids, semester, groupIds)`: every existing
     * record named gets exactly the found groups; unknown record ids are
     * skipped. The semester argument is not used.
     */
    method SendSelectedDisciplines(recordIds: seq<nat>, semester: int, groupIds: seq<string>)
      returns (r: Result<seq<GroupAssignment>>)
      requires Valid()
      modifies this
      ensures Valid()
      ensures |recordIds| < 1 || |groupIds| < 1 ==> r == Err(PlainError) && groupAssignments == old(groupAssignments)
      ensures |recordIds| >= 1 && |groupIds| >= 1 && |FoundGroups(groups, groupIds)| != |groupIds| ==>
        r == Err(NotFound) && groupAssignments == old(groupAssignments)
      ensures |recordIds| >= 1 && |groupIds| >= 1 && |FoundGroups(groups, groupIds)| == |groupIds| ==>
        groupAssignments == SetGroups(old(groupAssignments), recordIds, GroupIds(FoundGroups(groups, groupIds)))
        && r == Ok(Updated(groupAssignments, recordIds))
      ensures groups == old(groups) && disciplines == old(disciplines) && teacherAssignments == old(teacherAssignments)
      ensures teacherIds == old(teacherIds) && audienceTypeIds == old(audienceTypeIds) && textWishes == old(textWishes) && nextId == old(nextId)
    {
      if |recordIds| < 1 || |groupIds| < 1 {
        return Err(PlainError);
      }
      var found := FoundGroups(groups, groupIds);
      if |found| != |groupIds| {
        return Err(NotFound);
      }
      var ids := GroupIds(found);
      var results := [];
      assert SetGroups(old(groupAssignments), recordIds[..0], ids) == groupAssignments;
      for i := 0 to |recordIds|
        invariant groupAssignments == SetGroups(old(groupAssignments), recordIds[..i], ids)
        invariant results == Updated(groupAssignments, recordIds[..i])
        invariant groups == old(groups) && disciplines == old(disciplines) && teacherAssignments == old(teacherAssignments)
        invariant teacherIds == old(teacherIds) && audienceTypeIds == old(audienceTypeIds) && textWishes == old(textWishes) && nextId == old(nextId)
      {
        SendStepState(old(groupAssignments), recordIds, ids, i);
        SendStepUpdated(old(groupAssignments), recordIds, ids, i);
        var idx := IndexOfRecord(groupAssignments, recordIds[i]);
        if idx.Some? {
          groupAssignments := groupAssignments[idx.value := groupAssignments[idx.value].(groups := ids)];
          results := results + [groupAssignments[idx.value]];
        }
      }
      assert recordIds[..|recordIds|] == recordIds;
      r := Ok(results);
    }

    /**
     * `savePreferences(teacherId, { audienceTypes, wishText })`: the audience
     * types are set one entry at a time, then the teacher's text wish is
     * upserted. An update naming an audience type that does not exist is
     * refused by the database; the catch reports NotFound, the audience types
     * already set stay set and the text wish is not written. Creating the
     * wish of a teacher that does not exist fails the same way.
     */
    method SavePreferences(teacherId: string, prefs: seq<Preference>, wishText: string) returns (r: Result<()>)
      requires Valid()
      modifies this
      ensures Valid()
      ensures var n := AcceptedPrefix(old(teacherAssignments), teacherId, prefs, audienceTypeIds);
        teacherAssignments == ApplyPreferences(old(teacherAssignments), teacherId, prefs[..n])
      ensures r.Ok? <==> AcceptedPrefix(old(teacherAssignments), teacherId, prefs, audienceTypeIds) == |prefs|
                         && (teacherId in old(textWishes) || teacherId in teacherIds)
      ensures r.Ok? ==> textWishes == old(textWishes)[teacherId := wishText]
      ensures r.Err? ==> r.error == NotFound && textWishes == old(textWishes)
      ensures groups == old(groups) && disciplines == old(disciplines) && groupAssignments == old(groupAssignments)
      ensures teacherIds == old(teacherIds) && audienceTypeIds == old(audienceTypeIds) && nextId == old(nextId)
    {
      var n := AcceptedPrefix(old(teacherAssignments), teacherId, prefs, audienceTypeIds);
      assert ApplyPreferences(old(teacherAssignments), teacherId, prefs[..0]) == teacherAssignments;
      for i := 0 to |prefs|
        invariant i <= n
        invariant teacherAssignments == ApplyPreferences(old(teacherAssignments), teacherId, prefs[..i])
        invariant groups == old(groups) && disciplines == old(disciplines) && groupAssignments == old(groupAssignments)
        invariant teacherIds == old(teacherIds) && audienceTypeIds == old(audienceTypeIds)
        invariant nextId == old(nextId) && textWishes == old(textWishes)
      {
        PreferenceStep(old(teacherAssignments), teacherId, prefs, i);
        LookupDecidesRefusal(old(teacherAssignments), teacherId, prefs, i, audienceTypeIds);
        var idx := IndexOfLinked(teacherAssignments, prefs[i].id, teacherId);
        if idx.Some? {
          var a := teacherAssignments[idx.value];
          if prefs[i].audienceTypeId.Some? && prefs[i].audienceTypeId.value !in audienceTypeIds {
            assert i == n;
            ApplyPreferencesValid(old(teacherAssignments), nextId, teacherId, prefs[..i]);
            return Err(NotFound);
          }
          if prefs[i].audienceTypeId.Some? {
            teacherAssignments := teacherAssignments[idx.value := a.(audienceTypeId := prefs[i].audienceTypeId)];
          }
        }
      }
      assert prefs[..|prefs|] == prefs;
      assert n == |prefs|;
      ApplyPreferencesValid(old(teacherAssignments), nextId, teacherId, prefs);
      if teacherId in textWishes || teacherId in teacherIds {
        textWishes := textWishes[teacherId := wishText];
        r := Ok(());
      } else {
        r := Err(NotFound);
      }
    }
  }
}
