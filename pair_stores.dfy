/**
 * The two client stores of the timetable constructor: the selected-pair
 * store (the disciplines still to be placed, with their remaining pair
 * counters, and the discipline currently selected) and the pair-groups
 * store (groups of pairs with remaining and online-used counters, and the
 * selected group). Each store action replaces a store field; the counter
 * updates are a map over the list that touches the entries with the given
 * id.
 */
module PairStores {
  import opened Common

  // ---------------------------------------------------------------- selected-pair store

  /** One discipline entry: all pairs of one lesson type, and how many of them may be held online. */
  datatype DisciplineEntry = DisciplineEntry(id: string, disciplineName: string, kind: string,
                                             totalPairs: int, onlinePossible: int)

  /** `decrementPair` on one entry: only an entry with the id and pairs left changes. */
  function DecrementEntry(d: DisciplineEntry, id: string, isOnline: bool): (r: DisciplineEntry)
    ensures r.id == d.id && r.disciplineName == d.disciplineName && r.kind == d.kind
    ensures d.id != id || d.totalPairs <= 0 ==> r == d
    ensures d.id == id && d.totalPairs > 0 ==>
      r.totalPairs == d.totalPairs - 1
      && r.onlinePossible == (if isOnline && d.onlinePossible > 0 then d.onlinePossible - 1 else d.onlinePossible)
  {
    if d.id == id && d.totalPairs > 0 then
      d.(totalPairs := d.totalPairs - 1,
         onlinePossible := if isOnline && d.onlinePossible > 0 then d.onlinePossible - 1 else d.onlinePossible)
    else d
  }

  /** `incrementPair` on one entry: every entry with the id gets one more pair, and one more online pair when `isOnline`. */
  function IncrementEntry(d: DisciplineEntry, id: string, isOnline: bool): (r: DisciplineEntry)
    ensures r.id == d.id && r.disciplineName == d.disciplineName && r.kind == d.kind
    ensures d.id != id ==> r == d
    ensures d.id == id ==>
      r.totalPairs == d.totalPairs + 1
      && r.onlinePossible == (if isOnline then d.onlinePossible + 1 else d.onlinePossible)
  {
    if d.id == id then
      d.(totalPairs := d.totalPairs + 1,
         onlinePossible := if isOnline then d.onlinePossible + 1 else d.onlinePossible)
    else d
  }

  function DecrementAll(ds: seq<DisciplineEntry>, id: string, isOnline: bool): (r: seq<DisciplineEntry>)
    ensures |r| == |ds|
    ensures forall k :: 0 <= k < |ds| ==> r[k] == DecrementEntry(ds[k], id, isOnline)
  {
    seq(|ds|, k requires 0 <= k < |ds| => DecrementEntry(ds[k], id, isOnline))
  }

  function IncrementAll(ds: seq<DisciplineEntry>, id: string, isOnline: bool): (r: seq<DisciplineEntry>)
    ensures |r| == |ds|
    ensures forall k :: 0 <= k < |ds| ==> r[k] == IncrementEntry(ds[k], id, isOnline)
  {
    seq(|ds|, k requires 0 <= k < |ds| => IncrementEntry(ds[k], id, isOnline))
  }

  predicate CountersNonNegative(ds: seq<DisciplineEntry>)
  {
    forall k :: 0 <= k < |ds| ==> ds[k].totalPairs >= 0 && ds[k].onlinePossible >= 0
  }

  /** Counters that start non-negative stay non-negative under `decrementPair`. */
  lemma DecrementKeepsNonNegative(ds: seq<DisciplineEntry>, id: string, isOnline: bool)
    requires CountersNonNegative(ds)
    ensures CountersNonNegative(DecrementAll(ds, id, isOnline))
  {
    var r := DecrementAll(ds, id, isOnline);
    forall k | 0 <= k < |r| ensures r[k].totalPairs >= 0 && r[k].onlinePossible >= 0 {
      assert r[k] == DecrementEntry(ds[k], id, isOnline);
    }
  }

  /**
   * `incrementPair(id, f)` undoes `decrementPair(id, f)` when every entry
   * with the id had a pair left and, for an online pair, an online pair left.
   */
  lemma IncrementUndoesDecrement(ds: seq<DisciplineEntry>, id: string, isOnline: bool)
    requires forall k :: 0 <= k < |ds| && ds[k].id == id ==>
      ds[k].totalPairs > 0 && (!isOnline || ds[k].onlinePossible > 0)
    ensures IncrementAll(DecrementAll(ds, id, isOnline), id, isOnline) == ds
  {
    var r := IncrementAll(DecrementAll(ds, id, isOnline), id, isOnline);
    forall k | 0 <= k < |ds| ensures r[k] == ds[k] {
      var d := DecrementEntry(ds[k], id, isOnline);
      assert r[k] == IncrementEntry(d, id, isOnline);
    }
  }

  /** The undo needs its precondition: an entry with no online pair left loses a pair and gets an online pair back. */
  lemma IncrementAfterExhaustedOnline()
    ensures var d := DisciplineEntry("lecture-1", "Физика", "Лекция", 3, 0);
      IncrementAll(DecrementAll([d], "lecture-1", true), "lecture-1", true)
        == [DisciplineEntry("lecture-1", "Физика", "Лекция", 3, 1)]
  {
    var d := DisciplineEntry("lecture-1", "Физика", "Лекция", 3, 0);
    assert DecrementEntry(d, "lecture-1", true) == d.(totalPairs := 2);
  }

  /** `toggleDiscipline`: the item is selected unless it (by id) already is, in which case the selection is cleared. */
  function Toggle(current: Option<DisciplineEntry>, item: DisciplineEntry): (r: Option<DisciplineEntry>)
    ensures current.Some? && current.value.id == item.id ==> r.None?
    ensures !(current.Some? && current.value.id == item.id) ==> r == Some(item)
  {
    if current.Some? && current.value.id == item.id then None else Some(item)
  }

  /** From no selection two toggles of the same item select nothing; a toggle that selects an item is cleared by the next toggle of that item. */
  lemma ToggleTwice(current: Option<DisciplineEntry>, item: DisciplineEntry)
    ensures current.None? ==> Toggle(Toggle(current, item), item).None?
    ensures Toggle(current, item).Some? <==> Toggle(Toggle(current, item), item).None?
  {
  }

  class SelectedPairStore {
    var disciplines: seq<DisciplineEntry>
    var selectedDiscipline: Option<DisciplineEntry>

    constructor ()
      ensures disciplines == [] && selectedDiscipline.None?
    {
      disciplines := [];
      selectedDiscipline := None;
    }

    method SetDisciplines(items: seq<DisciplineEntry>)
      modifies this
      ensures disciplines == items && selectedDiscipline == old(selectedDiscipline)
    {
      disciplines := items;
    }

    method ToggleDiscipline(item: DisciplineEntry)
      modifies this
      ensures selectedDiscipline == Toggle(old(selectedDiscipline), item)
      ensures disciplines == old(disciplines)
    {
      var current := selectedDiscipline;
      if current.Some? && current.value.id == item.id {
        selectedDiscipline := None;
      } else {
        selectedDiscipline := Some(item);
      }
    }

    /** The selection is a snapshot: the counter actions do not refresh it. */
    method DecrementPair(id: string, isOnline: bool)
      modifies this
      ensures disciplines == DecrementAll(old(disciplines), id, isOnline)
      ensures selectedDiscipline == old(selectedDiscipline)
    {
      disciplines := DecrementAll(disciplines, id, isOnline);
    }

    method IncrementPair(id: string, isOnline: bool)
      modifies this
      ensures disciplines == IncrementAll(old(disciplines), id, isOnline)
      ensures selectedDiscipline == old(selectedDiscipline)
    {
      disciplines := IncrementAll(disciplines, id, isOnline);
    }

    method ClearSelectedDiscipline()
      modifies this
      ensures selectedDiscipline.None? && disciplines == old(disciplines)
    {
      selectedDiscipline := None;
    }
  }

  // ---------------------------------------------------------------- pair-groups store

  datatype Mode = Offline | Online

  datatype PairGroup = PairGroup(id: string, disciplineName: string, kind: string,
                                 total: int, remaining: int, canBeOnline: int, onlineUsed: int)

  /** `usePair` on one group: a group of that id with pairs remaining gives one up, counting it as online in online mode. */
  function UseGroup(g: PairGroup, id: string, mode: Mode): (r: PairGroup)
    ensures r.id == g.id && r.total == g.total && r.canBeOnline == g.canBeOnline
    ensures r.disciplineName == g.disciplineName && r.kind == g.kind
    ensures g.id != id || g.remaining <= 0 ==> r == g
    ensures g.id == id && g.remaining > 0 ==>
      r.remaining == g.remaining - 1
      && r.onlineUsed == (if mode == Online then g.onlineUsed + 1 else g.onlineUsed)
  {
    if g.id != id then g
    else if g.remaining <= 0 then g
    else g.(remaining := g.remaining - 1, onlineUsed := if mode == Online then g.onlineUsed + 1 else g.onlineUsed)
  }

  /** `releasePair` on one group: no bounds check at all. */
  function ReleaseGroup(g: PairGroup, id: string, mode: Mode): (r: PairGroup)
    ensures r.id == g.id && r.total == g.total && r.canBeOnline == g.canBeOnline
    ensures r.disciplineName == g.disciplineName && r.kind == g.kind
    ensures g.id != id ==> r == g
    ensures g.id == id ==>
      r.remaining == g.remaining + 1
      && r.onlineUsed == (if mode == Online then g.onlineUsed - 1 else g.onlineUsed)
  {
    if g.id != id then g
    else g.(remaining := g.remaining + 1, onlineUsed := if mode == Online then g.onlineUsed - 1 else g.onlineUsed)
  }

  function UseAll(gs: seq<PairGroup>, id: string, mode: Mode): (r: seq<PairGroup>)
    ensures |r| == |gs| && forall k :: 0 <= k < |gs| ==> r[k] == UseGroup(gs[k], id, mode)
  {
    seq(|gs|, k requires 0 <= k < |gs| => UseGroup(gs[k], id, mode))
  }

  function ReleaseAll(gs: seq<PairGroup>, id: string, mode: Mode): (r: seq<PairGroup>)
    ensures |r| == |gs| && forall k :: 0 <= k < |gs| ==> r[k] == ReleaseGroup(gs[k], id, mode)
  {
    seq(|gs|, k requires 0 <= k < |gs| => ReleaseGroup(gs[k], id, mode))
  }

  predicate RemainingNonNegative(gs: seq<PairGroup>)
  {
    forall k :: 0 <= k < |gs| ==> gs[k].remaining >= 0
  }

  /** Both actions keep every group's remaining count non-negative. */
  lemma CountersStayNonNegative(gs: seq<PairGroup>, id: string, mode: Mode)
    requires RemainingNonNegative(gs)
    ensures RemainingNonNegative(UseAll(gs, id, mode)) && RemainingNonNegative(ReleaseAll(gs, id, mode))
  {
    var u, r := UseAll(gs, id, mode), ReleaseAll(gs, id, mode);
    forall k | 0 <= k < |gs| ensures u[k].remaining >= 0 && r[k].remaining >= 0 {
      assert u[k] == UseGroup(gs[k], id, mode);
      assert r[k] == ReleaseGroup(gs[k], id, mode);
    }
  }

  /** Releasing after a use that changed the groups restores them. */
  lemma ReleaseUndoesUse(gs: seq<PairGroup>, id: string, mode: Mode)
    requires forall k :: 0 <= k < |gs| && gs[k].id == id ==> gs[k].remaining > 0
    ensures ReleaseAll(UseAll(gs, id, mode), id, mode) == gs
  {
    var r := ReleaseAll(UseAll(gs, id, mode), id, mode);
    forall k | 0 <= k < |gs| ensures r[k] == gs[k] {
      assert r[k] == ReleaseGroup(UseGroup(gs[k], id, mode), id, mode);
    }
  }

  /** With no bounds check, releasing can push the online count below zero and the remaining count above the total. */
  lemma ReleaseUnbounded()
    ensures var g := PairGroup("g", "Физика", "Практика", 2, 2, 1, 0);
      var r := ReleaseAll([g], "g", Online)[0];
      r.onlineUsed == -1 && r.remaining > r.total
  {
    var g := PairGroup("g", "Физика", "Практика", 2, 2, 1, 0);
    assert ReleaseAll([g], "g", Online)[0] == ReleaseGroup(g, "g", Online);
  }

  /** `selectGroup`: the id, or no selection when it already is the id. */
  function SelectGroupId(current: Option<string>, id: string): (r: Option<string>)
    ensures current == Some(id) <==> r.None?
    ensures r.Some? ==> r.value == id
  {
    if current == Some(id) then None else Some(id)
  }

  class PairGroupsStore {
    var groups: seq<PairGroup>
    var selectedGroupId: Option<string>

    constructor ()
      ensures groups == [] && selectedGroupId.None?
    {
      groups := [];
      selectedGroupId := None;
    }

    method SetGroups(gs: seq<PairGroup>)
      modifies this
      ensures groups == gs && selectedGroupId == old(selectedGroupId)
    {
      groups := gs;
    }

    method SelectGroup(id: string)
      modifies this
      ensures selectedGroupId == SelectGroupId(old(selectedGroupId), id) && groups == old(groups)
    {
      selectedGroupId := if selectedGroupId == Some(id) then None else Some(id);
    }

    method ClearSelection()
      modifies this
      ensures selectedGroupId.None? && groups == old(groups)
    {
      selectedGroupId := None;
    }

    method UsePair(id: string, mode: Mode)
      modifies this
      ensures groups == UseAll(old(groups), id, mode) && selectedGroupId == old(selectedGroupId)
    {
      groups := UseAll(groups, id, mode);
    }

    method ReleasePair(id: string, mode: Mode)
      modifies this
      ensures groups == ReleaseAll(old(groups), id, mode) && selectedGroupId == old(selectedGroupId)
    {
      groups := ReleaseAll(groups, id, mode);
    }
  }
}
