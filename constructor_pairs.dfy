/**
 * How the timetable constructor turns a study plan's disciplines into the
 * list of lessons still to place, in its two versions: the current page,
 * which makes one entry per lesson type with a pair counter, and the older
 * page, which makes one numbered entry per pair. Also the grouping of all
 * teachers' wishes by teacher.
 *
 * Hours are whole numbers; an hour field may be `null`. The ids that
 * `uuidv4()` draws are a parameter.
 */
module ConstructorPairs {
  import opened Common
  import opened JsObject
  import opened PairStores

  // ------------------------------------------------------------ hours to pairs

  /** `Math.ceil`. */
  function Ceil(x: real): (c: int)
    ensures c == x.Floor || c == x.Floor + 1
  {
    if x == x.Floor as real then x.Floor else x.Floor + 1
  }

  const HoursPerPair := 17

  /** `roundPairs(value)`: hours over 17 hours a pair, rounded to nearest with halves up. */
  function RoundPairs(hours: nat): (p: nat)
  {
    var raw := hours as real / HoursPerPair as real;
    var fraction := raw - raw.Floor as real;
    if fraction >= 0.5 then Ceil(raw) else raw.Floor
  }

  /** The same rounding on whole numbers: quotient by 17, plus one when the remainder is at least 9. */
  function Pairs(hours: nat): nat
  {
    hours / HoursPerPair + (if hours % HoursPerPair >= 9 then 1 else 0)
  }

  lemma FloorOfQuotient(q: nat, r: nat)
    requires r < HoursPerPair
    ensures ((HoursPerPair * q + r) as real / HoursPerPair as real).Floor == q
  {
    var raw := (HoursPerPair * q + r) as real / HoursPerPair as real;
    assert raw == q as real + r as real / HoursPerPair as real;
    assert 0.0 <= r as real / HoursPerPair as real < 1.0;
  }

  /** On whole hours, rounding is integer division by 17, plus one when the remainder is at least 9. */
  lemma {:induction false} RoundPairsHalfUp(hours: nat)
    ensures RoundPairs(hours) == Pairs(hours)
  {
    var q, r := hours / HoursPerPair, hours % HoursPerPair;
    assert hours == HoursPerPair * q + r;
    FloorOfQuotient(q, r);
    var raw := hours as real / HoursPerPair as real;
    assert raw - q as real == r as real / HoursPerPair as real;
    assert r >= 9 <==> r as real / HoursPerPair as real >= 0.5;
    assert raw == q as real <==> r == 0;
  }

  /** More hours never give fewer pairs. */
  lemma PairsMonotone(a: nat, b: nat)
    requires a <= b
    ensures Pairs(a) <= Pairs(b)
  {
    var qa, ra, qb, rb := a / HoursPerPair, a % HoursPerPair, b / HoursPerPair, b % HoursPerPair;
    assert a == HoursPerPair * qa + ra && b == HoursPerPair * qb + rb;
    if qa == qb {
      assert ra <= rb;
    } else {
      assert qa < qb;
    }
  }

  /** A positive count of pairs needs at least 9 hours. */
  lemma PairsPositive(hours: nat)
    ensures Pairs(hours) > 0 <==> hours >= 9
  {
  }

  // ------------------------------------------------------------ disciplines

  /** A discipline of a study plan, with its six hour fields. */
  datatype Discipline = Discipline(name: string, semester: int,
                                   lecture: Option<nat>, practice: Option<nat>, laboratory: Option<nat>,
                                   elLecture: Option<nat>, elPractice: Option<nat>, elLaboratory: Option<nat>)

  const Lecture := "Лекция"
  const Practice := "Практика"
  const Laboratory := "Лабораторная"

  /** An id `uuidv4()` would draw for lesson type `kind` of the discipline at position `index`. */
  type IdSource = (nat, string) -> string

  /** `x ?? 0`. */
  function OrZero(h: Option<nat>): nat
  {
    h.GetOr(0)
  }

  /** The entry for one lesson type, present when its in-person and online hours give at least one pair. */
  function TypeEntry(d: Discipline, index: nat, ids: IdSource, kind: string, hours: Option<nat>, online: Option<nat>)
    : (r: seq<DisciplineEntry>)
  {
    var total := Pairs(OrZero(hours) + OrZero(online));
    if total > 0 then [DisciplineEntry(ids(index, kind), d.name, kind, total, Pairs(OrZero(online)))]
    else []
  }

  /** The `flatMap` callback: lectures, practices and laboratory work, in that order. */
  function Entries(d: Discipline, index: nat, ids: IdSource): (r: seq<DisciplineEntry>)
  {
    TypeEntry(d, index, ids, Lecture, d.lecture, d.elLecture)
      + TypeEntry(d, index, ids, Practice, d.practice, d.elPractice)
      + TypeEntry(d, index, ids, Laboratory, d.laboratory, d.elLaboratory)
  }

  /** The entry of one lesson type: present exactly when its hours round to at least one pair, and never allowing more online pairs than pairs. */
  lemma TypeEntrySpec(d: Discipline, index: nat, ids: IdSource, kind: string, hours: Option<nat>, online: Option<nat>)
    ensures var r := TypeEntry(d, index, ids, kind, hours, online);
      (|r| == 1 <==> OrZero(hours) + OrZero(online) >= 9) && |r| <= 1
      && (|r| == 1 ==> r[0].disciplineName == d.name && r[0].kind == kind
                       && r[0].totalPairs == Pairs(OrZero(hours) + OrZero(online))
                       && r[0].onlinePossible == Pairs(OrZero(online))
                       && 0 <= r[0].onlinePossible <= r[0].totalPairs)
  {
    PairsPositive(OrZero(hours) + OrZero(online));
    PairsMonotone(OrZero(online), OrZero(hours) + OrZero(online));
  }

  /** Counters of a generated list: pairs left are positive and online pairs never exceed them. */
  predicate FreshCounters(es: seq<DisciplineEntry>)
  {
    forall k :: 0 <= k < |es| ==> 0 <= es[k].onlinePossible <= es[k].totalPairs && es[k].totalPairs > 0
  }

  lemma EntriesFresh(d: Discipline, index: nat, ids: IdSource)
    ensures FreshCounters(Entries(d, index, ids))
    ensures |Entries(d, index, ids)| <= 3
  {
    TypeEntrySpec(d, index, ids, Lecture, d.lecture, d.elLecture);
    TypeEntrySpec(d, index, ids, Practice, d.practice, d.elPractice);
    TypeEntrySpec(d, index, ids, Laboratory, d.laboratory, d.elLaboratory);
  }

  /** The generated list: the entries of every semester-1 discipline, in input order. */
  function Generate(ds: seq<Discipline>, base: nat, ids: IdSource): (r: seq<DisciplineEntry>)
  {
    if |ds| == 0 then []
    else (if ds[0].semester == 1 then Entries(ds[0], base, ids) else []) + Generate(ds[1..], base + 1, ids)
  }

  /** Every generated entry comes from a semester-1 discipline: `i` is its position in the input. */
  lemma {:induction false} GenerateSource(ds: seq<Discipline>, base: nat, ids: IdSource, e: DisciplineEntry)
    returns (i: nat)
    requires e in Generate(ds, base, ids)
    ensures i < |ds| && ds[i].semester == 1 && e in Entries(ds[i], base + i, ids)
  {
    var head := if ds[0].semester == 1 then Entries(ds[0], base, ids) else [];
    if e in head {
      i := 0;
    } else {
      var j := GenerateSource(ds[1..], base + 1, ids, e);
      i := j + 1;
      assert ds[i] == ds[1..][j];
    }
  }

  /** Every entry of every semester-1 discipline is generated. */
  lemma {:induction false} GenerateComplete(ds: seq<Discipline>, base: nat, ids: IdSource, i: nat, e: DisciplineEntry)
    requires i < |ds| && ds[i].semester == 1 && e in Entries(ds[i], base + i, ids)
    ensures e in Generate(ds, base, ids)
  {
    if i > 0 {
      assert ds[1..][i - 1] == ds[i];
      GenerateComplete(ds[1..], base + 1, ids, i - 1, e);
    }
  }

  /** The generated list satisfies the counter invariant of the selected-pair store. */
  lemma {:induction false} GenerateFresh(ds: seq<Discipline>, base: nat, ids: IdSource)
    ensures FreshCounters(Generate(ds, base, ids))
    ensures CountersNonNegative(Generate(ds, base, ids))
  {
    if |ds| > 0 {
      GenerateFresh(ds[1..], base + 1, ids);
      EntriesFresh(ds[0], base, ids);
      var head := if ds[0].semester == 1 then Entries(ds[0], base, ids) else [];
      var rest := Generate(ds[1..], base + 1, ids);
      var r := head + rest;
      forall k | 0 <= k < |r| ensures 0 <= r[k].onlinePossible <= r[k].totalPairs && r[k].totalPairs > 0 {
        if k >= |head| {
          assert r[k] == rest[k - |head|];
        }
      }
    }
  }

  // ------------------------------------------------------------ the older page

  /** One numbered pair of the older page. */
  datatype NumberedPair = NumberedPair(id: string, disciplineName: string, kind: string, pairNumber: nat)

  /** The pairs `pushPairs(count, kind)` appends after `before` pairs, numbered from 1; `uuid` stands for `uuidv4()`. */
  function Numbered(name: string, kind: string, count: nat, before: nat, index: nat, uuid: (nat, nat) -> string)
    : (r: seq<NumberedPair>)
    ensures |r| == count
  {
    if count == 0 then []
    else Numbered(name, kind, count - 1, before, index, uuid)
         + [NumberedPair(uuid(index, before + count - 1), name, kind, count)]
  }

  /** Pair `i` of the block is the `(i + 1)`-th pair of its kind, with the id drawn at position `before + i`. */
  lemma {:induction false} NumberedAt(name: string, kind: string, count: nat, before: nat, index: nat,
                                      uuid: (nat, nat) -> string, i: nat)
    requires i < count
    ensures Numbered(name, kind, count, before, index, uuid)[i] == NumberedPair(uuid(index, before + i), name, kind, i + 1)
  {
    if i < count - 1 {
      NumberedAt(name, kind, count - 1, before, index, uuid, i);
    }
  }

  /** `pushPairs(count, type)`: the loop over `i = 1 … count`, appending one numbered pair per step. */
  method PushPairs(result: seq<NumberedPair>, count: nat, name: string, kind: string, index: nat,
                   uuid: (nat, nat) -> string) returns (r: seq<NumberedPair>)
    ensures r == result + Numbered(name, kind, count, |result|, index, uuid)
  {
    r := result;
    var i := 1;
    while i <= count
      invariant 1 <= i <= count + 1
      invariant r == result + Numbered(name, kind, i - 1, |result|, index, uuid)
    {
      r := r + [NumberedPair(uuid(index, |r|), name, kind, i)];
      i := i + 1;
    }
  }

  /** JavaScript truthiness of an hour field: `null` and `0` are falsy. */
  predicate Given(h: Option<nat>)
  {
    h.Some? && h.value != 0
  }

  /** How many pairs one hour field yields. */
  function FieldCount(hours: Option<nat>): nat
  {
    if Given(hours) then Pairs(hours.value) else 0
  }

  /** The hour fields the older page tests, in its order, each with the kind its pairs get. */
  function FieldList(d: Discipline): (fs: seq<(string, Option<nat>)>)
    ensures |fs| == 6
  {
    [("Лекция", d.lecture), ("Практика", d.practice), ("Лабораторная", d.laboratory),
     ("Электронная лекция", d.elLecture), ("Электронная практика", d.elPractice),
     ("Электронная лабораторная", d.elLaboratory)]
  }

  /** The pairs pushed for the fields `fs`, in order, after `before` pairs already pushed. */
  function PairsOfFields(name: string, fs: seq<(string, Option<nat>)>, before: nat, index: nat, uuid: (nat, nat) -> string)
    : (r: seq<NumberedPair>)
  {
    if |fs| == 0 then []
    else
      var n := FieldCount(fs[0].1);
      Numbered(name, fs[0].0, n, before, index, uuid) + PairsOfFields(name, fs[1..], before + n, index, uuid)
  }

  /** Sum of the pair counts of the fields `fs`. */
  function CountOf(fs: seq<(string, Option<nat>)>): nat
  {
    if |fs| == 0 then 0 else FieldCount(fs[0].1) + CountOf(fs[1..])
  }

  /** The older page's callback for one discipline: every truthy field, lecture first, electronic laboratory work last. */
  function OldPairs(d: Discipline, index: nat, uuid: (nat, nat) -> string): seq<NumberedPair>
  {
    PairsOfFields(d.name, FieldList(d), 0, index, uuid)
  }

  /** The fields yield as many pairs as the rounded hours of the truthy ones add up to. */
  lemma {:induction false} OldPairsCount(name: string, fs: seq<(string, Option<nat>)>, before: nat, index: nat,
                                         uuid: (nat, nat) -> string)
    ensures |PairsOfFields(name, fs, before, index, uuid)| == CountOf(fs)
  {
    if |fs| > 0 {
      OldPairsCount(name, fs[1..], before + FieldCount(fs[0].1), index, uuid);
    }
  }

  /** Each pair pushed belongs to a truthy field `m`, carries that field's kind, and is numbered within that field's count. */
  lemma {:induction false} OldPairsAt(name: string, fs: seq<(string, Option<nat>)>, before: nat, index: nat,
                                      uuid: (nat, nat) -> string, j: nat)
    returns (m: nat)
    requires j < |PairsOfFields(name, fs, before, index, uuid)|
    ensures m < |fs| && Given(fs[m].1)
    ensures PairsOfFields(name, fs, before, index, uuid)[j].kind == fs[m].0
    ensures PairsOfFields(name, fs, before, index, uuid)[j].disciplineName == name
    ensures 1 <= PairsOfFields(name, fs, before, index, uuid)[j].pairNumber <= Pairs(fs[m].1.value)
  {
    var n := FieldCount(fs[0].1);
    var here := Numbered(name, fs[0].0, n, before, index, uuid);
    var rest := PairsOfFields(name, fs[1..], before + n, index, uuid);
    assert PairsOfFields(name, fs, before, index, uuid) == here + rest;
    if j < n {
      m := 0;
      NumberedAt(name, fs[0].0, n, before, index, uuid, j);
    } else {
      var m' := OldPairsAt(name, fs[1..], before + n, index, uuid, j - n);
      m := m' + 1;
    }
  }

  /** Unfolding the fields from position `k`: the pairs of field `k`, then those of the fields after it, which start at `next`. */
  lemma PairsOfFieldsStep(name: string, fs: seq<(string, Option<nat>)>, k: nat, before: nat, next: nat, index: nat,
                          uuid: (nat, nat) -> string)
    requires k < |fs| && next == before + FieldCount(fs[k].1)
    ensures PairsOfFields(name, fs[k..], before, index, uuid)
      == Numbered(name, fs[k].0, FieldCount(fs[k].1), before, index, uuid)
         + PairsOfFields(name, fs[k + 1..], next, index, uuid)
  {
    assert fs[k..][1..] == fs[k + 1..];
  }

  /** Pushing field `k`'s pairs onto `before` leaves the fields after `k` to push. */
  lemma PushFieldStep(name: string, fs: seq<(string, Option<nat>)>, k: nat, before: seq<NumberedPair>,
                      after: seq<NumberedPair>, index: nat, uuid: (nat, nat) -> string)
    requires k < |fs|
    requires after == before + Numbered(name, fs[k].0, FieldCount(fs[k].1), |before|, index, uuid)
    ensures after + PairsOfFields(name, fs[k + 1..], |after|, index, uuid)
         == before + PairsOfFields(name, fs[k..], |before|, index, uuid)
  {
    PairsOfFieldsStep(name, fs, k, |before|, |after|, index, uuid);
    AppendAssoc(before, Numbered(name, fs[k].0, FieldCount(fs[k].1), |before|, index, uuid),
                PairsOfFields(name, fs[k + 1..], |after|, index, uuid));
  }

  /** The callback for one discipline: six `if (field) pushPairs(…)` statements in a row. */
  method OldDisciplinePairs(d: Discipline, index: nat, uuid: (nat, nat) -> string) returns (result: seq<NumberedPair>)
    ensures result == OldPairs(d, index, uuid)
  {
    result := [];
    var fs := FieldList(d);
    assert fs[0..] == fs;
    for k := 0 to 6
      invariant result + PairsOfFields(d.name, fs[k..], |result|, index, uuid) == OldPairs(d, index, uuid)
    {
      var field := fs[k];
      ghost var before := result;
      if Given(field.1) {
        result := PushPairs(result, Pairs(field.1.value), d.name, field.0, index, uuid);
      } else {
        assert result == before + Numbered(d.name, field.0, 0, |before|, index, uuid);
      }
      PushFieldStep(d.name, fs, k, before, result, index, uuid);
    }
  }

  /** The older page's generated list: every semester-1 discipline's pairs, in input order. */
  function OldGenerate(ds: seq<Discipline>, base: nat, uuid: (nat, nat) -> string): seq<NumberedPair>
  {
    if |ds| == 0 then []
    else (if ds[0].semester == 1 then OldPairs(ds[0], base, uuid) else []) + OldGenerate(ds[1..], base + 1, uuid)
  }

  /**
   * The two pages disagree on counts: the current page rounds a type's
   * in-person and online hours together, the older one rounds each field.
   * 8 lecture hours and 8 online lecture hours give one lecture entry with
   * one pair in the current page and no pair at all in the older one.
   */
  lemma PagesDisagree(ids: IdSource, uuid: (nat, nat) -> string)
    ensures var d := Discipline("Физика", 1, Some(8), None, None, Some(8), None, None);
      |Entries(d, 0, ids)| == 1 && Entries(d, 0, ids)[0].totalPairs == 1 && |OldPairs(d, 0, uuid)| == 0
  {
    var d := Discipline("Физика", 1, Some(8), None, None, Some(8), None, None);
    OldPairsCount(d.name, FieldList(d), 0, 0, uuid);
  }

  // ------------------------------------------------------------ grouped wishes

  /** One item of the `getAllWishes` response as the page reads it. */
  datatype WishItem = WishItem(teacherRecordId: Option<string>, teacherId: Option<string>,
                               kind: string, content: Option<string>)

  /** One teacher's group: the schedule wishes and the text. */
  datatype TeacherWishes = TeacherWishes(schedule: seq<WishItem>, text: Option<string>)

  /** `wish.teacher?.id || wish.teacherId`, as an object key (`undefined` becomes the key "undefined"). */
  function GroupKey(w: WishItem): string
  {
    if Truthy(w.teacherRecordId) then w.teacherRecordId.value
    else if w.teacherId.Some? then w.teacherId.value
    else "undefined"
  }

  /** One step of the `reduce`. */
  function AddToGroup(acc: Obj<TeacherWishes>, w: WishItem): Obj<TeacherWishes>
  {
    var key := GroupKey(w);
    var g := Get(acc, key).GetOr(TeacherWishes([], None));
    if w.kind == "text" then Put(acc, key, g.(text := w.content))
    else if w.kind == "schedule" then Put(acc, key, g.(schedule := g.schedule + [w]))
    else Put(acc, key, g)
  }

  /** `wishesResponse.reduce(…, {})`. */
  function Grouped(ws: seq<WishItem>): Obj<TeacherWishes>
  {
    if |ws| == 0 then [] else AddToGroup(Grouped(ws[..|ws| - 1]), ws[|ws| - 1])
  }

  /** The schedule wishes of one key, in input order. */
  function ScheduleOfKey(ws: seq<WishItem>, key: string): seq<WishItem>
  {
    if |ws| == 0 then []
    else
      var w := ws[|ws| - 1];
      ScheduleOfKey(ws[..|ws| - 1], key) + (if GroupKey(w) == key && w.kind == "schedule" then [w] else [])
  }

  /** The content of the last text wish of one key, `None` when there is none. */
  function LastText(ws: seq<WishItem>, key: string): Option<Option<string>>
  {
    if |ws| == 0 then None
    else
      var w := ws[|ws| - 1];
      if GroupKey(w) == key && w.kind == "text" then Some(w.content) else LastText(ws[..|ws| - 1], key)
  }

  /** The key of every wish, in input order. */
  function KeysSeen(ws: seq<WishItem>): (r: seq<string>)
    ensures |r| == |ws| && forall i :: 0 <= i < |ws| ==> r[i] == GroupKey(ws[i])
  {
    if |ws| == 0 then [] else KeysSeen(ws[..|ws| - 1]) + [GroupKey(ws[|ws| - 1])]
  }

  /** A teacher has a group exactly when some wish carries its key. */
  lemma {:induction false} GroupedKeys(ws: seq<WishItem>, key: string)
    ensures Get(Grouped(ws), key).Some? <==> key in KeysSeen(ws)
  {
    if |ws| > 0 {
      GroupedKeys(ws[..|ws| - 1], key);
      AddToGroupAt(Grouped(ws[..|ws| - 1]), ws[|ws| - 1], key);
    }
  }

  /** One step of the `reduce` on the group of `key`. */
  lemma AddToGroupAt(acc: Obj<TeacherWishes>, w: WishItem, key: string)
    ensures GroupKey(w) != key ==> Get(AddToGroup(acc, w), key) == Get(acc, key)
    ensures GroupKey(w) == key ==>
      var g := Get(acc, key).GetOr(TeacherWishes([], None));
      Get(AddToGroup(acc, w), key) == Some(
        if w.kind == "text" then g.(text := w.content)
        else if w.kind == "schedule" then g.(schedule := g.schedule + [w]) else g)
  {
    var g := Get(acc, GroupKey(w)).GetOr(TeacherWishes([], None));
    PutGet(acc, GroupKey(w), g.(text := w.content));
    PutGet(acc, GroupKey(w), g.(schedule := g.schedule + [w]));
    PutGet(acc, GroupKey(w), g);
  }

  /** A teacher's group lists that teacher's schedule wishes, in input order. */
  lemma {:induction false} GroupedSchedule(ws: seq<WishItem>, key: string)
    ensures Get(Grouped(ws), key).GetOr(TeacherWishes([], None)).schedule == ScheduleOfKey(ws, key)
  {
    if |ws| > 0 {
      GroupedSchedule(ws[..|ws| - 1], key);
      AddToGroupAt(Grouped(ws[..|ws| - 1]), ws[|ws| - 1], key);
    }
  }

  /** A teacher's group text is the content of that teacher's last text wish. */
  lemma {:induction false} GroupedText(ws: seq<WishItem>, key: string)
    ensures Get(Grouped(ws), key).GetOr(TeacherWishes([], None)).text == LastText(ws, key).GetOr(None)
  {
    if |ws| > 0 {
      GroupedText(ws[..|ws| - 1], key);
      AddToGroupAt(Grouped(ws[..|ws| - 1]), ws[|ws| - 1], key);
    }
  }

  /** The `reduce`, written as the loop it runs: the accumulator is updated in place, wish by wish. */
  method GroupWishes(ws: seq<WishItem>) returns (acc: Obj<TeacherWishes>)
    ensures acc == Grouped(ws)
  {
    acc := [];
    for i := 0 to |ws|
      invariant acc == Grouped(ws[..i])
    {
      assert ws[..i + 1][..i] == ws[..i];
      acc := AddToGroup(acc, ws[i]);
    }
    assert ws[..|ws|] == ws;
  }
}
