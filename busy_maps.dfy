/**
 * The busy-resource pages: a teacher's or room's page and a group's page
 * in the constructor. Both split the busy pairs they fetch into pairs with
 * a week parity and pairs with a week number, bucket the chosen ones by
 * `"<day>-<time slot>"`, and show `Свободно` in every cell with no pair.
 * They also list half-year codes to choose from, each page in its own way.
 */
module BusyMaps {
  import opened Common
  import opened Text
  import opened JsObject
  import opened Calendar
  import GridSave

  // ------------------------------------------------------------ half-year options

  /** `${year}H${half}`. */
  function Code(year: nat, half: nat): string
  {
    NatToString(year) + "H" + NatToString(half)
  }

  /** Codes with a one-digit half are equal only for equal years and halves. */
  lemma CodeInjective(y1: nat, h1: nat, y2: nat, h2: nat)
    requires h1 < 10 && h2 < 10 && Code(y1, h1) == Code(y2, h2)
    ensures y1 == y2 && h1 == h2
  {
    var a1, a2 := NatToString(y1), NatToString(y2);
    var c := Code(y1, h1);
    assert NatToString(h1) == [DigitChar(h1)] && NatToString(h2) == [DigitChar(h2)];
    assert |a1| == |a2|;
    assert a1 == c[..|a1|] && a2 == c[..|a2|];
    NatToStringInjective(y1, y2);
    assert c[|c| - 1] == DigitChar(h1) == DigitChar(h2);
  }

  /** The half of option `i`: 1 for even `i`, 2 for odd `i`. */
  function OptionHalf(i: nat): nat
  {
    if i % 2 == 0 then 1 else 2
  }

  /** Option `i` of the teacher and room page: two halves a year from 2021. */
  function ResourceOption(i: nat): string
  {
    Code(2021 + i / 2, OptionHalf(i))
  }

  /** `Array.from({ length: 10 }, …)` on the teacher and room page. */
  function ResourceOptions(): (opts: seq<string>)
    ensures |opts| == 10 && forall i :: 0 <= i < 10 ==> opts[i] == ResourceOption(i)
  {
    seq(10, i requires 0 <= i => ResourceOption(i))
  }

  /** The ten options of the teacher and room page are all different. */
  lemma ResourceOptionsDistinct(i: nat, j: nat)
    requires i < 10 && j < 10 && ResourceOptions()[i] == ResourceOptions()[j]
    ensures i == j
  {
    CodeInjective(2021 + i / 2, OptionHalf(i), 2021 + j / 2, OptionHalf(j));
  }

  /** Option `i` of the group page, labelled semester `i + 1`: two halves a year from the year of admission. */
  function GroupOption(yearOfAdmission: nat, i: nat): string
  {
    Code(yearOfAdmission + i / 2, OptionHalf(i))
  }

  /** `Array.from({ length: 8 }, …)` on the group page. */
  function GroupOptions(yearOfAdmission: nat): (opts: seq<string>)
    ensures |opts| == 8 && forall i :: 0 <= i < 8 ==> opts[i] == GroupOption(yearOfAdmission, i)
  {
    seq(8, i requires 0 <= i => GroupOption(yearOfAdmission, i))
  }

  /**
   * The group page and the constructor grid disagree on every semester:
   * the option the group page labels semester `s` is never the code the
   * grid saves semester `s` under. Semester 1 is the first half of the
   * year of admission here and the second half there.
   */
  lemma GroupOptionDisagrees(yearOfAdmission: nat, s: nat)
    requires 1 <= s
    ensures GroupOption(yearOfAdmission, s - 1) != GridSave.HalfYearCode(yearOfAdmission, s)
  {
    var h := GridSave.HalfYear(yearOfAdmission, s);
    assert GridSave.HalfYearCode(yearOfAdmission, s) == Code(h.0, h.1);
    if GroupOption(yearOfAdmission, s - 1) == Code(h.0, h.1) {
      CodeInjective(yearOfAdmission + (s - 1) / 2, OptionHalf(s - 1), h.0, h.1);
      assert false;
    }
  }

  /**
   * The option the group page evidently means by semester `i + 1`: the
   * half-year the constructor grid saves that semester under, the second
   * half of the year of admission for the first semester.
   */
  function GroupOptionIntended(yearOfAdmission: nat, i: nat): string
  {
    Code(yearOfAdmission + (i + 1) / 2, if i % 2 == 0 then 2 else 1)
  }

  /** The corrected option of every semester is the code the grid saves that semester under. */
  lemma {:induction false} GroupOptionIntendedAgrees(yearOfAdmission: nat, s: nat)
    requires 1 <= s
    ensures GroupOptionIntended(yearOfAdmission, s - 1) == GridSave.HalfYearCode(yearOfAdmission, s)
  {
    var h := GridSave.HalfYear(yearOfAdmission, s);
    assert GridSave.HalfYearCode(yearOfAdmission, s) == Code(h.0, h.1);
  }

  /** Different semesters get different corrected options. */
  lemma {:induction false} GroupOptionIntendedInjective(yearOfAdmission: nat, i: nat, j: nat)
    requires GroupOptionIntended(yearOfAdmission, i) == GroupOptionIntended(yearOfAdmission, j)
    ensures i == j
  {
    var si, sj := i + 1, j + 1;
    GroupOptionIntendedAgrees(yearOfAdmission, si);
    GroupOptionIntendedAgrees(yearOfAdmission, sj);
    assert si - 1 == i && sj - 1 == j;
    assert GridSave.HalfYearCode(yearOfAdmission, si) == GridSave.HalfYearCode(yearOfAdmission, sj);
    GridSave.HalfYearCodeInjective(yearOfAdmission, si, sj);
  }

  /** On the first semester both codes name the year of admission, with halves 1 and 2. */
  lemma FirstSemesterCodes(yearOfAdmission: nat)
    ensures GroupOptions(yearOfAdmission)[0] == Code(yearOfAdmission, 1)
    ensures GridSave.HalfYearCode(yearOfAdmission, 1) == Code(yearOfAdmission, 2)
  {
  }

  // ------------------------------------------------------------ busy slots

  /** A busy pair as the pages read it: the day is the enum name the API sends. */
  datatype BusySlot = BusySlot(id: string, weekType: Option<WeekType>, numberWeek: Option<int>,
                               dayOfWeek: string, timeSlotTitle: string)

  /** `ruDayMap[code] || code`. */
  function RuDay(code: string): string
  {
    if code == "MON" then "Понедельник"
    else if code == "TUE" then "Вторник"
    else if code == "WED" then "Среда"
    else if code == "THU" then "Четверг"
    else if code == "FRI" then "Пятница"
    else if code == "SAT" then "Суббота"
    else if code == "SUN" then "Воскресенье"
    else code
  }

  /** A code that is not a day name is shown as it is. */
  lemma RuDayOther(code: string)
    requires forall d: DayOfWeek :: code != d.Name()
    ensures RuDay(code) == code
  {
    assert code != MON.Name() && code != TUE.Name() && code != WED.Name() && code != THU.Name();
    assert code != FRI.Name() && code != SAT.Name() && code != SUN.Name();
  }

  /** Different days get different Russian names. */
  lemma RuDayInjective(a: DayOfWeek, b: DayOfWeek)
    requires RuDay(a.Name()) == RuDay(b.Name())
    ensures a == b
  {
  }

  /** `weekTypeNotNull`. */
  function WithParity(ps: seq<BusySlot>): (r: seq<BusySlot>)
  {
    if |ps| == 0 then []
    else (if ps[0].weekType.Some? then [ps[0]] else []) + WithParity(ps[1..])
  }

  /** `weekTypeNull`. */
  function WithoutParity(ps: seq<BusySlot>): (r: seq<BusySlot>)
  {
    if |ps| == 0 then []
    else (if ps[0].weekType.None? then [ps[0]] else []) + WithoutParity(ps[1..])
  }

  /** Every slot is in exactly one of the two parts, and nothing is added or lost. */
  lemma PartitionExact(ps: seq<BusySlot>)
    ensures multiset(WithParity(ps)) + multiset(WithoutParity(ps)) == multiset(ps)
    ensures forall p :: p in WithParity(ps) <==> p in ps && p.weekType.Some?
    ensures forall p :: p in WithoutParity(ps) <==> p in ps && p.weekType.None?
  {
    PartitionMultiset(ps);
    PartitionMembers(ps);
  }

  /** Together the two parts hold every slot once. */
  lemma {:induction false} PartitionMultiset(ps: seq<BusySlot>)
    ensures multiset(WithParity(ps)) + multiset(WithoutParity(ps)) == multiset(ps)
  {
    if |ps| > 0 {
      PartitionMultiset(ps[1..]);
      assert ps == [ps[0]] + ps[1..];
    }
  }

  /** Each slot is in the part its week type says. */
  lemma {:induction false} PartitionMembers(ps: seq<BusySlot>)
    ensures forall p :: p in WithParity(ps) <==> p in ps && p.weekType.Some?
    ensures forall p :: p in WithoutParity(ps) <==> p in ps && p.weekType.None?
  {
    if |ps| > 0 {
      PartitionMembers(ps[1..]);
      assert ps == [ps[0]] + ps[1..];
    }
  }

  // ------------------------------------------------------------ buckets

  /** Which slots a table shows: a week parity, or a week number. */
  datatype Selection = Parity(week: WeekType) | WeekNumber(n: int)

  /** The loop's `continue` test, negated. */
  predicate Selected(p: BusySlot, sel: Selection)
  {
    match sel
    case Parity(w) => p.weekType == Some(w)
    case WeekNumber(n) => p.numberWeek == Some(n)
  }

  /** `${dayLabel}-${slotLabel}`. */
  function SlotKey(p: BusySlot): string
  {
    RuDay(p.dayOfWeek) + "-" + p.timeSlotTitle
  }

  /** One pass of the loop body. */
  function AddSlot(m: Obj<seq<BusySlot>>, p: BusySlot, sel: Selection): Obj<seq<BusySlot>>
  {
    if !Selected(p, sel) then m
    else Put(m, SlotKey(p), Get(m, SlotKey(p)).GetOr([]) + [p])
  }

  /** The object the loop builds. */
  function Buckets(ps: seq<BusySlot>, sel: Selection): Obj<seq<BusySlot>>
  {
    if |ps| == 0 then [] else AddSlot(Buckets(ps[..|ps| - 1], sel), ps[|ps| - 1], sel)
  }

  /** The selected slots with key `key`, in input order. */
  function SelectedAt(ps: seq<BusySlot>, sel: Selection, key: string): seq<BusySlot>
  {
    if |ps| == 0 then []
    else
      var p := ps[|ps| - 1];
      SelectedAt(ps[..|ps| - 1], sel, key) + (if Selected(p, sel) && SlotKey(p) == key then [p] else [])
  }

  /** `slotsMap` and `slotsMapNullWeek`: a `for … of` loop pushing each chosen slot into its bucket. */
  method BuildBuckets(ps: seq<BusySlot>, sel: Selection) returns (m: Obj<seq<BusySlot>>)
    ensures m == Buckets(ps, sel)
  {
    m := [];
    for i := 0 to |ps|
      invariant m == Buckets(ps[..i], sel)
    {
      var p := ps[i];
      assert ps[..i + 1][..i] == ps[..i];
      if Selected(p, sel) {
        var key := SlotKey(p);
        var bucket := Get(m, key).GetOr([]);
        m := Put(m, key, bucket + [p]);
      }
    }
    assert ps[..|ps|] == ps;
  }

  /** One pass of the loop on the bucket of `key`. */
  lemma AddSlotAt(m: Obj<seq<BusySlot>>, p: BusySlot, sel: Selection, key: string)
    ensures !(Selected(p, sel) && SlotKey(p) == key) ==> Get(AddSlot(m, p, sel), key) == Get(m, key)
    ensures Selected(p, sel) && SlotKey(p) == key ==>
      Get(AddSlot(m, p, sel), key) == Some(Get(m, key).GetOr([]) + [p])
  {
    if Selected(p, sel) {
      PutGet(m, SlotKey(p), Get(m, SlotKey(p)).GetOr([]) + [p]);
    }
  }

  /**
   * The bucket of `key` holds exactly the chosen slots with that key, in
   * input order; a bucket exists only when it is non-empty.
   */
  lemma {:induction false} BucketsSpec(ps: seq<BusySlot>, sel: Selection, key: string)
    ensures Get(Buckets(ps, sel), key).GetOr([]) == SelectedAt(ps, sel, key)
    ensures Get(Buckets(ps, sel), key).Some? ==> Get(Buckets(ps, sel), key).value != []
  {
    if |ps| > 0 {
      BucketsSpec(ps[..|ps| - 1], sel, key);
      AddSlotAt(Buckets(ps[..|ps| - 1], sel), ps[|ps| - 1], sel, key);
    }
  }

  /** A slot is in `SelectedAt` exactly when it is an input slot, chosen, with that key. */
  lemma {:induction false} SelectedAtMembers(ps: seq<BusySlot>, sel: Selection, key: string)
    ensures forall p :: p in SelectedAt(ps, sel, key) <==> p in ps && Selected(p, sel) && SlotKey(p) == key
  {
    if |ps| > 0 {
      SelectedAtMembers(ps[..|ps| - 1], sel, key);
      assert ps == ps[..|ps| - 1] + [ps[|ps| - 1]];
    }
  }

  /** Choosing among the parity part is choosing among all slots: the parity filter already excludes unset week types. */
  lemma {:induction false} ParityPartSelects(ps: seq<BusySlot>, w: WeekType, key: string)
    ensures forall p :: p in SelectedAt(WithParity(ps), Parity(w), key) <==>
      p in ps && p.weekType == Some(w) && SlotKey(p) == key
  {
    PartitionExact(ps);
    SelectedAtMembers(WithParity(ps), Parity(w), key);
  }

  /** Choosing among the numbered part keeps the slots without parity whose week number is the chosen one. */
  lemma {:induction false} NumberedPartSelects(ps: seq<BusySlot>, n: int, key: string)
    ensures forall p :: p in SelectedAt(WithoutParity(ps), WeekNumber(n), key) <==>
      p in ps && p.weekType.None? && p.numberWeek == Some(n) && SlotKey(p) == key
  {
    PartitionExact(ps);
    SelectedAtMembers(WithoutParity(ps), WeekNumber(n), key);
  }

  // ------------------------------------------------------------ cells

  /** What a cell shows. */
  datatype CellView = Free | Busy(pairs: seq<BusySlot>)

  /** The cell renderer: `Свободно` when the bucket is missing or empty. */
  function ShowCell(m: Obj<seq<BusySlot>>, day: string, hour: string): CellView
  {
    var pairs := Get(m, day + "-" + hour);
    if pairs.None? || |pairs.value| == 0 then Free else Busy(pairs.value)
  }

  /** A cell shows `Свободно` exactly when no chosen slot has its key; otherwise it lists them in input order. */
  lemma CellFreeIffNoSlot(ps: seq<BusySlot>, sel: Selection, day: string, hour: string)
    ensures ShowCell(Buckets(ps, sel), day, hour) == Free <==>
      forall p :: p in ps && Selected(p, sel) ==> SlotKey(p) != day + "-" + hour
    ensures ShowCell(Buckets(ps, sel), day, hour) != Free ==>
      ShowCell(Buckets(ps, sel), day, hour) == Busy(SelectedAt(ps, sel, day + "-" + hour))
  {
    BucketsSpec(ps, sel, day + "-" + hour);
    SelectedAtMembers(ps, sel, day + "-" + hour);
    if SelectedAt(ps, sel, day + "-" + hour) != [] {
      assert SelectedAt(ps, sel, day + "-" + hour)[0] in SelectedAt(ps, sel, day + "-" + hour);
    }
  }
}
