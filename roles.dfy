/**
 * Role names as the user pages show them: a comma-separated list of role
 * codes, each trimmed and replaced by its Russian name when it has one.
 */
module Roles {
  import opened Common
  import opened Text

  /** The three role codes with a Russian name. */
  function Translation(code: string): Option<string>
  {
    if code == "ADMIN" then Some("Администратор")
    else if code == "TEACHER" then Some("Преподаватель")
    else if code == "USER" then Some("Пользователь")
    else None
  }

  /** One part of the list: trimmed, then translated when it is a known code (every name is non-empty, so `||` never falls back for a code). */
  function TranslateRole(part: string): string
  {
    var trimmed := Trim(part);
    match Translation(trimmed)
    case Some(name) => name
    case None => trimmed
  }

  /** `translateRoles`: split at `,`, translate each part, join with `", "`. */
  function TranslateRoles(roles: string): string
  {
    Join(TranslateAll(Split(roles, ',')), ", ")
  }

  function TranslateAll(parts: seq<string>): (ts: seq<string>)
    ensures |ts| == |parts|
  {
    seq(|parts|, i requires 0 <= i < |parts| => TranslateRole(parts[i]))
  }

  /** A translated part is trimmed, is no role code, and contains no comma when the part had none. */
  lemma {:induction false} TranslateRoleShape(part: string)
    ensures var r := TranslateRole(part);
      Trim(r) == r && Translation(r).None? && (',' !in part ==> ',' !in r)
  {
    var t := Trim(part);
    if Translation(t).Some? {
      NameShape(t);
    } else {
      TrimIdempotent(part);
      if ',' !in part {
        TrimWithin(part, ',');
      }
    }
  }

  /** The Russian names are trimmed, are no codes, and have no comma. */
  lemma {:induction false} NameShape(code: string)
    requires Translation(code).Some?
    ensures var r := Translation(code).value;
      Trim(r) == r && Translation(r).None? && ',' !in r
  {
    var r := Translation(code).value;
    if code == "ADMIN" {
      WordShape(r, 'А', 'р');
    } else if code == "TEACHER" {
      WordShape(r, 'П', 'ь');
    } else {
      WordShape(r, 'П', 'ь');
    }
  }

  /** A comma-free word with no white space at either end is its own trim. */
  lemma {:induction false} WordShape(r: string, first: char, last: char)
    requires |r| > 0 && r[0] == first && r[|r| - 1] == last && !IsSpace(first) && !IsSpace(last)
    requires r == "Администратор" || r == "Преподаватель" || r == "Пользователь"
    ensures Trim(r) == r && Translation(r).None? && ',' !in r
  {
    TrimStartNoop(r);
    TrimEndNoop(r);
  }

  /** Translating a translated part changes nothing. */
  lemma {:induction false} TranslateRoleFixed(part: string)
    ensures TranslateRole(TranslateRole(part)) == TranslateRole(part)
  {
    TranslateRoleShape(part);
  }

  /** A leading space disappears under trimming. */
  lemma {:induction false} TrimLeadingSpace(t: string)
    ensures Trim(" " + t) == Trim(t)
  {
    assert (" " + t)[1..] == t;
  }

  /** The parts of `ts` joined with `", "`, split again at `,`: each part after the first comes back with its leading space. */
  function Spaced(ts: seq<string>): seq<string>
    requires |ts| >= 1
  {
    [ts[0]] + seq(|ts| - 1, i requires 0 <= i < |ts| - 1 => " " + ts[i + 1])
  }

  lemma {:induction false} SplitJoinComma(ts: seq<string>)
    requires |ts| >= 1 && forall i :: 0 <= i < |ts| ==> ',' !in ts[i]
    ensures Split(Join(ts, ", "), ',') == Spaced(ts)
  {
    if |ts| == 1 {
      SplitNoSeparator(ts[0], ',');
    } else {
      var rest := ts[1..];
      SplitJoinComma(rest);
      var tail := Join(rest, ", ");
      assert Join(ts, ", ") == ts[0] + [','] + (" " + tail);
      SplitAtFirst(ts[0], ',', " " + tail);
      var pieces := Split(tail, ',');
      assert (" " + tail)[1..] == tail;
      assert Split(" " + tail, ',') == [" " + pieces[0]] + pieces[1..];
      assert pieces == Spaced(rest);
      assert Split(Join(ts, ", "), ',') == [ts[0]] + ([" " + pieces[0]] + pieces[1..]);
      forall i | 0 <= i < |ts| ensures Split(Join(ts, ", "), ',')[i] == Spaced(ts)[i] {
        if i >= 2 {
          assert pieces[i - 1] == " " + rest[i - 1];
        }
      }
    }
  }

  /**
   * The result has as many comma-separated parts as the input, and the
   * `i`-th part, trimmed, is the translation of the `i`-th input part.
   */
  lemma {:induction false} RolesParts(roles: string)
    ensures var ps := Split(roles, ',');
      var out := Split(TranslateRoles(roles), ',');
      |out| == |ps| && forall i :: 0 <= i < |ps| ==> Trim(out[i]) == TranslateRole(ps[i])
  {
    var ps := Split(roles, ',');
    var ts := TranslateAll(ps);
    TranslateAllShape(ps);
    SplitJoinComma(ts);
    SpacedTrim(ts);
    var out := Split(TranslateRoles(roles), ',');
    assert out == Spaced(ts);
    forall i | 0 <= i < |ps| ensures Trim(out[i]) == TranslateRole(ps[i]) {
      assert Trim(out[i]) == ts[i];
    }
  }

  /** Every translated part is trimmed and comma-free, and no role code. */
  lemma {:induction false} TranslateAllShape(ps: seq<string>)
    requires forall i :: 0 <= i < |ps| ==> ',' !in ps[i]
    ensures var ts := TranslateAll(ps);
      forall i :: 0 <= i < |ts| ==> ',' !in ts[i] && Trim(ts[i]) == ts[i] && Translation(ts[i]).None?
  {
    var ts := TranslateAll(ps);
    forall i | 0 <= i < |ts| ensures ',' !in ts[i] && Trim(ts[i]) == ts[i] && Translation(ts[i]).None? {
      TranslateRoleShape(ps[i]);
    }
  }

  lemma {:induction false} SpacedPieceTrim(ts: seq<string>, i: nat)
    requires i < |ts| && Trim(ts[i]) == ts[i]
    ensures Trim(Spaced(ts)[i]) == ts[i]
  {
    var t := ts[i];
    if i > 0 {
      assert Spaced(ts)[i] == " " + t;
      TrimLeadingSpace(t);
    }
  }

  /** Trimming the split-again pieces gives the parts back. */
  lemma {:induction false} SpacedTrim(ts: seq<string>)
    requires |ts| >= 1 && forall i :: 0 <= i < |ts| ==> Trim(ts[i]) == ts[i]
    ensures forall i :: 0 <= i < |ts| ==> Trim(Spaced(ts)[i]) == ts[i]
  {
    forall i | 0 <= i < |ts| ensures Trim(Spaced(ts)[i]) == ts[i] {
      SpacedPieceTrim(ts, i);
    }
  }

  /** Translating an already translated list changes nothing. */
  lemma {:induction false} TranslateRolesIdempotent(roles: string)
    ensures TranslateRoles(TranslateRoles(roles)) == TranslateRoles(roles)
  {
    var ts := TranslateAll(Split(roles, ','));
    TranslateAllShape(Split(roles, ','));
    SplitJoinComma(ts);
    SpacedTrim(ts);
    var us := TranslateAll(Spaced(ts));
    forall i | 0 <= i < |ts| ensures us[i] == ts[i] {
      assert Trim(Spaced(ts)[i]) == ts[i];
    }
    assert us == ts;
  }

  /** The empty list stays empty. */
  lemma {:induction false} TranslateRolesEmpty()
    ensures TranslateRoles("") == ""
  {
    assert Split("", ',') == [""];
  }
}
