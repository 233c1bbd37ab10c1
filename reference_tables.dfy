/**
 * The reference tables whose rows carry a title: buildings, positions,
 * departments, equipment, audience types, groups and audiences. Each
 * service looks a row up by id, lists the table, and creates, updates and
 * deletes rows after checking that the id exists (NotFound) and that no
 * other row has the title (Conflict). A table is a sequence of rows in
 * the order the database returns them; the row id a create receives is
 * generated by the database and is a parameter here.
 */
module ReferenceTables {
  import opened Common

  /** A row: its id, its title, and the other fields of the service's DTO. */
  datatype Row<D> = Row(id: string, title: string, fields: D)

  predicate HasId<D>(rows: seq<Row<D>>, id: string)
  {
    exists i :: 0 <= i < |rows| && rows[i].id == id
  }

  /** Some row other than `except` has the title: `findFirst({ title, NOT: { id } })`. */
  predicate TitleUsed<D>(rows: seq<Row<D>>, title: string, except: Option<string>)
  {
    exists i :: 0 <= i < |rows| && rows[i].title == title && except != Some(rows[i].id)
  }

  predicate UniqueIds<D>(rows: seq<Row<D>>)
  {
    forall i, j :: 0 <= i < j < |rows| ==> rows[i].id != rows[j].id
  }

  predicate UniqueTitles<D>(rows: seq<Row<D>>)
  {
    forall i, j :: 0 <= i < j < |rows| ==> rows[i].title != rows[j].title
  }

  /** `findUnique({ where: { id } })`. */
  function Find<D>(rows: seq<Row<D>>, id: string): (r: Option<Row<D>>)
    ensures r.None? <==> !HasId(rows, id)
    ensures r.Some? ==> r.value in rows && r.value.id == id
  {
    if |rows| == 0 then None
    else if rows[0].id == id then Some(rows[0])
    else
      var r := Find(rows[1..], id);
      assert forall i :: 1 <= i < |rows| ==> rows[i] == rows[1..][i - 1];
      r
  }

  /** `update({ where: { id }, data })`: the row with that id replaced, every other row as it was. */
  function Replace<D>(rows: seq<Row<D>>, id: string, row: Row<D>): (r: seq<Row<D>>)
    ensures |r| == |rows|
    ensures forall i :: 0 <= i < |rows| ==> r[i] == (if rows[i].id == id then row else rows[i])
  {
    seq(|rows|, i requires 0 <= i < |rows| => if rows[i].id == id then row else rows[i])
  }

  /** `delete({ where: { id } })`: every row but the one with that id, in order. */
  function Without<D>(rows: seq<Row<D>>, id: string): (r: seq<Row<D>>)
    ensures |r| <= |rows|
    ensures forall i :: 0 <= i < |r| ==> r[i] in rows && r[i].id != id
    ensures forall i :: 0 <= i < |rows| && rows[i].id != id ==> rows[i] in r
  {
    if |rows| == 0 then []
    else (if rows[0].id == id then [] else [rows[0]]) + Without(rows[1..], id)
  }

  // ---------------------------------------------------------------- the five title-checked services

  /** `getById`. */
  function GetRow<D>(rows: seq<Row<D>>, id: string): Result<Row<D>>
  {
    match Find(rows, id)
    case None => Err(NotFound)
    case Some(row) => Ok(row)
  }

  /** `create`: Conflict when any row has the title, otherwise the new row appended. */
  function CreateRow<D>(rows: seq<Row<D>>, id: string, title: string, fields: D): Result<seq<Row<D>>>
  {
    if TitleUsed(rows, title, None) then Err(Conflict)
    else Ok(rows + [Row(id, title, fields)])
  }

  /** `update`: NotFound for an unknown id, Conflict when another row has the title, otherwise the row rewritten from the DTO. */
  function UpdateRow<D>(rows: seq<Row<D>>, id: string, title: string, fields: D): Result<seq<Row<D>>>
  {
    if !HasId(rows, id) then Err(NotFound)
    else if TitleUsed(rows, title, Some(id)) then Err(Conflict)
    else Ok(Replace(rows, id, Row(id, title, fields)))
  }

  /**
   * `delete`: NotFound for an unknown id; the database refuses to remove a
   * row that rows of other tables still refer to (`referenced`, empty for a
   * schema that cascades); otherwise the row removed.
   */
  function DeleteRow<D>(rows: seq<Row<D>>, id: string, referenced: set<string>): Result<seq<Row<D>>>
  {
    if !HasId(rows, id) then Err(NotFound)
    else if id in referenced then Err(ForeignKey)
    else Ok(Without(rows, id))
  }

  /** `getById` fails with NotFound exactly when no row has the id, and otherwise returns that row. */
  lemma GetRowSpec<D>(rows: seq<Row<D>>, id: string)
    ensures GetRow(rows, id).Err? <==> !HasId(rows, id)
    ensures GetRow(rows, id).Err? ==> GetRow(rows, id).error == NotFound
    ensures GetRow(rows, id).Ok? ==> GetRow(rows, id).value in rows && GetRow(rows, id).value.id == id
  {
  }

  /**
   * `create` fails with Conflict exactly when the title is taken; otherwise
   * it adds one row with a fresh id, and titles and ids stay unique.
   */
  lemma CreateKeepsUnique<D>(rows: seq<Row<D>>, id: string, title: string, fields: D)
    requires UniqueIds(rows) && UniqueTitles(rows) && !HasId(rows, id)
    ensures CreateRow(rows, id, title, fields).Err? <==> TitleUsed(rows, title, None)
    ensures CreateRow(rows, id, title, fields).Err? ==> CreateRow(rows, id, title, fields).error == Conflict
    ensures CreateRow(rows, id, title, fields).Ok? ==>
      var r := CreateRow(rows, id, title, fields).value;
      UniqueIds(r) && UniqueTitles(r) && r[..|rows|] == rows && r[|rows|] == Row(id, title, fields)
  {
    if !TitleUsed(rows, title, None) {
      var r := rows + [Row(id, title, fields)];
      forall i, j | 0 <= i < j < |r| ensures r[i].id != r[j].id && r[i].title != r[j].title {
        if j == |rows| {
          assert r[i] == rows[i];
        }
      }
    }
  }

  /**
   * `update` fails with NotFound exactly when the id is unknown and with
   * Conflict exactly when another row has the title; otherwise only that
   * row changes, and titles and ids stay unique.
   */
  lemma UpdateKeepsUnique<D>(rows: seq<Row<D>>, id: string, title: string, fields: D)
    requires UniqueIds(rows) && UniqueTitles(rows)
    ensures UpdateRow(rows, id, title, fields) == Err(NotFound) <==> !HasId(rows, id)
    ensures UpdateRow(rows, id, title, fields) == Err(Conflict) <==> HasId(rows, id) && TitleUsed(rows, title, Some(id))
    ensures UpdateRow(rows, id, title, fields).Ok? ==>
      var r := UpdateRow(rows, id, title, fields).value;
      UniqueIds(r) && UniqueTitles(r) && |r| == |rows|
      && forall i :: 0 <= i < |rows| ==> r[i] == (if rows[i].id == id then Row(id, title, fields) else rows[i])
  {
    if HasId(rows, id) && !TitleUsed(rows, title, Some(id)) {
      var r := Replace(rows, id, Row(id, title, fields));
      forall i, j | 0 <= i < j < |r| ensures r[i].id != r[j].id && r[i].title != r[j].title {
        if rows[i].id == id {
          assert r[j] == rows[j];
        } else if rows[j].id == id {
          assert r[i] == rows[i];
        }
      }
    }
  }

  /** Removing rows keeps any two remaining rows in their order, so distinctness survives. */
  lemma {:induction false} WithoutUnique<D>(rows: seq<Row<D>>, id: string)
    requires UniqueIds(rows) && UniqueTitles(rows)
    ensures UniqueIds(Without(rows, id)) && UniqueTitles(Without(rows, id))
  {
    if |rows| > 0 {
      var rest := rows[1..];
      assert UniqueIds(rest) && UniqueTitles(rest) by {
        forall i, j | 0 <= i < j < |rest| ensures rest[i].id != rest[j].id && rest[i].title != rest[j].title {
          assert rest[i] == rows[i + 1] && rest[j] == rows[j + 1];
        }
      }
      WithoutUnique(rest, id);
      var w := Without(rest, id);
      if rows[0].id != id {
        forall i, j | 0 <= i < j < |w| + 1 ensures ([rows[0]] + w)[i].id != ([rows[0]] + w)[j].id
          && ([rows[0]] + w)[i].title != ([rows[0]] + w)[j].title {
          if i == 0 {
            var x := w[j - 1];
            assert x in rest;
            var k :| 0 <= k < |rest| && rest[k] == x;
            assert rows[k + 1] == x;
          }
        }
      }
    }
  }

  /** With unique ids, `delete` removes exactly the one row with that id and keeps the rest in order and unique. */
  lemma DeleteRemovesRow<D>(rows: seq<Row<D>>, id: string, referenced: set<string>)
    requires UniqueIds(rows) && UniqueTitles(rows)
    ensures DeleteRow(rows, id, referenced) == Err(NotFound) <==> !HasId(rows, id)
    ensures DeleteRow(rows, id, referenced) == Err(ForeignKey) <==> HasId(rows, id) && id in referenced
    ensures DeleteRow(rows, id, referenced).Ok? ==>
      var r := DeleteRow(rows, id, referenced).value;
      UniqueIds(r) && UniqueTitles(r) && !HasId(r, id)
      && (forall i :: 0 <= i < |r| ==> r[i] in rows)
      && forall i :: 0 <= i < |rows| && rows[i].id != id ==> rows[i] in r
  {
    if HasId(rows, id) && id !in referenced {
      WithoutUnique(rows, id);
    }
  }

  /**
   * One of the title-checked tables (building, position, department,
   * equipment, audience type); `D` holds the DTO fields besides the title.
   */
  class TitleTable<D> {
    var rows: seq<Row<D>>

    constructor(initial: seq<Row<D>>)
      ensures rows == initial
    {
      rows := initial;
    }

    method GetById(id: string) returns (r: Result<Row<D>>)
      ensures r == GetRow(rows, id)
    {
      var found := Find(rows, id);
      r := if found.None? then Err(NotFound) else Ok(found.value);
    }

    /** `getAll`: the rows as the table lists them. */
    method GetAll() returns (all: seq<Row<D>>)
      ensures all == rows
    {
      all := rows;
    }

    method Create(id: string, title: string, fields: D) returns (r: Result<Row<D>>)
      modifies this
      ensures CreateRow(old(rows), id, title, fields).Err? ==>
        r == Err(Conflict) && rows == old(rows)
      ensures CreateRow(old(rows), id, title, fields).Ok? ==>
        r == Ok(Row(id, title, fields)) && rows == CreateRow(old(rows), id, title, fields).value
    {
      if TitleUsed(rows, title, None) {
        r := Err(Conflict);
      } else {
        var row := Row(id, title, fields);
        rows := rows + [row];
        r := Ok(row);
      }
    }

    method Update(id: string, title: string, fields: D) returns (r: Result<Row<D>>)
      modifies this
      ensures UpdateRow(old(rows), id, title, fields).Err? ==>
        r == Err(UpdateRow(old(rows), id, title, fields).error) && rows == old(rows)
      ensures UpdateRow(old(rows), id, title, fields).Ok? ==>
        r == Ok(Row(id, title, fields)) && rows == UpdateRow(old(rows), id, title, fields).value
    {
      if Find(rows, id).None? {
        r := Err(NotFound);
      } else if TitleUsed(rows, title, Some(id)) {
        r := Err(Conflict);
      } else {
        var row := Row(id, title, fields);
        rows := Replace(rows, id, row);
        r := Ok(row);
      }
    }

    /** `delete`, with `referenced` the ids rows of other tables still refer to; the success message is not modelled. */
    method Delete(id: string, referenced: set<string>) returns (r: Result<()>)
      modifies this
      ensures DeleteRow(old(rows), id, referenced).Err? ==>
        r == Err(DeleteRow(old(rows), id, referenced).error) && rows == old(rows)
      ensures DeleteRow(old(rows), id, referenced).Ok? ==> r == Ok(()) && rows == DeleteRow(old(rows), id, referenced).value
    {
      if Find(rows, id).None? {
        r := Err(NotFound);
      } else if id in referenced {
        r := Err(ForeignKey);
      } else {
        rows := Without(rows, id);
        r := Ok(());
      }
    }
  }

  // ---------------------------------------------------------------- groups

  /** A group's fields besides the title: the student count `update` writes, and the fields it keeps. */
  datatype GroupFields<E> = GroupFields(countStudents: int, rest: E)

  /** The group service's `update`: NotFound for an unknown id; title and student count written, nothing checked. */
  function UpdateGroup<E>(rows: seq<Row<GroupFields<E>>>, id: string, title: string, countStudents: int): Result<seq<Row<GroupFields<E>>>>
  {
    match Find(rows, id)
    case None => Err(NotFound)
    case Some(g) => Ok(Replace(rows, id, Row(id, title, GroupFields(countStudents, g.fields.rest))))
  }

  /** The group `update` never reports a conflict: it fails exactly when the id is unknown, and keeps the fields it does not write. */
  lemma UpdateGroupSpec<E>(rows: seq<Row<GroupFields<E>>>, id: string, title: string, countStudents: int)
    requires UniqueIds(rows)
    ensures UpdateGroup(rows, id, title, countStudents).Err? <==> !HasId(rows, id)
    ensures UpdateGroup(rows, id, title, countStudents).Err? ==> UpdateGroup(rows, id, title, countStudents).error == NotFound
    ensures UpdateGroup(rows, id, title, countStudents).Ok? ==>
      var r := UpdateGroup(rows, id, title, countStudents).value;
      |r| == |rows| && forall i :: 0 <= i < |rows| ==>
        if rows[i].id == id then r[i] == Row(id, title, GroupFields(countStudents, rows[i].fields.rest))
        else r[i] == rows[i]
  {
    match Find(rows, id)
    case None =>
    case Some(g) =>
      forall i | 0 <= i < |rows| && rows[i].id == id ensures rows[i] == g {
        var k :| 0 <= k < |rows| && rows[k] == g;
        assert !(k < i && rows[k].id != rows[i].id);
      }
  }

  /** Renaming a group to another group's title succeeds and leaves two groups with that title. */
  lemma UpdateGroupDuplicates()
    ensures var rows := [Row("g1", "ИВТ-21", GroupFields(25, ())), Row("g2", "ИВТ-22", GroupFields(24, ()))];
      UniqueTitles(rows)
      && UpdateGroup(rows, "g2", "ИВТ-21", 24).Ok?
      && !UniqueTitles(UpdateGroup(rows, "g2", "ИВТ-21", 24).value)
  {
    var rows := [Row("g1", "ИВТ-21", GroupFields(25, ())), Row("g2", "ИВТ-22", GroupFields(24, ()))];
    assert "ИВТ-21"[5] != "ИВТ-22"[5];
    assert rows[0].id != "g2" by { assert "g1"[1] != "g2"[1]; }
    var r := UpdateGroup(rows, "g2", "ИВТ-21", 24).value;
    assert r[0].title == r[1].title;
  }

  /** The group `update` with the title check the other services make: NotFound, then Conflict, then the write. */
  function UpdateGroupChecked<E>(rows: seq<Row<GroupFields<E>>>, id: string, title: string, countStudents: int): Result<seq<Row<GroupFields<E>>>>
  {
    if TitleUsed(rows, title, Some(id)) && HasId(rows, id) then Err(Conflict)
    else UpdateGroup(rows, id, title, countStudents)
  }

  /** The checked group `update` keeps group titles unique. */
  lemma UpdateGroupCheckedUnique<E>(rows: seq<Row<GroupFields<E>>>, id: string, title: string, countStudents: int)
    requires UniqueIds(rows) && UniqueTitles(rows)
    ensures UpdateGroupChecked(rows, id, title, countStudents) == Err(Conflict) <==> HasId(rows, id) && TitleUsed(rows, title, Some(id))
    ensures UpdateGroupChecked(rows, id, title, countStudents).Ok? ==>
      UniqueTitles(UpdateGroupChecked(rows, id, title, countStudents).value)
  {
    if HasId(rows, id) && !TitleUsed(rows, title, Some(id)) {
      var g := Find(rows, id).value;
      UpdateKeepsUnique(rows, id, title, GroupFields(countStudents, g.fields.rest));
    }
  }

  // ---------------------------------------------------------------- audiences

  /** An audience row's fields besides its title. */
  datatype AudienceFields = AudienceFields(audienceTypeId: string, buildingId: string, capacity: int, additionalInfo: Option<string>)

  /** One `audienceEquipment` row. */
  datatype EquipmentLink = EquipmentLink(audienceId: string, equipmentId: string)

  /** The audience table, its equipment links, and the equipment table the links point into. */
  datatype Audiences<Q> = Audiences(rows: seq<Row<AudienceFields>>, links: seq<EquipmentLink>, equipment: seq<Row<Q>>)

  /** The ids of the building and audience-type tables, which an audience row refers to. */
  datatype AudienceRefs = AudienceRefs(buildingIds: set<string>, audienceTypeIds: set<string>)

  /** Every equipment id names an equipment row. */
  predicate EquipmentKnown<Q>(db: Audiences<Q>, ids: seq<string>)
  {
    forall k :: 0 <= k < |ids| ==> HasId(db.equipment, ids[k])
  }

  /** The rows a new audience refers to exist. */
  predicate CreateRefsKnown<Q>(db: Audiences<Q>, refs: AudienceRefs, fields: AudienceFields, equipmentIds: seq<string>)
  {
    fields.buildingId in refs.buildingIds && fields.audienceTypeId in refs.audienceTypeIds
    && EquipmentKnown(db, equipmentIds)
  }

  /** The fields of `UpdateAudienceDto`, each optional. */
  datatype AudiencePatch = AudiencePatch(title: Option<string>, audienceTypeId: Option<string>, buildingId: Option<string>,
                                         capacity: Option<int>, additionalInfo: Option<string>, equipmentIds: Option<seq<string>>)

  function LinksFor(audienceId: string, equipmentIds: seq<string>): (r: seq<EquipmentLink>)
    ensures |r| == |equipmentIds|
    ensures forall i :: 0 <= i < |r| ==> r[i] == EquipmentLink(audienceId, equipmentIds[i])
  {
    seq(|equipmentIds|, i requires 0 <= i < |equipmentIds| => EquipmentLink(audienceId, equipmentIds[i]))
  }

  /** `deleteMany({ where: { audienceId } })` on the links. */
  function UnlinkAll(links: seq<EquipmentLink>, audienceId: string): (r: seq<EquipmentLink>)
    ensures forall l :: l in r <==> l in links && l.audienceId != audienceId
  {
    if |links| == 0 then []
    else (if links[0].audienceId != audienceId then [links[0]] else []) + UnlinkAll(links[1..], audienceId)
  }

  /** The equipment ids linked to an audience, in link order. */
  function LinkedIds(links: seq<EquipmentLink>, audienceId: string): (r: seq<string>)
    ensures forall e :: e in r <==> EquipmentLink(audienceId, e) in links
  {
    if |links| == 0 then []
    else (if links[0].audienceId == audienceId then [links[0].equipmentId] else []) + LinkedIds(links[1..], audienceId)
  }

  /** The equipment records behind a list of ids; an id without a record is skipped. */
  function Records<Q>(equipment: seq<Row<Q>>, ids: seq<string>): (r: seq<Row<Q>>)
    ensures |r| <= |ids|
    ensures forall i :: 0 <= i < |r| ==> r[i] in equipment && r[i].id in ids
  {
    if |ids| == 0 then []
    else
      var head := match Find(equipment, ids[0]) case Some(x) => [x] case None => [];
      head + Records(equipment, ids[1..])
  }

  /** `getById` with `equipment` flattened: the row and its equipment records. */
  function GetAudience<Q>(db: Audiences<Q>, id: string): Result<(Row<AudienceFields>, seq<Row<Q>>)>
  {
    match Find(db.rows, id)
    case None => Err(NotFound)
    case Some(row) => Ok((row, Records(db.equipment, LinkedIds(db.links, id))))
  }

  /**
   * `create`: Conflict when the title is taken. The row and one link per
   * listed equipment id are written in one transaction, which the database
   * rolls back when the building, the audience type or an equipment row
   * does not exist.
   */
  function CreateAudience<Q>(db: Audiences<Q>, refs: AudienceRefs, id: string, title: string, fields: AudienceFields,
                             equipmentIds: Option<seq<string>>): Result<Audiences<Q>>
  {
    if TitleUsed(db.rows, title, None) then Err(Conflict)
    else
      var ids := match equipmentIds case Some(es) => es case None => [];
      if !CreateRefsKnown(db, refs, fields, ids) then Err(ForeignKey)
      else Ok(Audiences(db.rows + [Row(id, title, fields)], db.links + LinksFor(id, ids), db.equipment))
  }

  /** The rows a patch refers to exist: each id it gives, and each equipment id when it lists them. */
  predicate PatchRefsKnown<Q>(db: Audiences<Q>, refs: AudienceRefs, patch: AudiencePatch)
  {
    (patch.buildingId.Some? ==> patch.buildingId.value in refs.buildingIds)
    && (patch.audienceTypeId.Some? ==> patch.audienceTypeId.value in refs.audienceTypeIds)
    && (patch.equipmentIds.Some? ==> EquipmentKnown(db, patch.equipmentIds.value))
  }

  /**
   * `update`: NotFound for an unknown id; each field the patch gives, or the
   * old one; the links replaced when ids are given. The writes form one
   * transaction, rolled back when the patch names a missing row.
   */
  function UpdateAudience<Q>(db: Audiences<Q>, refs: AudienceRefs, id: string, patch: AudiencePatch): Result<Audiences<Q>>
  {
    match Find(db.rows, id)
    case None => Err(NotFound)
    case Some(prev) =>
      if !PatchRefsKnown(db, refs, patch) then Err(ForeignKey) else
      var f := prev.fields;
      var row := Row(id, patch.title.GetOr(prev.title),
        AudienceFields(patch.audienceTypeId.GetOr(f.audienceTypeId), patch.buildingId.GetOr(f.buildingId),
                       patch.capacity.GetOr(f.capacity),
                       if patch.additionalInfo.Some? then patch.additionalInfo else f.additionalInfo));
      var links := match patch.equipmentIds
        case None => db.links
        case Some(es) => UnlinkAll(db.links, id) + LinksFor(id, es);
      Ok(Audiences(Replace(db.rows, id, row), links, db.equipment))
  }

  /**
   * `delete`: NotFound for an unknown id; the transaction is rolled back
   * when other rows still refer to the audience (`referenced`); otherwise
   * the audience's links and its row removed.
   */
  function DeleteAudience<Q>(db: Audiences<Q>, id: string, referenced: set<string>): Result<Audiences<Q>>
  {
    if !HasId(db.rows, id) then Err(NotFound)
    else if id in referenced then Err(ForeignKey)
    else Ok(Audiences(Without(db.rows, id), UnlinkAll(db.links, id), db.equipment))
  }

  /** `getAll` with `equipment` flattened: every row, in table order, with its equipment records. */
  function GetAllAudiences<Q>(db: Audiences<Q>): (r: seq<(Row<AudienceFields>, seq<Row<Q>>)>)
    ensures |r| == |db.rows|
    ensures forall i :: 0 <= i < |r| ==> r[i].0 == db.rows[i]
  {
    seq(|db.rows|, i requires 0 <= i < |db.rows| => (db.rows[i], Records(db.equipment, LinkedIds(db.links, db.rows[i].id))))
  }

  /** With unique ids, each entry of `getAll` is what `getById` returns for its row. */
  lemma GetAllAgreesWithGetById<Q>(db: Audiences<Q>)
    requires UniqueIds(db.rows)
    ensures forall i :: 0 <= i < |db.rows| ==> GetAudience(db, db.rows[i].id) == Ok(GetAllAudiences(db)[i])
  {
    forall i | 0 <= i < |db.rows| ensures GetAudience(db, db.rows[i].id) == Ok(GetAllAudiences(db)[i]) {
      var found := Find(db.rows, db.rows[i].id).value;
      var k :| 0 <= k < |db.rows| && db.rows[k] == found;
      assert k == i;
    }
  }

  /**
   * `create` fails with Conflict exactly when the title is taken, and with
   * a rolled-back transaction exactly when a referenced row is missing;
   * otherwise the created audience is linked to exactly the listed
   * equipment, in order, and no other audience's links change.
   */
  lemma CreateAudienceLinks<Q>(db: Audiences<Q>, refs: AudienceRefs, id: string, title: string, fields: AudienceFields,
                               equipmentIds: Option<seq<string>>)
    requires forall l :: l in db.links ==> l.audienceId != id
    ensures var r := CreateAudience(db, refs, id, title, fields, equipmentIds);
      (r == Err(Conflict) <==> TitleUsed(db.rows, title, None))
      && (r == Err(ForeignKey) <==>
            !TitleUsed(db.rows, title, None) && !CreateRefsKnown(db, refs, fields, equipmentIds.GetOr([])))
    ensures CreateAudience(db, refs, id, title, fields, equipmentIds).Ok? ==>
      var after := CreateAudience(db, refs, id, title, fields, equipmentIds).value;
      after.rows == db.rows + [Row(id, title, fields)]
      && LinkedIds(after.links, id) == (match equipmentIds case Some(es) => es case None => [])
      && forall a :: a != id ==> LinkedIds(after.links, a) == LinkedIds(db.links, a)
  {
    var ids := match equipmentIds case Some(es) => es case None => [];
    assert ids == equipmentIds.GetOr([]);
    if !TitleUsed(db.rows, title, None) && CreateRefsKnown(db, refs, fields, ids) {
      LinkedIdsAppend(db.links, LinksFor(id, ids), id);
      LinkedIdsNone(db.links, id);
      LinkedIdsOwn(id, ids);
      forall a | a != id ensures LinkedIds(db.links + LinksFor(id, ids), a) == LinkedIds(db.links, a) {
        LinkedIdsAppend(db.links, LinksFor(id, ids), a);
        LinkedIdsOther(id, ids, a);
      }
    }
  }

  lemma {:induction false} LinkedIdsAppend(a: seq<EquipmentLink>, b: seq<EquipmentLink>, id: string)
    ensures LinkedIds(a + b, id) == LinkedIds(a, id) + LinkedIds(b, id)
  {
    if |a| > 0 {
      assert (a + b)[1..] == a[1..] + b;
      LinkedIdsAppend(a[1..], b, id);
    } else {
      assert a + b == b;
    }
  }

  lemma {:induction false} LinkedIdsNone(links: seq<EquipmentLink>, id: string)
    requires forall l :: l in links ==> l.audienceId != id
    ensures LinkedIds(links, id) == []
  {
    if |links| > 0 {
      assert links[0] in links;
      assert forall l :: l in links[1..] ==> l in links;
      LinkedIdsNone(links[1..], id);
    }
  }

  lemma {:induction false} LinkedIdsOwn(id: string, ids: seq<string>)
    ensures LinkedIds(LinksFor(id, ids), id) == ids
  {
    if |ids| > 0 {
      assert LinksFor(id, ids)[1..] == LinksFor(id, ids[1..]);
      LinkedIdsOwn(id, ids[1..]);
      assert [ids[0]] + ids[1..] == ids;
    }
  }

  lemma {:induction false} LinkedIdsOther(id: string, ids: seq<string>, a: string)
    requires a != id
    ensures LinkedIds(LinksFor(id, ids), a) == []
  {
    if |ids| > 0 {
      assert LinksFor(id, ids)[1..] == LinksFor(id, ids[1..]);
      LinkedIdsOther(id, ids[1..], a);
    }
  }

  /** Removing an audience's links leaves it none and keeps every other audience's links in order. */
  lemma {:induction false} UnlinkAllIds(links: seq<EquipmentLink>, id: string, a: string)
    ensures LinkedIds(UnlinkAll(links, id), a) == if a == id then [] else LinkedIds(links, a)
  {
    if |links| > 0 {
      UnlinkAllIds(links[1..], id, a);
      var head := if links[0].audienceId != id then [links[0]] else [];
      LinkedIdsAppend(head, UnlinkAll(links[1..], id), a);
    }
  }

  /**
   * `update` links exactly the given equipment ids when they are given (an
   * empty list clears the links) and leaves the links alone otherwise;
   * other audiences keep theirs.
   */
  lemma UpdateAudienceLinks<Q>(db: Audiences<Q>, refs: AudienceRefs, id: string, patch: AudiencePatch)
    ensures UpdateAudience(db, refs, id, patch) == Err(NotFound) <==> !HasId(db.rows, id)
    ensures UpdateAudience(db, refs, id, patch) == Err(ForeignKey) <==> HasId(db.rows, id) && !PatchRefsKnown(db, refs, patch)
    ensures UpdateAudience(db, refs, id, patch).Ok? ==>
      var after := UpdateAudience(db, refs, id, patch).value;
      LinkedIds(after.links, id) == (match patch.equipmentIds case Some(es) => es case None => LinkedIds(db.links, id))
      && forall a :: a != id ==> LinkedIds(after.links, a) == LinkedIds(db.links, a)
  {
    if HasId(db.rows, id) && PatchRefsKnown(db, refs, patch) && patch.equipmentIds.Some? {
      var es := patch.equipmentIds.value;
      var rest := UnlinkAll(db.links, id);
      LinkedIdsAppend(rest, LinksFor(id, es), id);
      UnlinkAllIds(db.links, id, id);
      LinkedIdsOwn(id, es);
      forall a | a != id ensures LinkedIds(rest + LinksFor(id, es), a) == LinkedIds(db.links, a) {
        LinkedIdsAppend(rest, LinksFor(id, es), a);
        UnlinkAllIds(db.links, id, a);
        LinkedIdsOther(id, es, a);
      }
    }
  }

  /** Each field of the updated row is the patch's value when given, the old value otherwise. */
  lemma UpdateAudienceFields<Q>(db: Audiences<Q>, refs: AudienceRefs, id: string, patch: AudiencePatch)
    requires UniqueIds(db.rows)
    ensures UpdateAudience(db, refs, id, patch).Ok? ==>
      var before := Find(db.rows, id).value;
      var after := Find(UpdateAudience(db, refs, id, patch).value.rows, id);
      after.Some?
      && after.value.title == (if patch.title.Some? then patch.title.value else before.title)
      && after.value.fields.capacity == (if patch.capacity.Some? then patch.capacity.value else before.fields.capacity)
      && after.value.fields.buildingId == (if patch.buildingId.Some? then patch.buildingId.value else before.fields.buildingId)
      && after.value.fields.audienceTypeId == (if patch.audienceTypeId.Some? then patch.audienceTypeId.value else before.fields.audienceTypeId)
      && after.value.fields.additionalInfo == (if patch.additionalInfo.Some? then patch.additionalInfo else before.fields.additionalInfo)
  {
    if HasId(db.rows, id) && PatchRefsKnown(db, refs, patch) {
      var before := Find(db.rows, id).value;
      var rows := UpdateAudience(db, refs, id, patch).value.rows;
      var k :| 0 <= k < |db.rows| && db.rows[k] == before;
      assert rows[k].id == id;
      assert HasId(rows, id);
      var after := Find(rows, id).value;
      var j :| 0 <= j < |rows| && rows[j] == after;
    }
  }

  /** `delete` removes the row and every link of that audience, and keeps every other audience's links. */
  lemma DeleteAudienceSpec<Q>(db: Audiences<Q>, id: string, referenced: set<string>)
    ensures DeleteAudience(db, id, referenced) == Err(NotFound) <==> !HasId(db.rows, id)
    ensures DeleteAudience(db, id, referenced) == Err(ForeignKey) <==> HasId(db.rows, id) && id in referenced
    ensures DeleteAudience(db, id, referenced).Ok? ==>
      var after := DeleteAudience(db, id, referenced).value;
      !HasId(after.rows, id) && LinkedIds(after.links, id) == []
      && (forall i :: 0 <= i < |after.rows| ==> after.rows[i] in db.rows)
      && (forall i :: 0 <= i < |db.rows| && db.rows[i].id != id ==> db.rows[i] in after.rows)
      && forall a :: a != id ==> LinkedIds(after.links, a) == LinkedIds(db.links, a)
  {
    if HasId(db.rows, id) && id !in referenced {
      UnlinkAllIds(db.links, id, id);
      forall a | a != id ensures LinkedIds(UnlinkAll(db.links, id), a) == LinkedIds(db.links, a) {
        UnlinkAllIds(db.links, id, a);
      }
    }
  }

  /** `update` does not check the title either: renaming an audience to a taken title succeeds. */
  lemma UpdateAudienceDuplicates()
    ensures var rows := [Row("a1", "101", AudienceFields("t", "b", 30, None)), Row("a2", "102", AudienceFields("t", "b", 30, None))];
      var db: Audiences<()> := Audiences(rows, [], []);
      var refs := AudienceRefs({}, {});
      var patch := AudiencePatch(Some("101"), None, None, None, None, None);
      UniqueTitles(rows) && UpdateAudience(db, refs, "a2", patch).Ok?
      && !UniqueTitles(UpdateAudience(db, refs, "a2", patch).value.rows)
  {
    var rows := [Row("a1", "101", AudienceFields("t", "b", 30, None)), Row("a2", "102", AudienceFields("t", "b", 30, None))];
    assert "101"[2] != "102"[2];
    assert rows[0].id != "a2" by { assert "a1"[1] != "a2"[1]; }
    var db: Audiences<()> := Audiences(rows, [], []);
    var refs := AudienceRefs({}, {});
    var patch := AudiencePatch(Some("101"), None, None, None, None, None);
    var r := UpdateAudience(db, refs, "a2", patch).value.rows;
    assert r[0].title == r[1].title;
  }

  /** `update` with the title check the other services make. */
  function UpdateAudienceChecked<Q>(db: Audiences<Q>, refs: AudienceRefs, id: string, patch: AudiencePatch): Result<Audiences<Q>>
  {
    if HasId(db.rows, id) && patch.title.Some? && TitleUsed(db.rows, patch.title.value, Some(id)) then Err(Conflict)
    else UpdateAudience(db, refs, id, patch)
  }

  /** The checked audience `update` keeps titles unique. */
  lemma UpdateAudienceCheckedUnique<Q>(db: Audiences<Q>, refs: AudienceRefs, id: string, patch: AudiencePatch)
    requires UniqueIds(db.rows) && UniqueTitles(db.rows)
    ensures UpdateAudienceChecked(db, refs, id, patch).Ok? ==> UniqueTitles(UpdateAudienceChecked(db, refs, id, patch).value.rows)
  {
    if HasId(db.rows, id) && PatchRefsKnown(db, refs, patch) && !(patch.title.Some? && TitleUsed(db.rows, patch.title.value, Some(id))) {
      var before := Find(db.rows, id).value;
      var title := patch.title.GetOr(before.title);
      var f := before.fields;
      var fields := AudienceFields(patch.audienceTypeId.GetOr(f.audienceTypeId), patch.buildingId.GetOr(f.buildingId),
                       patch.capacity.GetOr(f.capacity),
                       if patch.additionalInfo.Some? then patch.additionalInfo else f.additionalInfo);
      if patch.title.None? {
        var k :| 0 <= k < |db.rows| && db.rows[k] == before;
        forall i | 0 <= i < |db.rows| && db.rows[i].id != id ensures db.rows[i].title != title {
          assert i != k;
        }
      }
      UpdateKeepsUnique(db.rows, id, title, fields);
    }
  }
}
