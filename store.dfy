/**
 * The store itself: the database connection's tables as a class, and
 * `Base` as a class whose instances share one database and keep the one
 * part of their schema that changes, the `protected` list.
 */
module Store {
  import opened Wrappers
  import opened Json
  import opened Errors
  import opened Validation
  import opened Tables
  import opened Projection
  import opened Queries
  import opened Updates

  /** The loop of `check_required_fields` that drops protected fields. */
  method Strip(ps: seq<string>, fields: Fields) returns (r: Result<Fields>)
    ensures r == StripProtected(ps, fields)
  {
    var f := fields;
    var i := 0;
    while i < |ps|
      invariant 0 <= i <= |ps|
      invariant StripProtected(ps[i..], f) == StripProtected(ps, fields)
    {
      assert ps[i..][1..] == ps[i + 1..];
      if ps[i] in f {
        if ps[i] == Salt {
          return Failure(Fatal(ProtectedSalt));
        }
        f := f - {ps[i]};
      }
      i := i + 1;
    }
    return Success(f);
  }

  /** The create-mode checks of `check_required_fields`: the primary field,
      the required fields in order, then the defaults. */
  method Complete(s: Schema, fields: Fields) returns (r: Result<Fields>)
    ensures r == CreateCheck(s, fields)
  {
    if s.primary !in fields || fields[s.primary] == Null {
      return Failure(InvalidInput(MissingPrimary(s.primary)));
    }
    var j := 0;
    while j < |s.required|
      invariant 0 <= j <= |s.required|
      invariant FirstMissing(s.required[j..], fields) == FirstMissing(s.required, fields)
    {
      assert s.required[j..][1..] == s.required[j + 1..];
      if s.required[j] !in fields {
        return Failure(InvalidInput(MissingRequired(s.required[j])));
      }
      j := j + 1;
    }
    var f := fields;
    var pending := s.optional.Keys;
    while pending != {}
      invariant pending <= s.optional.Keys
      invariant f == (s.optional - pending) + fields
      decreases pending
    {
      var name :| name in pending;
      if name !in f {
        f := f[name := s.optional[name]];
      }
      pending := pending - {name};
    }
    assert s.optional - {} == s.optional;
    return Success(f);
  }

  /** The closing loop of `check_required_fields`: some field that is
      neither declared nor, for an internal caller, protected. */
  method FindUnknown(s: Schema, ps: seq<string>, internal: bool, fields: Fields) returns (r: Option<string>)
    ensures r.None? <==> Unknown(s, ps, internal, fields) == {}
    ensures r.Some? ==> r.value in Unknown(s, ps, internal, fields)
  {
    var unchecked := fields.Keys;
    while unchecked != {}
      invariant unchecked <= fields.Keys
      invariant forall name :: name in fields && name !in unchecked ==> Allowed(s, ps, internal, name)
      decreases unchecked
    {
      var name :| name in unchecked;
      if !(internal && name in ps) {
        if name !in s.required && name !in s.optional && name != s.primary {
          assert name in Unknown(s, ps, internal, fields);
          return Some(name);
        }
      }
      unchecked := unchecked - {name};
    }
    assert forall name :: name in fields ==> Allowed(s, ps, internal, name);
    return None;
  }

  /** What validation leaves: no name the store reserves and, in create
      mode, the caller's primary value. */
  lemma Validated(s: Schema, protected: seq<string>, testMode: bool, input: Fields, f: Fields,
                  edit: bool, internal: bool)
    requires SchemaOk(s) && "href" !in input
    requires Validate(s, protected, testMode, input, edit, internal) == Accepted(f)
    ensures NoReservedKeys(f)
    ensures !edit && !internal ==> s.primary in input && s.primary in f && f[s.primary] == input[s.primary]
  {
    ValidatedKeysNotReserved(s, protected, testMode, input, edit, internal);
    if !edit && !internal {
      var prepared := Prepare(protected, testMode, internal, input);
      var screened := Screen(protected, testMode, internal, input).value;
      assert screened == prepared - (set p | p in ProtectedAfter(protected, testMode, internal));
      assert s.primary in screened && f == FillDefaults(screened, s.optional);
    }
  }

  /** What `edit` returns and writes once the fields are valid: DoesNotExist
      when no thing of the type has primary value `name`, and otherwise that
      thing's writes and its record with the supplied fields applied. */
  ghost predicate EditOutcome(k: Kind, things: seq<Thing>, before: seq<Prop>, after: seq<Prop>, name: Json,
                              f: Fields, internal: bool, r: Result<Entity>) {
    var ids := SelectedIds(things, before, k.name, ByValue(k.schema.primary, name));
    && (ids == {} ==> r == Failure(DoesNotExist) && after == before)
    && (ids != {} ==>
          exists tid :: HasThing(things, tid, k.name) && ids == {tid} && Edited(before, after, tid, f)
                        && r == Success(View(k, tid, Attrs(before, tid) + f, internal)))
  }

  /** The database behind the module-wide connection, and TESTMODE. */
  class Database {
    var things: seq<Thing>
    var props: seq<Prop>
    /** The id the next inserted thing receives (`lastrowid`). */
    var nextId: int
    const testMode: bool

    ghost predicate Valid()
      reads this
    {
      Tables.Valid(things, props, nextId)
    }

    constructor(testMode: bool)
      ensures this.testMode == testMode
      ensures things == [] && props == [] && nextId == 1
      ensures Valid()
    {
      things := [];
      props := [];
      nextId := 1;
      this.testMode := testMode;
    }
  }

  /** A record type: `Base` with its TYPE, FIELDS and REST. */
  class Store {
    const db: Database
    const kind: Kind
    /** FIELDS['protected'], which test mode extends. */
    var protected: seq<string>

    /** The tables are sound and no two things of this type share a primary
        value. */
    ghost predicate Valid()
      reads db
    {
      db.Valid() && SchemaOk(kind.schema) && PrimaryUnique(db.things, db.props, kind)
    }

    constructor(db: Database, kind: Kind, protected: seq<string>)
      requires db.Valid() && SchemaOk(kind.schema) && PrimaryUnique(db.things, db.props, kind)
      ensures this.db == db && this.kind == kind && this.protected == protected
      ensures Valid()
    {
      this.db := db;
      this.kind := kind;
      this.protected := protected;
    }

    /** `check_required_fields`: returns the caller's map as the validation
        leaves it, or the error it raises. */
    method CheckRequiredFields(fields: Fields, edit: bool, internal: bool) returns (r: Result<Fields>)
      modifies this`protected
      ensures protected == ProtectedAfter(old(protected), db.testMode, internal)
      ensures Reports(Validate(kind.schema, old(protected), db.testMode, fields, edit, internal), r)
    {
      var f := fields;
      if internal && db.testMode && TestMarker !in protected {
        protected := protected + [TestMarker];
        f := f[TestMarker := Num(1)];
      }
      if "id" in f {
        f := f - {"id"};
      }
      assert f == Prepare(old(protected), db.testMode, internal, fields);
      if !internal {
        var stripped := Strip(protected, f);
        if stripped.Failure? {
          return Failure(stripped.error);
        }
        f := stripped.value;
      }
      if !edit {
        var completed := Complete(kind.schema, f);
        if completed.Failure? {
          return Failure(completed.error);
        }
        f := completed.value;
      }
      var unknown := FindUnknown(kind.schema, protected, internal, f);
      if unknown.Some? {
        return Failure(InvalidInput(UnknownField(unknown.value)));
      }
      return Success(f);
    }

    /** `_reformat`: one record per thing among the rows. */
    method Reformat(rows: seq<Row>, internal: bool) returns (results: map<int, Entity>)
      ensures results == Project(kind, rows, internal)
    {
      results := map[];
      for i := 0 to |rows|
        invariant results == Fold(kind, internal, map[], rows[..i])
      {
        var row := rows[i];
        var prev := if row.tid in results then results[row.tid] else map[];
        var entry := ReformatRow(prev, row, internal);
        FoldPrefix(kind, internal, rows, i);
        results := results[row.tid := entry];
      }
      assert rows[..|rows|] == rows;
    }

    /** The body of the `_reformat` loop: the record of `row.tid`, `prev` so
        far, with the row's id, visible attribute and link added. */
    method ReformatRow(prev: Entity, row: Row, internal: bool) returns (entry: Entity)
      ensures entry == Entry(kind, internal, prev, row)
      ensures forall attrs ::
        ((row.cell.Some? ==> !Reserved(row.cell.value.0)) && prev["id" := Num(row.tid)] == View(kind, row.tid, attrs, internal))
        ==> entry == View(kind, row.tid, Extended(attrs, row), internal)
    {
      entry := prev["id" := Num(row.tid)];
      match row.cell {
        case None =>
        case Some((key, text)) =>
          if internal || (key !in kind.schema.private && key !in kind.schema.hidden) {
            entry := entry[key := Dec(text)];
          }
          if kind.rest.Some? && key == kind.schema.primary {
            entry := entry["href" := Href(kind, Dec(text))];
          }
      }
      forall attrs | (row.cell.Some? ==> !Reserved(row.cell.value.0)) &&
        prev["id" := Num(row.tid)] == View(kind, row.tid, attrs, internal)
        ensures entry == View(kind, row.tid, Extended(attrs, row), internal)
      {
        EntryExtends(kind, internal, prev, row, attrs);
      }
    }

    /** `list()`. */
    method List(internal: bool) returns (results: map<int, Entity>)
      ensures results == Queries.List(kind, db.things, db.props, internal)
    {
      var rows := Join(db.things, db.props, kind.name, Every);
      results := Reformat(rows, internal);
    }

    /** `get_by_id(id)`. */
    method GetById(id: int, internal: bool, allowMissing: bool) returns (r: Result<Option<Entity>>)
      ensures r == Queries.GetById(kind, db.things, db.props, id, internal, allowMissing)
    {
      var rows := Join(db.things, db.props, kind.name, WithId(id));
      var results := Reformat(rows, internal);
      ByIdSelected(kind, db.things, db.props, id, internal);
      if |results| == 0 {
        if allowMissing {
          return Success(None);
        }
        return Failure(DoesNotExist);
      }
      if |results| > 1 {
        return Failure(Ambigious);
      }
      return Success(Some(results[id]));
    }

    /** `find(key, value)`. */
    method Find(key: string, value: Json, internal: bool) returns (results: map<int, Entity>)
      ensures results == Queries.Find(kind, db.things, db.props, key, value, internal)
    {
      var rows := Join(db.things, db.props, kind.name, ByValue(key, value));
      results := Reformat(rows, internal);
    }

    /** `find(key, value, expect_one=True)`. */
    method FindOne(key: string, value: Json, internal: bool) returns (r: Result<Entity>)
      ensures r == Queries.FindOne(kind, db.things, db.props, key, value, internal)
    {
      var rows := Join(db.things, db.props, kind.name, ByValue(key, value));
      var results := Reformat(rows, internal);
      if |results| == 0 {
        return Failure(DoesNotExist);
      }
      if |results| > 1 {
        return Failure(Ambigious);
      }
      JoinTids(db.things, db.props, kind.name, ByValue(key, value));
      assert rows != [] by {
        var id :| id in results;
      }
      assert rows[0] in rows;
      return Success(results[rows[0].tid]);
    }

    /** `lookup(value)`. */
    method Lookup(value: Json, internal: bool) returns (r: Result<Entity>)
      ensures r == Queries.Lookup(kind, db.things, db.props, value, internal)
    {
      r := FindOne(kind.schema.primary, value, internal);
    }

    /** The hooks are no-ops in Base; the subclasses that override them are
        not part of this model. */
    method ComputeDerivedFieldsOnAdd(name: Json, results: Entity) {
    }

    method ComputeDerivedFieldsOnEdit(name: Json, results: Entity) {
    }

    /** `_insert_kv`: one new property row. */
    method InsertKV(id: int, key: string, v: Json)
      modifies db`props
      ensures db.props == old(db.props) + [Prop(id, key, Encode(v))]
    {
      db.props := db.props + [Prop(id, key, Encode(v))];
    }

    /** `_update_kv`: every row of thing `id` named `key` gets the new value. */
    method UpdateKV(id: int, key: string, v: Json)
      modifies db`props
      ensures db.props == SetValue(old(db.props), id, key, Encode(v))
    {
      db.props := SetValue(db.props, id, key, Encode(v));
    }

    /** `add(properties)`. */
    method Add(properties: Fields, hook: bool) returns (r: Result<Entity>)
      requires Valid()
      modifies this`protected, db`things, db`props, db`nextId
      ensures Valid()
      ensures protected == old(protected)
      ensures var input := properties - {"href"};
        var c := Validate(kind.schema, old(protected), db.testMode, input, false, false);
        && (kind.schema.primary !in input ==> r == Failure(InvalidInput(MissingPrimary(kind.schema.primary))))
        && (kind.schema.primary in input && !c.Accepted? ==> Reports(c, r))
        && (kind.schema.primary in input && c.Accepted? ==>
              && kind.schema.primary in c.fields
              && var taken := SelectedIds(old(db.things), old(db.props), kind.name, ByValue(kind.schema.primary, c.fields[kind.schema.primary]));
              && (taken != {} ==> r == Failure(AlreadyExists))
              && (taken == {} ==>
                    && db.things == old(db.things) + [Thing(old(db.nextId), kind.name)]
                    && db.nextId == old(db.nextId) + 1
                    && |old(db.props)| <= |db.props|
                    && db.props[..|old(db.props)|] == old(db.props)
                    && RowsFor(db.props[|old(db.props)|..], old(db.nextId), c.fields)
                    && r == Success(View(kind, old(db.nextId), c.fields, false))))
      ensures r.Failure? ==> db.things == old(db.things) && db.props == old(db.props) && db.nextId == old(db.nextId)
    {
      var input := properties;
      if "href" in input {
        input := input - {"href"};
      }
      assert input == properties - {"href"};
      var primary := kind.schema.primary;
      if primary !in input {
        return Failure(InvalidInput(MissingPrimary(primary)));
      }
      var name := input[primary];
      var checked := CheckRequiredFields(input, false, false);
      if checked.Failure? {
        return Failure(checked.error);
      }
      var f := checked.value;
      Validated(kind.schema, old(protected), db.testMode, input, f, false, false);
      r := AddValidated(f, name, hook);
    }

    /** The rest of `add`, once the fields are valid: refuse a primary value
        already taken, then write and read back the new thing. */
    method AddValidated(f: Fields, name: Json, hook: bool) returns (r: Result<Entity>)
      requires Valid()
      requires NoReservedKeys(f) && kind.schema.primary in f
      modifies db`things, db`props, db`nextId
      ensures Valid()
      ensures var taken := SelectedIds(old(db.things), old(db.props), kind.name, ByValue(kind.schema.primary, f[kind.schema.primary]));
        && (taken != {} ==> r == Failure(AlreadyExists)
                            && db.things == old(db.things) && db.props == old(db.props) && db.nextId == old(db.nextId))
        && (taken == {} ==>
              && db.things == old(db.things) + [Thing(old(db.nextId), kind.name)]
              && db.nextId == old(db.nextId) + 1
              && |old(db.props)| <= |db.props|
              && db.props[..|old(db.props)|] == old(db.props)
              && RowsFor(db.props[|old(db.props)|..], old(db.nextId), f)
              && r == Success(View(kind, old(db.nextId), f, false)))
    {
      var primary := kind.schema.primary;
      var existing := Lookup(f[primary], false);
      if existing.Success? {
        return Failure(AlreadyExists);
      }
      // lookup raised: with unique primary values only DoesNotExist, which add catches
      assert existing.error == DoesNotExist;
      var tid := Insert(f);
      r := Lookup(f[primary], false);
      assert r == Success(View(kind, tid, f, false)) by {
        FindOneAt(kind, db.things, db.props, primary, f[primary], false, tid);
      }
      if !hook {
        ComputeDerivedFieldsOnAdd(name, r.value);
      }
    }

    /** `edit(name, properties)`. */
    method Edit(name: Json, properties: Fields, internal: bool, hook: bool) returns (r: Result<Entity>)
      requires Valid()
      modifies this`protected, db`props
      ensures Valid()
      ensures protected == ProtectedAfter(old(protected), db.testMode, internal)
      ensures var c := Validate(kind.schema, old(protected), db.testMode, properties - {"href"}, true, internal);
        && (!c.Accepted? ==> Reports(c, r) && db.props == old(db.props))
        && (c.Accepted? && kind.schema.primary in c.fields && c.fields[kind.schema.primary] != name ==>
              r == Failure(Fatal(Rename)) && db.props == old(db.props))
        && (c.Accepted? && (kind.schema.primary in c.fields ==> c.fields[kind.schema.primary] == name) ==>
              EditOutcome(kind, db.things, old(db.props), db.props, name, c.fields, internal, r))
    {
      var input := properties;
      if "href" in input {
        input := input - {"href"};
      }
      assert input == properties - {"href"};
      var checked := CheckRequiredFields(input, true, internal);
      if checked.Failure? {
        return Failure(checked.error);
      }
      var f := checked.value;
      var primary := kind.schema.primary;
      if primary in f && f[primary] != name {
        return Failure(Fatal(Rename));
      }
      Validated(kind.schema, old(protected), db.testMode, input, f, true, internal);
      r := EditValidated(name, f, internal, hook);
    }

    /** The rest of `edit`, once the fields are valid and keep the primary
        value: find the thing, then update the fields whose value differs and
        insert the ones it lacks. */
    method EditValidated(name: Json, f: Fields, internal: bool, hook: bool) returns (r: Result<Entity>)
      requires Valid()
      requires NoReservedKeys(f) && (kind.schema.primary in f ==> f[kind.schema.primary] == name)
      modifies db`props
      ensures Valid()
      ensures EditOutcome(kind, db.things, old(db.props), db.props, name, f, internal, r)
    {
      var primary := kind.schema.primary;
      var found := Lookup(name, true);
      if found.Failure? {
        // with unique primary values lookup raises DoesNotExist only
        return found;
      }
      ghost var things, before, nextId := db.things, db.props, db.nextId;
      ghost var t :| t in things && t.kind == kind.name && HasRow(before, t.id, primary, Encode(name))
                     && found.value == View(kind, t.id, Attrs(before, t.id), true);
      var current := found.value;
      ghost var attrs := Attrs(before, t.id);
      ViewFields(kind, t.id, attrs, true);
      var tid := current["id"].n;
      assert tid == t.id;
      ghost var ids := SelectedIds(things, before, kind.name, ByValue(primary, name));
      assert ids == {tid} by {
        assert tid in ids;
        Singleton(ids, tid);
      }
      assert Tables.Valid(things, before, nextId) && PrimaryUnique(things, before, kind);
      assert HasThing(things, tid, kind.name) && HasRow(before, tid, primary, Encode(name));
      Apply(tid, current, f);
      ghost var after := db.props;
      assert Edited(before, after, tid, f);
      assert db.things == things && db.nextId == nextId;
      assert Tables.Valid(things, after, nextId) && PrimaryUnique(things, after, kind)
          && SelectedIds(things, after, kind.name, ByValue(primary, name)) == {tid} by {
        EditedKeepsValid(kind, things, before, after, nextId, tid, name, f);
      }
      EditedAttrs(before, after, tid, f);
      r := Reread(name, tid, internal, hook);
    }

    /** The end of `edit`: read the thing back internally for the hook, then
        as the caller asked. */
    method Reread(name: Json, tid: int, internal: bool, hook: bool) returns (r: Result<Entity>)
      requires Sound(db.things, db.props)
      requires SelectedIds(db.things, db.props, kind.name, ByValue(kind.schema.primary, name)) == {tid}
      ensures r == Success(View(kind, tid, Attrs(db.props, tid), internal))
    {
      var refreshed := Lookup(name, true);
      assert refreshed.Success? by {
        FindOneAt(kind, db.things, db.props, kind.schema.primary, name, true, tid);
      }
      if !hook {
        ComputeDerivedFieldsOnEdit(name, refreshed.value);
      }
      r := Lookup(name, internal);
      FindOneAt(kind, db.things, db.props, kind.schema.primary, name, internal, tid);
    }

    /** `edit`'s loop over the supplied fields: `_insert_kv` for a field
        the thing lacks, `_update_kv` for one whose value differs. `current`
        is the thing's internal record, read before the loop. */
    method Apply(tid: int, current: Entity, f: Fields)
      requires forall key :: key in f ==>
        (key in current <==> key in Attrs(db.props, tid)) && (key in current ==> current[key] == Attrs(db.props, tid)[key])
      modifies db`props
      ensures Edited(old(db.props), db.props, tid, f)
      ensures db.things == old(db.things) && db.nextId == old(db.nextId)
    {
      ghost var before := db.props;
      ghost var attrs := Attrs(before, tid);
      ghost var tail: seq<Prop> := [];
      ghost var changes, additions := map[], map[];
      var pending := f.Keys;
      while pending != {}
        invariant pending <= f.Keys
        invariant changes == Changes(attrs, f - pending) && additions == Additions(attrs, f - pending)
        invariant db.props == Revalue(before, tid, changes) + tail
        invariant RowsFor(tail, tid, additions)
        decreases pending
      {
        var key :| key in pending;
        var v := f[key];
        MapGrow(f, pending, key);
        ChangesGrow(attrs, f - pending, key, v);
        if key !in current {
          RowsForSnoc(tail, tid, additions, key, v);
          InsertKV(tid, key, v);
          tail := tail + [Prop(tid, key, Encode(v))];
          additions := additions[key := v];
        } else if current[key] != v {
          RowsForOnly(tail, tid, additions, key);
          UpdateStep(before, tid, changes, tail, key, v);
          UpdateKV(tid, key, v);
          changes := changes[key := v];
        }
        pending := pending - {key};
      }
      assert f - {} == f;
      assert db.props[..|before|] == Revalue(before, tid, Changes(attrs, f)) && db.props[|before|..] == tail;
    }

    /** `delete(value)`: removes the thing row of the thing whose primary
        value is `value`; its property rows stay. Deleting a missing thing is
        not an error. */
    method Delete(value: Json) returns (r: Option<Entity>)
      requires Valid()
      modifies db`things
      ensures Valid()
      ensures db.props == old(db.props) && db.nextId == old(db.nextId)
      ensures var ids := SelectedIds(old(db.things), old(db.props), kind.name, ByValue(kind.schema.primary, value));
        && (ids == {} ==> r == None && db.things == old(db.things))
        && (ids != {} ==> r == Some(map[]) && forall t :: t in db.things <==> t in old(db.things) && t.id !in ids)
      ensures Queries.Lookup(kind, db.things, db.props, value, false) == Failure(DoesNotExist)
    {
      var found := Find(kind.schema.primary, value, false);
      ghost var ids := SelectedIds(db.things, db.props, kind.name, ByValue(kind.schema.primary, value));
      if |found| == 0 {
        assert ids == {};
        return None;
      }
      // several matches would raise Ambigious; unique primary values rule that out
      assert |found| == 1;
      var id :| id in found;
      assert ids == {id} by {
        Singleton(ids, id);
      }
      ghost var things := db.things;
      db.things := WithoutId(db.things, id);
      SelectAfterDelete(things, db.props, id, kind.name, ByValue(kind.schema.primary, value));
      DeleteKeepsValid(kind, things, db.props, db.nextId, id);
      return Some(map[]);
    }

    /** `clear_test_data()`: in test mode, removes every thing row of this
        type; property rows stay. */
    method ClearTestData() returns (r: Result<()>)
      requires Valid()
      modifies db`things
      ensures Valid()
      ensures db.props == old(db.props) && db.nextId == old(db.nextId)
      ensures !db.testMode ==> r == Failure(Fatal(NotTestMode)) && db.things == old(db.things)
      ensures db.testMode ==> r == Success(()) && forall t :: t in db.things <==> t in old(db.things) && t.kind != kind.name
      ensures db.testMode ==> Queries.List(kind, db.things, db.props, false) == map[]
    {
      if !db.testMode {
        return Failure(Fatal(NotTestMode));
      }
      ghost var things := db.things;
      db.things := WithoutKind(db.things, kind.name);
      ClearKeepsValid(kind, things, db.props, db.nextId);
      return Success(());
    }

    /** The loop of `add` that lists one `(thing_id, key, value)` row per
        property, with the value as JSON text. */
    method PropertyRows(tid: int, f: Fields) returns (inserts: seq<Prop>)
      ensures RowsFor(inserts, tid, f)
    {
      inserts := [];
      var pending := f.Keys;
      while pending != {}
        invariant pending <= f.Keys
        invariant RowsFor(inserts, tid, f - pending)
        decreases pending
      {
        var key :| key in pending;
        MapGrow(f, pending, key);
        RowsForSnoc(inserts, tid, f - pending, key, f[key]);
        inserts := inserts + [Prop(tid, key, Encode(f[key]))];
        pending := pending - {key};
      }
      assert f - {} == f;
    }

    /** `add`'s writes: a thing row with a fresh id, then one property row per
        field. */
    method Insert(f: Fields) returns (tid: int)
      requires Valid()
      requires NoReservedKeys(f) && kind.schema.primary in f
      requires SelectedIds(db.things, db.props, kind.name, ByValue(kind.schema.primary, f[kind.schema.primary])) == {}
      modifies db`things, db`props, db`nextId
      ensures Valid()
      ensures tid == old(db.nextId)
      ensures db.things == old(db.things) + [Thing(tid, kind.name)] && db.nextId == tid + 1
      ensures |old(db.props)| <= |db.props| && db.props[..|old(db.props)|] == old(db.props)
      ensures RowsFor(db.props[|old(db.props)|..], tid, f)
      ensures SelectedIds(db.things, db.props, kind.name, ByValue(kind.schema.primary, f[kind.schema.primary])) == {tid}
      ensures Attrs(db.props, tid) == f
    {
      tid := db.nextId;
      var inserts := PropertyRows(tid, f);
      ghost var things0, props0 := db.things, db.props;
      db.things, db.props, db.nextId := db.things + [Thing(tid, kind.name)], db.props + inserts, tid + 1;
      assert db.things == things0 + [Thing(tid, kind.name)] && db.props == props0 + inserts;
      assert Tables.Valid(db.things, db.props, db.nextId) && PrimaryUnique(db.things, db.props, kind)
          && SelectedIds(db.things, db.props, kind.name, ByValue(kind.schema.primary, f[kind.schema.primary])) == {tid}
          && Attrs(db.props, tid) == f by {
        AddKeepsValid(kind, things0, props0, tid, inserts, f);
      }
      Appended(props0, inserts);
    }
  }
}
