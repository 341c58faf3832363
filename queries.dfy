/**
 * The read side of the store as functions of the two tables: `find` (with
 * and without `expect_one`), `lookup`, `get_by_id` and `list`. Each runs one
 * join and projects its rows; the contracts say which records come back and,
 * for tables in the store's invariant, what each record holds. The methods of
 * Store.Store compute the same results with the projection loop.
 */
module Queries {
  import opened Wrappers
  import opened Json
  import opened Errors
  import opened Tables
  import opened Projection

  /** The filter of `find(key, value)`: values are compared as stored, that
      is as JSON text. */
  function ByValue(key: string, value: Json): Filter {
    WithValue(key, Encode(value))
  }

  /** The tables as the store keeps them, as far as the projection depends on
      it. */
  predicate Sound(things: seq<Thing>, props: seq<Prop>) {
    UniqueIds(things) && NoReserved(props)
  }

  /** `find(key, value)`: one record for every thing of this type that has a
      property `key` holding `value`, and for sound tables that record is the
      thing's view. */
  function Find(k: Kind, things: seq<Thing>, props: seq<Prop>, key: string, value: Json, internal: bool)
    : (r: map<int, Entity>)
    ensures r.Keys == SelectedIds(things, props, k.name, ByValue(key, value))
    ensures r.Keys == set t | t in things && t.kind == k.name && HasRow(props, t.id, key, Encode(value)) :: t.id
    ensures Sound(things, props) ==> r == Views(k, r.Keys, props, internal)
  {
    var f := ByValue(key, value);
    JoinTids(things, props, k.name, f);
    ProjectJoin(k, internal, things, props, f);
    Project(k, Join(things, props, k.name, f), internal)
  }

  /** `find(key, value, expect_one=True)`: no match is DoesNotExist, several
      are Ambigious, and otherwise the one record comes back. */
  function FindOne(k: Kind, things: seq<Thing>, props: seq<Prop>, key: string, value: Json, internal: bool)
    : (r: Result<Entity>)
    ensures var ids := SelectedIds(things, props, k.name, ByValue(key, value));
      && (r.Failure? ==> r.error == DoesNotExist || r.error == Ambigious)
      && (r == Failure(DoesNotExist) <==> ids == {})
      && (r == Failure(Ambigious) <==> |ids| > 1)
      && (r.Success? ==> |ids| == 1 && r.value in Find(k, things, props, key, value, internal).Values)
  {
    var f := ByValue(key, value);
    var rows := Join(things, props, k.name, f);
    var results := Find(k, things, props, key, value, internal);
    JoinTids(things, props, k.name, f);
    if |results| == 0 then Failure(DoesNotExist)
    else if |results| > 1 then Failure(Ambigious)
    else
      assert rows != [] by {
        var id :| id in results;
      }
      assert rows[0] in rows;
      Success(results[rows[0].tid])
  }

  /** When exactly one thing matches, FindOne yields its view. */
  lemma FindOneAt(k: Kind, things: seq<Thing>, props: seq<Prop>, key: string, value: Json, internal: bool, id: int)
    requires Sound(things, props)
    requires SelectedIds(things, props, k.name, ByValue(key, value)) == {id}
    ensures FindOne(k, things, props, key, value, internal) == Success(View(k, id, Attrs(props, id), internal))
  {
    var r := FindOne(k, things, props, key, value, internal);
    var all := Find(k, things, props, key, value, internal);
    assert all.Keys == {id};
    assert all.Values == {all[id]};
  }

  /** No two things of a type share a primary value. */
  ghost predicate PrimaryUnique(things: seq<Thing>, props: seq<Prop>, k: Kind) {
    forall text :: |SelectedIds(things, props, k.name, WithValue(k.schema.primary, text))| <= 1
  }

  /** `lookup(value)`: the record whose primary field holds `value`. It is
      DoesNotExist exactly when no thing of this type has that primary value,
      and never Ambigious while primary values are unique. */
  function Lookup(k: Kind, things: seq<Thing>, props: seq<Prop>, value: Json, internal: bool): (r: Result<Entity>)
    ensures r == Failure(DoesNotExist) <==>
      !exists t :: t in things && t.kind == k.name && HasRow(props, t.id, k.schema.primary, Encode(value))
    ensures PrimaryUnique(things, props, k) ==> r.Success? || r == Failure(DoesNotExist)
    ensures r.Success? && Sound(things, props) ==>
      exists t :: t in things && t.kind == k.name && HasRow(props, t.id, k.schema.primary, Encode(value))
                  && r.value == View(k, t.id, Attrs(props, t.id), internal)
  {
    LookupFound(k, things, props, value, internal);
    FindOne(k, things, props, k.schema.primary, value, internal)
  }

  lemma LookupFound(k: Kind, things: seq<Thing>, props: seq<Prop>, value: Json, internal: bool)
    ensures SelectedIds(things, props, k.name, ByValue(k.schema.primary, value)) == {} <==>
      !exists t :: t in things && t.kind == k.name && HasRow(props, t.id, k.schema.primary, Encode(value))
    ensures var r := FindOne(k, things, props, k.schema.primary, value, internal);
      r.Success? && Sound(things, props) ==>
        exists t :: t in things && t.kind == k.name && HasRow(props, t.id, k.schema.primary, Encode(value))
                    && r.value == View(k, t.id, Attrs(props, t.id), internal)
  {
    var f := ByValue(k.schema.primary, value);
    var ids := SelectedIds(things, props, k.name, f);
    if exists t :: t in things && t.kind == k.name && HasRow(props, t.id, k.schema.primary, Encode(value)) {
      var t :| t in things && t.kind == k.name && HasRow(props, t.id, k.schema.primary, Encode(value));
      assert t.id in ids;
    }
    var r := FindOne(k, things, props, k.schema.primary, value, internal);
    if r.Success? && Sound(things, props) {
      var id :| id in ids;
      Singleton(ids, id);
      FindOneAt(k, things, props, k.schema.primary, value, internal, id);
      var t :| t in things && Selects(f, k.name, t, props) && t.id == id;
    }
  }

  lemma Singleton(s: set<int>, x: int)
    requires |s| == 1 && x in s
    ensures s == {x}
  {
    assert |s - {x}| == 0;
    forall y | y in s ensures y == x {
      assert y !in s - {x};
    }
  }

  /** `get_by_id(id)`: the record of thing `id` if it is of this type. A
      missing thing is DoesNotExist, or None when `allow_missing`; the result
      is keyed by id, so it is never Ambigious. */
  function GetById(k: Kind, things: seq<Thing>, props: seq<Prop>, id: int, internal: bool, allowMissing: bool)
    : (r: Result<Option<Entity>>)
    ensures r.Failure? ==> r.error == DoesNotExist
    ensures r == Failure(DoesNotExist) <==> !allowMissing && !HasThing(things, id, k.name)
    ensures r == Success(None) <==> allowMissing && !HasThing(things, id, k.name)
    ensures r.Success? && r.value.Some? && Sound(things, props) ==> r.value.value == View(k, id, Attrs(props, id), internal)
  {
    var results := Project(k, Join(things, props, k.name, WithId(id)), internal);
    ByIdSelected(k, things, props, id, internal);
    if |results| == 0 then
      if allowMissing then Success(None) else Failure(DoesNotExist)
    else if |results| > 1 then Failure(Ambigious)
    else Success(Some(results[id]))
  }

  /** The join by id selects thing `id` alone, if it is of this type. */
  lemma ByIdSelected(k: Kind, things: seq<Thing>, props: seq<Prop>, id: int, internal: bool)
    ensures var results := Project(k, Join(things, props, k.name, WithId(id)), internal);
      && results.Keys == (if HasThing(things, id, k.name) then {id} else {})
      && |results| == (if HasThing(things, id, k.name) then 1 else 0)
      && (Sound(things, props) && HasThing(things, id, k.name) ==> results[id] == View(k, id, Attrs(props, id), internal))
  {
    var f := WithId(id);
    JoinTids(things, props, k.name, f);
    ProjectJoin(k, internal, things, props, f);
    var results := Project(k, Join(things, props, k.name, f), internal);
    if HasThing(things, id, k.name) {
      var t :| t in things && t.id == id && t.kind == k.name;
      assert id in SelectedIds(things, props, k.name, f);
    }
    assert results.Keys == (if HasThing(things, id, k.name) then {id} else {});
    assert |results| == |results.Keys|;
  }

  /** `list()`: one record for every thing of this type. */
  function List(k: Kind, things: seq<Thing>, props: seq<Prop>, internal: bool): (r: map<int, Entity>)
    ensures r.Keys == set t | t in things && t.kind == k.name :: t.id
    ensures Sound(things, props) ==> r == Views(k, r.Keys, props, internal)
  {
    JoinTids(things, props, k.name, Every);
    ProjectJoin(k, internal, things, props, Every);
    Project(k, Join(things, props, k.name, Every), internal)
  }
}
