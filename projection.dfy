/**
 * `_reformat`: how the rows of the LEFT JOIN become records. Fold is the
 * row-by-row loop (the method Store.Reformat performs it in place); View is
 * the record of one thing stated directly from its attributes, and FoldJoin
 * proves that folding the rows of a join yields exactly the views of the
 * selected things.
 */
module Projection {
  import opened Wrappers
  import opened Json
  import opened Validation
  import opened Tables

  /** One record as the store hands it out: its fields, plus `id` and, for a
      type with a REST template, `href`. */
  type Entity = map<string, Json>

  /** A record type (a subclass of Base): its TYPE, its FIELDS and its REST
      template. Formatting the template with Python's `%` is `render`. */
  datatype Kind = Kind(name: string, schema: Schema, rest: Option<string>, render: (string, Json) -> string)

  /** Private and hidden fields are shown to internal callers only. */
  predicate Visible(s: Schema, internal: bool, key: string) {
    internal || (key !in s.private && key !in s.hidden)
  }

  /** A name a record may carry: one of the two the projection adds, or a
      visible field. */
  predicate Shown(k: Kind, internal: bool, key: string) {
    key == "id" || key == "href" || Visible(k.schema, internal, key)
  }

  /** The link of a record whose primary value is `v`. */
  function Href(k: Kind, v: Json): Json
    requires k.rest.Some?
  {
    Str(k.render(k.rest.value, v))
  }

  /** One iteration of the loop over the joined rows. */
  function Absorb(k: Kind, internal: bool, results: map<int, Entity>, row: Row): map<int, Entity> {
    results[row.tid := Entry(k, internal, if row.tid in results then results[row.tid] else map[], row)]
  }

  /** The record of `row.tid` after its row: the id, the row's attribute if
      it is visible, and the link if the attribute is the primary field. */
  function Entry(k: Kind, internal: bool, prev: Entity, row: Row): Entity {
    var entry := prev["id" := Num(row.tid)];
    match row.cell
    case None => entry
    case Some((key, text)) =>
      var shown := if Visible(k.schema, internal, key) then entry[key := Dec(text)] else entry;
      if k.rest.Some? && key == k.schema.primary then shown["href" := Href(k, Dec(text))] else shown
  }

  /** The attributes after one more joined row: the row's property, if it
      has one, overrides `attrs`. */
  function Extended(attrs: map<string, Json>, row: Row): map<string, Json> {
    match row.cell
    case None => attrs
    case Some((key, text)) => attrs[key := Dec(text)]
  }

  /** The loop over `rows`, continuing from `acc`. */
  function Fold(k: Kind, internal: bool, acc: map<int, Entity>, rows: seq<Row>): map<int, Entity>
    decreases |rows|
  {
    if rows == [] then acc
    else
      var n := |rows| - 1;
      Absorb(k, internal, Fold(k, internal, acc, rows[..n]), rows[n])
  }

  /** The loop leaves a record for every thing with a row, and no other. */
  lemma {:induction false} FoldKeys(k: Kind, internal: bool, acc: map<int, Entity>, rows: seq<Row>)
    ensures Fold(k, internal, acc, rows).Keys == acc.Keys + set row | row in rows :: row.tid
    decreases |rows|
  {
    if rows != [] {
      var n := |rows| - 1;
      FoldKeys(k, internal, acc, rows[..n]);
      assert rows == rows[..n] + [rows[n]];
    }
  }

  function Project(k: Kind, rows: seq<Row>, internal: bool): (r: map<int, Entity>)
    ensures r.Keys == set row | row in rows :: row.tid
  {
    FoldKeys(k, internal, map[], rows);
    Fold(k, internal, map[], rows)
  }

  /** The visible part of a thing's attributes. */
  function Visibles(s: Schema, internal: bool, attrs: map<string, Json>): map<string, Json> {
    map key | key in attrs && Visible(s, internal, key) :: attrs[key]
  }

  /** The record of thing `tid` with attributes `attrs`. */
  function View(k: Kind, tid: int, attrs: map<string, Json>, internal: bool): Entity {
    var withId := Visibles(k.schema, internal, attrs)["id" := Num(tid)];
    if k.rest.Some? && k.schema.primary in attrs then withId["href" := Href(k, attrs[k.schema.primary])]
    else withId
  }

  /** A record holds its id, the link rendered from its primary value (even
      when the primary field itself is hidden), and exactly the visible
      attributes. */
  lemma ViewFields(k: Kind, tid: int, attrs: map<string, Json>, internal: bool)
    ensures var e := View(k, tid, attrs, internal);
      && "id" in e && e["id"] == Num(tid)
      && (k.rest.Some? && k.schema.primary in attrs ==>
            "href" in e && e["href"] == Href(k, attrs[k.schema.primary]))
      && ("href" in e && "href" !in attrs ==> k.rest.Some? && k.schema.primary in attrs)
      && (forall key :: !Reserved(key) ==> (key in e <==> key in attrs && Visible(k.schema, internal, key)))
      && (forall key :: key in e && !Reserved(key) ==> e[key] == attrs[key])
      && (forall key :: key in e ==> Shown(k, internal, key))
  {
  }

  /** The records of the things `ids`. */
  function Views(k: Kind, ids: set<int>, props: seq<Prop>, internal: bool): (r: map<int, Entity>)
    ensures r.Keys == ids
  {
    map id | id in ids :: View(k, id, Attrs(props, id), internal)
  }

  /** Folding a concatenation folds the parts in turn. */
  lemma {:induction false} FoldAppend(k: Kind, internal: bool, acc: map<int, Entity>, a: seq<Row>, b: seq<Row>)
    ensures Fold(k, internal, acc, a + b) == Fold(k, internal, Fold(k, internal, acc, a), b)
    decreases |b|
  {
    if b == [] {
      assert a + b == a;
    } else {
      var n := |b| - 1;
      FoldAppend(k, internal, acc, a, b[..n]);
      assert (a + b)[..|a + b| - 1] == a + b[..n];
    }
  }

  /** Every record holds only names it may show. */
  predicate AllShown(k: Kind, internal: bool, results: map<int, Entity>) {
    forall id, key :: id in results && key in results[id] ==> Shown(k, internal, key)
  }

  lemma AbsorbShown(k: Kind, internal: bool, acc: map<int, Entity>, row: Row)
    requires AllShown(k, internal, acc)
    ensures AllShown(k, internal, Absorb(k, internal, acc, row))
  {
    var r := Absorb(k, internal, acc, row);
    forall id, key | id in r && key in r[id] ensures Shown(k, internal, key) {
      if id != row.tid {
        assert id in acc && r[id] == acc[id];
      }
    }
  }

  /** An external caller never sees a private or hidden field. */
  lemma {:induction false} FoldHidesPrivate(k: Kind, internal: bool, acc: map<int, Entity>, rows: seq<Row>)
    requires AllShown(k, internal, acc)
    ensures AllShown(k, internal, Fold(k, internal, acc, rows))
    decreases |rows|
  {
    if rows != [] {
      var n := |rows| - 1;
      FoldHidesPrivate(k, internal, acc, rows[..n]);
      AbsorbShown(k, internal, Fold(k, internal, acc, rows[..n]), rows[n]);
    }
  }

  lemma ProjectHidesPrivate(k: Kind, rows: seq<Row>)
    ensures var r := Project(k, rows, false);
      forall id, key :: id in r && key in r[id] ==>
        key == "id" || key == "href" || (key !in k.schema.private && key !in k.schema.hidden)
  {
    FoldHidesPrivate(k, false, map[], rows);
    var r := Project(k, rows, false);
    assert AllShown(k, false, r);
    forall id, key | id in r && key in r[id]
      ensures key == "id" || key == "href" || (key !in k.schema.private && key !in k.schema.hidden)
    {
      assert Shown(k, false, key);
    }
  }

  lemma ViewEmpty(k: Kind, tid: int, internal: bool)
    ensures View(k, tid, map[], internal) == map["id" := Num(tid)]
  {
  }

  /** Absorbing a property row adds its attribute to the record's view. */
  lemma AbsorbView(k: Kind, internal: bool, acc: map<int, Entity>, tid: int, attrs: map<string, Json>,
                   key: string, text: Text)
    requires !Reserved(key)
    requires (if tid in acc then acc[tid] else map[])["id" := Num(tid)] == View(k, tid, attrs, internal)
    ensures Absorb(k, internal, acc, Row(tid, Some((key, text))))
         == acc[tid := View(k, tid, attrs[key := Dec(text)], internal)]
  {
    var v := Dec(text);
    var before := View(k, tid, attrs, internal);
    var shown := if Visible(k.schema, internal, key) then before[key := v] else before;
    var linked := if k.rest.Some? && key == k.schema.primary then shown["href" := Href(k, v)] else shown;
    assert Absorb(k, internal, acc, Row(tid, Some((key, text)))) == acc[tid := linked];
    ViewUpdate(k, tid, attrs, internal, key, v);
  }

  /** A record that is the view of `attrs` becomes, after one more row of
      its thing, the view of `attrs` extended by that row. */
  lemma EntryExtends(k: Kind, internal: bool, prev: Entity, row: Row, attrs: map<string, Json>)
    requires row.cell.Some? ==> !Reserved(row.cell.value.0)
    requires prev["id" := Num(row.tid)] == View(k, row.tid, attrs, internal)
    ensures Entry(k, internal, prev, row) == View(k, row.tid, Extended(attrs, row), internal)
  {
    match row.cell
    case None =>
    case Some((key, text)) => ViewUpdate(k, row.tid, attrs, internal, key, Dec(text));
  }

  /** Setting a non-reserved attribute updates the view as the loop does. */
  lemma ViewUpdate(k: Kind, tid: int, attrs: map<string, Json>, internal: bool, key: string, v: Json)
    requires !Reserved(key)
    ensures var before := View(k, tid, attrs, internal);
      var shown := if Visible(k.schema, internal, key) then before[key := v] else before;
      var linked := if k.rest.Some? && key == k.schema.primary then shown["href" := Href(k, v)] else shown;
      linked == View(k, tid, attrs[key := v], internal)
  {
    var vis := Visibles(k.schema, internal, attrs);
    var m := if Visible(k.schema, internal, key) then vis[key := v] else vis;
    assert Visibles(k.schema, internal, attrs[key := v]) == m;
    var base := vis["id" := Num(tid)];
    var grown := m["id" := Num(tid)];
    assert grown == (if Visible(k.schema, internal, key) then base[key := v] else base);
    if k.rest.Some? && k.schema.primary in attrs {
      var h := Href(k, attrs[k.schema.primary]);
      assert (base["href" := h])[key := v] == base[key := v]["href" := h];
    }
  }

  /** The rows of one thing's properties fold into its view. */
  lemma {:induction false} FoldCells(k: Kind, internal: bool, acc: map<int, Entity>, props: seq<Prop>, tid: int)
    requires tid !in acc && NoReserved(props)
    ensures Cells(props, tid) == [] ==> Attrs(props, tid) == map[]
    ensures Cells(props, tid) != [] ==>
      Fold(k, internal, acc, Cells(props, tid)) == acc[tid := View(k, tid, Attrs(props, tid), internal)]
    decreases |props|
  {
    if props != [] {
      var n := |props| - 1;
      var pre := props[..n];
      var p := props[n];
      assert forall q :: q in pre ==> q in props;
      assert p in props;
      FoldCells(k, internal, acc, pre, tid);
      if p.thingId == tid {
        FoldCellsStep(k, internal, acc, props, tid);
      } else {
        assert Cells(props, tid) == Cells(pre, tid);
        assert Attrs(props, tid) == Attrs(pre, tid);
      }
    }
  }

  lemma FoldCellsStep(k: Kind, internal: bool, acc: map<int, Entity>, props: seq<Prop>, tid: int)
    requires props != [] && tid !in acc
    requires props[|props| - 1].thingId == tid && !Reserved(props[|props| - 1].key)
    requires Cells(props[..|props| - 1], tid) == [] ==> Attrs(props[..|props| - 1], tid) == map[]
    requires Cells(props[..|props| - 1], tid) != [] ==>
      Fold(k, internal, acc, Cells(props[..|props| - 1], tid))
        == acc[tid := View(k, tid, Attrs(props[..|props| - 1], tid), internal)]
    ensures Cells(props, tid) != []
    ensures Fold(k, internal, acc, Cells(props, tid)) == acc[tid := View(k, tid, Attrs(props, tid), internal)]
  {
    var pre := props[..|props| - 1];
    var p := props[|props| - 1];
    CellsSnoc(props, tid);
    FoldCell(k, internal, acc, Cells(pre, tid), tid, Attrs(pre, tid), p.key, p.value);
  }

  /** One more row of a thing whose earlier rows folded into the view of
      `attrs` folds into the view of `attrs` with that row's attribute. */
  lemma FoldCell(k: Kind, internal: bool, acc: map<int, Entity>, cells: seq<Row>, tid: int,
                 attrs: map<string, Json>, key: string, text: Text)
    requires tid !in acc && !Reserved(key)
    requires cells == [] ==> attrs == map[]
    requires cells != [] ==> Fold(k, internal, acc, cells) == acc[tid := View(k, tid, attrs, internal)]
    ensures Fold(k, internal, acc, cells + [Row(tid, Some((key, text)))])
         == acc[tid := View(k, tid, attrs[key := Dec(text)], internal)]
  {
    var row := Row(tid, Some((key, text)));
    var mid := Fold(k, internal, acc, cells);
    var after := View(k, tid, attrs[key := Dec(text)], internal);
    FoldSnoc(k, internal, acc, cells, row);
    EntryView(k, internal, acc, cells, tid, attrs);
    AbsorbView(k, internal, mid, tid, attrs, key, text);
    if cells == [] {
      assert mid == acc;
    } else {
      assert mid[tid := after] == acc[tid := after];
    }
  }

  lemma FoldSnoc(k: Kind, internal: bool, acc: map<int, Entity>, rows: seq<Row>, row: Row)
    ensures Fold(k, internal, acc, rows + [row]) == Absorb(k, internal, Fold(k, internal, acc, rows), row)
  {
    assert (rows + [row])[..|rows|] == rows;
  }

  /** The loop over the first `i + 1` rows is the loop over the first `i`
      followed by row `i`. */
  lemma FoldPrefix(k: Kind, internal: bool, rows: seq<Row>, i: nat)
    requires i < |rows|
    ensures Fold(k, internal, map[], rows[..i + 1]) == Absorb(k, internal, Fold(k, internal, map[], rows[..i]), rows[i])
  {
    assert rows[..i + 1] == rows[..i] + [rows[i]];
    FoldSnoc(k, internal, map[], rows[..i], rows[i]);
  }

  /** Before a thing's next row, its entry with the id set is the view of the
      attributes so far. */
  lemma EntryView(k: Kind, internal: bool, acc: map<int, Entity>, cells: seq<Row>, tid: int,
                  attrs: map<string, Json>)
    requires tid !in acc
    requires cells == [] ==> attrs == map[]
    requires cells != [] ==> Fold(k, internal, acc, cells) == acc[tid := View(k, tid, attrs, internal)]
    ensures var mid := Fold(k, internal, acc, cells);
      (if tid in mid then mid[tid] else map[])["id" := Num(tid)] == View(k, tid, attrs, internal)
  {
    if cells == [] {
      ViewEmpty(k, tid, internal);
    } else {
      var v := View(k, tid, attrs, internal);
      assert v["id" := Num(tid)] == v;
    }
  }

  /** The rows the join yields for one selected thing fold into its view. */
  lemma FoldRowsOf(k: Kind, internal: bool, acc: map<int, Entity>, props: seq<Prop>, tid: int)
    requires tid !in acc && NoReserved(props)
    ensures Fold(k, internal, acc, RowsOf(props, tid)) == acc[tid := View(k, tid, Attrs(props, tid), internal)]
  {
    FoldCells(k, internal, acc, props, tid);
    if Cells(props, tid) == [] {
      var rows := [Row(tid, None)];
      assert RowsOf(props, tid) == rows;
      assert rows[..0] == [];
      assert Fold(k, internal, acc, rows) == Absorb(k, internal, acc, rows[0]);
      assert Entry(k, internal, map[], rows[0]) == map["id" := Num(tid)];
      ViewEmpty(k, tid, internal);
    }
  }

  /** Folding the rows of a join yields exactly the views of the selected
      things. */
  lemma {:induction false} FoldJoin(k: Kind, internal: bool, acc: map<int, Entity>, things: seq<Thing>,
                                    props: seq<Prop>, f: Filter)
    requires UniqueIds(things) && NoReserved(props)
    requires forall t :: t in things ==> t.id !in acc
    ensures Fold(k, internal, acc, Join(things, props, k.name, f))
         == acc + Views(k, SelectedIds(things, props, k.name, f), props, internal)
    decreases |things|
  {
    if things == [] {
      assert SelectedIds(things, props, k.name, f) == {};
      assert acc + Views(k, {}, props, internal) == acc;
    } else {
      var pre := things[..|things| - 1];
      var t := things[|things| - 1];
      var own := if Selects(f, k.name, t, props) then RowsOf(props, t.id) else [];
      JoinSnoc(things, props, k.name, f);
      var ids := SelectedIds(pre, props, k.name, f);
      var mid := Fold(k, internal, acc, Join(pre, props, k.name, f));
      assert mid == acc + Views(k, ids, props, internal) by {
        assert forall u :: u in pre ==> u in things;
        FoldJoin(k, internal, acc, pre, props, f);
      }
      assert Fold(k, internal, acc, Join(things, props, k.name, f)) == Fold(k, internal, mid, own) by {
        FoldAppend(k, internal, acc, Join(pre, props, k.name, f), own);
      }
      if Selects(f, k.name, t, props) {
        assert t in things;
        FoldJoinStep(k, internal, acc, ids, props, t.id);
      } else {
        assert SelectedIds(things, props, k.name, f) == ids;
      }
    }
  }

  lemma FoldJoinStep(k: Kind, internal: bool, acc: map<int, Entity>, ids: set<int>, props: seq<Prop>, tid: int)
    requires NoReserved(props) && tid !in acc && tid !in ids
    ensures Fold(k, internal, acc + Views(k, ids, props, internal), RowsOf(props, tid))
         == acc + Views(k, ids + {tid}, props, internal)
  {
    var mid := acc + Views(k, ids, props, internal);
    FoldRowsOf(k, internal, mid, props, tid);
    MapsJoin(acc, Views(k, ids, props, internal), Views(k, ids + {tid}, props, internal), tid);
  }

  lemma MapsJoin(acc: map<int, Entity>, small: map<int, Entity>, large: map<int, Entity>, id: int)
    requires id in large && large.Keys == small.Keys + {id} && id !in small
    requires forall j :: j in small ==> small[j] == large[j]
    ensures (acc + small)[id := large[id]] == acc + large
  {
    var lhs := (acc + small)[id := large[id]];
    assert lhs.Keys == (acc + large).Keys;
    forall j | j in lhs ensures lhs[j] == (acc + large)[j] {
      if j != id && j in small {
        assert small[j] == large[j];
      }
    }
  }

  /** The records of a join, in closed form. */
  lemma ProjectJoin(k: Kind, internal: bool, things: seq<Thing>, props: seq<Prop>, f: Filter)
    ensures UniqueIds(things) && NoReserved(props) ==>
      Project(k, Join(things, props, k.name, f), internal)
        == Views(k, SelectedIds(things, props, k.name, f), props, internal)
  {
    if UniqueIds(things) && NoReserved(props) {
      FoldJoin(k, internal, map[], things, props, f);
      EmptyUnion(Views(k, SelectedIds(things, props, k.name, f), props, internal));
    }
  }

  lemma EmptyUnion(m: map<int, Entity>)
    ensures map[] + m == m
  {
  }
}
