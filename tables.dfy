/**
 * The two relations every record type shares, `thing(id, type)` and
 * `properties(thing_id, key, value)`, and the relational meaning of the SQL
 * the store issues against them: the LEFT JOIN with its two kinds of filter,
 * the UPDATE of every row with a given (thing, key), and the two DELETEs.
 */
module Tables {
  import opened Wrappers
  import opened Json

  datatype Thing = Thing(id: int, kind: string)

  /** A property row. Its own row id is read only by `_update_kv`, to pick
      out the row that `(thingId, key)` already identifies; it is not
      modelled. */
  datatype Prop = Prop(thingId: int, key: string, value: Text)

  /** A row of `thing LEFT JOIN properties`: the property columns are NULL
      (None) for a thing that has no property rows. */
  datatype Row = Row(tid: int, cell: Option<(string, Text)>)

  predicate UniqueIds(things: seq<Thing>) {
    forall i, j :: 0 <= i < j < |things| ==> things[i].id != things[j].id
  }

  /** At most one row per (thing, key): an application invariant. */
  predicate UniqueKeys(props: seq<Prop>) {
    forall i, j :: 0 <= i < j < |props| && props[i].thingId == props[j].thingId ==> props[i].key != props[j].key
  }

  /** The names the projection writes itself. */
  predicate Reserved(key: string) {
    key == "id" || key == "href"
  }

  predicate NoReserved(props: seq<Prop>) {
    forall p :: p in props ==> !Reserved(p.key)
  }

  /** The invariant of the tables as the store leaves them. `nextId` stands
      for the id the next inserted thing receives. */
  predicate Valid(things: seq<Thing>, props: seq<Prop>, nextId: int) {
    && 1 <= nextId
    && UniqueIds(things)
    && (forall t :: t in things ==> t.id < nextId)
    && (forall p :: p in props ==> p.thingId < nextId && Decode(p.value).Some?)
    && NoReserved(props)
    && UniqueKeys(props)
  }

  predicate HasThing(things: seq<Thing>, id: int, kind: string) {
    exists t :: t in things && t.id == id && t.kind == kind
  }

  predicate HasRow(props: seq<Prop>, tid: int, key: string, text: Text) {
    exists p :: p in props && p.thingId == tid && p.key == key && p.value == text
  }

  /** The joined rows of one thing's properties, in table order. */
  function Cells(props: seq<Prop>, tid: int): seq<Row>
    decreases |props|
  {
    if props == [] then []
    else
      var p := props[|props| - 1];
      Cells(props[..|props| - 1], tid) + (if p.thingId == tid then [Row(tid, Some((p.key, p.value)))] else [])
  }

  /** The rows the LEFT JOIN yields for one thing. */
  function RowsOf(props: seq<Prop>, tid: int): seq<Row> {
    var cells := Cells(props, tid);
    if cells == [] then [Row(tid, None)] else cells
  }

  /** The WHERE clauses of the three SELECTs beyond `t.type = TYPE`. */
  datatype Filter =
    | Every                               // list
    | WithId(id: int)                     // get_by_id
    | WithValue(key: string, text: Text)  // find: `t.id IN (SELECT ... pp.key = ? AND pp.value = ?)`

  predicate Selects(f: Filter, kind: string, t: Thing, props: seq<Prop>) {
    t.kind == kind &&
    match f
    case Every => true
    case WithId(id) => t.id == id
    case WithValue(key, text) => HasRow(props, t.id, key, text)
  }

  /** `SELECT t.id, p.id, p.key, p.value FROM thing t LEFT JOIN properties p
      ON p.thing_id = t.id WHERE ...`, rows grouped by thing in table order. */
  function Join(things: seq<Thing>, props: seq<Prop>, kind: string, f: Filter): seq<Row>
    decreases |things|
  {
    if things == [] then []
    else
      var t := things[|things| - 1];
      Join(things[..|things| - 1], props, kind, f) + (if Selects(f, kind, t, props) then RowsOf(props, t.id) else [])
  }

  function SelectedIds(things: seq<Thing>, props: seq<Prop>, kind: string, f: Filter): set<int> {
    set t | t in things && Selects(f, kind, t, props) :: t.id
  }

  /** The decoded attributes of one thing; a later row for the same key wins,
      as it does in the projection. */
  function Attrs(props: seq<Prop>, tid: int): map<string, Json>
    decreases |props|
  {
    if props == [] then map[]
    else
      var p := props[|props| - 1];
      var a := Attrs(props[..|props| - 1], tid);
      if p.thingId == tid then a[p.key := Dec(p.value)] else a
  }

  /** `tail` holds exactly one row of thing `tid` per entry of `fields`, with
      the entry's encoded value. */
  predicate RowsFor(tail: seq<Prop>, tid: int, fields: map<string, Json>) {
    && (forall i :: 0 <= i < |tail| ==>
          tail[i].thingId == tid && tail[i].key in fields && tail[i].value == Encode(fields[tail[i].key]))
    && (forall i, j :: 0 <= i < j < |tail| ==> tail[i].key != tail[j].key)
    && (forall k :: k in fields ==> exists i :: 0 <= i < |tail| && tail[i].key == k)
  }

  /** `_update_kv`: every row of thing `tid` named `key` gets `text`. */
  function SetValue(props: seq<Prop>, tid: int, key: string, text: Text): (r: seq<Prop>)
    ensures |r| == |props|
    ensures forall i :: 0 <= i < |props| ==>
      r[i] == if props[i].thingId == tid && props[i].key == key then props[i].(value := text) else props[i]
    decreases |props|
  {
    if props == [] then []
    else
      var p := props[0];
      [if p.thingId == tid && p.key == key then p.(value := text) else p] + SetValue(props[1..], tid, key, text)
  }

  /** The rows of `props` after the updates `changes` to thing `tid`. */
  function Revalue(props: seq<Prop>, tid: int, changes: map<string, Json>): seq<Prop> {
    seq(|props|, i requires 0 <= i < |props| =>
      if props[i].thingId == tid && props[i].key in changes then props[i].(value := Encode(changes[props[i].key]))
      else props[i])
  }

  /** `DELETE FROM thing WHERE ...`: the thing rows that `drop` does not
      match, in table order. Property rows are not touched. */
  function Remove(things: seq<Thing>, drop: Thing -> bool): (r: seq<Thing>)
    ensures forall t :: t in r <==> t in things && !drop(t)
    ensures UniqueIds(things) ==> UniqueIds(r)
    decreases |things|
  {
    if things == [] then []
    else
      var rest := Remove(things[1..], drop);
      assert forall t :: t in rest ==> t in things[1..];
      KeepFirst(things, rest);
      if drop(things[0]) then rest else [things[0]] + rest
  }

  /** The first thing row stays unique among rows kept from the others. */
  lemma KeepFirst(things: seq<Thing>, rest: seq<Thing>)
    requires things != [] && (UniqueIds(things[1..]) ==> UniqueIds(rest))
    requires forall t :: t in rest ==> t in things[1..]
    ensures UniqueIds(things) ==> UniqueIds([things[0]] + rest)
  {
    if UniqueIds(things) {
      assert UniqueIds(things[1..]);
      var r := [things[0]] + rest;
      forall i, j | 0 <= i < j < |r| ensures r[i].id != r[j].id {
        if i == 0 {
          assert r[j] == rest[j - 1] && rest[j - 1] in rest;
          var k :| 0 <= k < |things[1..]| && things[1..][k] == r[j];
          assert things[k + 1] == r[j];
        } else {
          assert r[i] == rest[i - 1] && r[j] == rest[j - 1];
        }
      }
    }
  }

  /** `DELETE FROM thing WHERE id = ?`. */
  function WithoutId(things: seq<Thing>, id: int): (r: seq<Thing>)
    ensures forall t :: t in r <==> t in things && t.id != id
    ensures UniqueIds(things) ==> UniqueIds(r)
  {
    Remove(things, (t: Thing) => t.id == id)
  }

  /** `DELETE FROM thing WHERE type = ?`. */
  function WithoutKind(things: seq<Thing>, kind: string): (r: seq<Thing>)
    ensures forall t :: t in r <==> t in things && t.kind != kind
    ensures UniqueIds(things) ==> UniqueIds(r)
  {
    Remove(things, (t: Thing) => t.kind == kind)
  }

  /** A table with rows appended splits back into the old rows and the new. */
  lemma Appended(props: seq<Prop>, tail: seq<Prop>)
    ensures |props| <= |props + tail|
    ensures (props + tail)[..|props|] == props && (props + tail)[|props|..] == tail
  {
  }

  /** The last row of a thing extends its cells and its attributes. */
  lemma CellsSnoc(props: seq<Prop>, tid: int)
    requires props != [] && props[|props| - 1].thingId == tid
    ensures var p := props[|props| - 1];
      && Cells(props, tid) == Cells(props[..|props| - 1], tid) + [Row(tid, Some((p.key, p.value)))]
      && Attrs(props, tid) == Attrs(props[..|props| - 1], tid)[p.key := Dec(p.value)]
  {
  }

  /** The last thing of a table contributes its own rows to the join and its
      id, if selected, to the selection; with unique ids no earlier thing
      shares that id. */
  lemma JoinSnoc(things: seq<Thing>, props: seq<Prop>, kind: string, f: Filter)
    requires things != []
    ensures var pre := things[..|things| - 1];
      var t := things[|things| - 1];
      && Join(things, props, kind, f)
           == Join(pre, props, kind, f) + (if Selects(f, kind, t, props) then RowsOf(props, t.id) else [])
      && SelectedIds(things, props, kind, f)
           == SelectedIds(pre, props, kind, f) + (if Selects(f, kind, t, props) then {t.id} else {})
      && (UniqueIds(things) ==> UniqueIds(pre) && t.id !in SelectedIds(pre, props, kind, f))
  {
    var n := |things| - 1;
    var pre := things[..n];
    var t := things[n];
    assert things == pre + [t];
    if UniqueIds(things) {
      forall u | u in pre ensures u.id != t.id {
        var i :| 0 <= i < n && pre[i] == u;
        assert things[i] == u;
      }
    }
  }

  /** The join yields rows for exactly the selected things. */
  lemma {:induction false} JoinTids(things: seq<Thing>, props: seq<Prop>, kind: string, f: Filter)
    ensures (set r | r in Join(things, props, kind, f) :: r.tid) == SelectedIds(things, props, kind, f)
    decreases |things|
  {
    if things != [] {
      var pre := things[..|things| - 1];
      var t := things[|things| - 1];
      JoinTids(pre, props, kind, f);
      assert things == pre + [t];
      var own := if Selects(f, kind, t, props) then RowsOf(props, t.id) else [];
      RowsOfTids(props, t.id);
      var rows := Join(things, props, kind, f);
      assert rows == Join(pre, props, kind, f) + own;
      assert (set r | r in rows :: r.tid)
          == (set r | r in Join(pre, props, kind, f) :: r.tid) + (set r | r in own :: r.tid);
      assert SelectedIds(things, props, kind, f)
          == SelectedIds(pre, props, kind, f) + (if Selects(f, kind, t, props) then {t.id} else {});
    }
  }

  /** Every thing contributes at least one row, all carrying its id. */
  lemma RowsOfTids(props: seq<Prop>, tid: int)
    ensures RowsOf(props, tid) != []
    ensures (set r | r in RowsOf(props, tid) :: r.tid) == {tid}
  {
    CellsOf(props, tid);
    var rows := RowsOf(props, tid);
    assert rows[0] in rows;
  }

  lemma {:induction false} CellsOf(props: seq<Prop>, tid: int)
    ensures forall r :: r in Cells(props, tid) ==> r.tid == tid && r.cell.Some?
    decreases |props|
  {
    if props != [] {
      CellsOf(props[..|props| - 1], tid);
    }
  }

  /** A thing's attribute names are the keys of its rows. */
  lemma {:induction false} AttrsKeys(props: seq<Prop>, tid: int)
    ensures Attrs(props, tid).Keys == set p | p in props && p.thingId == tid :: p.key
    decreases |props|
  {
    if props != [] {
      var pre := props[..|props| - 1];
      AttrsKeys(pre, tid);
      assert props == pre + [props[|props| - 1]];
    }
  }

  /** With one row per (thing, key), each row's decoded value is the attribute. */
  lemma {:induction false} AttrsOfRow(props: seq<Prop>, tid: int, i: int)
    requires UniqueKeys(props)
    requires 0 <= i < |props| && props[i].thingId == tid
    ensures props[i].key in Attrs(props, tid) && Attrs(props, tid)[props[i].key] == Dec(props[i].value)
    decreases |props|
  {
    var n := |props| - 1;
    var pre := props[..n];
    assert UniqueKeys(pre);
    if i < n {
      AttrsOfRow(pre, tid, i);
      assert pre[i] == props[i];
    }
  }

  /** Appending the rows of a field map to a thing adds that map to its
      attributes. */
  lemma {:induction false} AttrsAppend(props: seq<Prop>, tail: seq<Prop>, tid: int, fields: map<string, Json>)
    requires RowsFor(tail, tid, fields)
    ensures Attrs(props + tail, tid) == Attrs(props, tid) + fields
    decreases |tail|
  {
    if tail == [] {
      assert props + tail == props;
      RowsForNone(tail, tid, fields);
    } else {
      var n := |tail| - 1;
      RowsForFewer(tail, tid, fields);
      AttrsAppend(props, tail[..n], tid, fields - {tail[n].key});
      RowsForLast(tail, tid, fields);
      AttrsStep(props, tail, tid, fields);
    }
  }

  /** One step of `AttrsAppend`: the last row of the tail adds its entry. */
  lemma AttrsStep(props: seq<Prop>, tail: seq<Prop>, tid: int, fields: map<string, Json>)
    requires tail != []
    requires tail[|tail| - 1].thingId == tid && tail[|tail| - 1].key in fields
    requires Dec(tail[|tail| - 1].value) == fields[tail[|tail| - 1].key]
    requires Attrs(props + tail[..|tail| - 1], tid) == Attrs(props, tid) + (fields - {tail[|tail| - 1].key})
    ensures Attrs(props + tail, tid) == Attrs(props, tid) + fields
  {
    var n := |tail| - 1;
    assert props + tail == (props + tail[..n]) + [tail[n]];
    AttrsSnoc(props + tail[..n], tail[n], tid);
    MapStep(Attrs(props, tid), fields, tail[n].key);
  }

  lemma RowsForNone(tail: seq<Prop>, tid: int, fields: map<string, Json>)
    requires RowsFor(tail, tid, fields) && tail == []
    ensures fields == map[]
  {
  }

  lemma RowsForLast(tail: seq<Prop>, tid: int, fields: map<string, Json>)
    requires RowsFor(tail, tid, fields) && tail != []
    ensures tail[|tail| - 1].thingId == tid && tail[|tail| - 1].key in fields
    ensures Dec(tail[|tail| - 1].value) == fields[tail[|tail| - 1].key]
  {
    DecEncode(fields[tail[|tail| - 1].key]);
  }

  lemma MapStep(before: map<string, Json>, fields: map<string, Json>, k: string)
    requires k in fields
    ensures (before + (fields - {k}))[k := fields[k]] == before + fields
  {
  }

  lemma AttrsSnoc(props: seq<Prop>, p: Prop, tid: int)
    ensures Attrs(props + [p], tid) == if p.thingId == tid then Attrs(props, tid)[p.key := Dec(p.value)] else Attrs(props, tid)
  {
    assert (props + [p])[..|props|] == props;
  }

  lemma RowsForFewer(tail: seq<Prop>, tid: int, fields: map<string, Json>)
    requires RowsFor(tail, tid, fields) && tail != []
    ensures RowsFor(tail[..|tail| - 1], tid, fields - {tail[|tail| - 1].key})
  {
    var n := |tail| - 1;
    var fewer := fields - {tail[n].key};
    forall k | k in fewer ensures exists i :: 0 <= i < n && tail[..n][i].key == k {
      var i :| 0 <= i < |tail| && tail[i].key == k;
      assert tail[..n][i].key == k;
    }
  }

  /** Updating a thing's rows changes exactly the updated attributes it has. */
  lemma {:induction false} AttrsRevalue(props: seq<Prop>, tid: int, changes: map<string, Json>)
    ensures Attrs(Revalue(props, tid, changes), tid)
         == Attrs(props, tid) + map k | k in changes && k in Attrs(props, tid) :: changes[k]
    decreases |props|
  {
    if props != [] {
      var n := |props| - 1;
      var pre := props[..n];
      var p := props[n];
      AttrsRevalue(pre, tid, changes);
      assert Revalue(props, tid, changes)[..n] == Revalue(pre, tid, changes);
      if p.thingId == tid && p.key in changes {
        DecEncode(changes[p.key]);
      }
    }
  }
}
