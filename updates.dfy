/**
 * How the writes of `add`, `edit`, `delete` and `clear_test_data` change the
 * two tables, and what they keep: the table invariant, one thing per primary
 * value, and the records the queries return afterwards.
 */
module Updates {
  import opened Json
  import opened Tables
  import opened Projection
  import opened Queries

  predicate NoReservedKeys(f: map<string, Json>) {
    forall key :: key in f ==> !Reserved(key)
  }

  lemma SubsetCard(a: set<int>, b: set<int>)
    requires a <= b
    ensures |a| <= |b|
  {
    assert b == a + (b - a);
    assert a * (b - a) == {};
  }

  // ----- add: one new thing and its rows -----

  /** Rows appended for a fresh thing match that thing alone. */
  lemma HasRowAppend(props: seq<Prop>, tail: seq<Prop>, tid: int, x: int, key: string, text: Text)
    requires forall p :: p in props ==> p.thingId < tid
    requires forall p :: p in tail ==> p.thingId == tid
    ensures HasRow(props + tail, x, key, text) <==>
      if x == tid then HasRow(tail, x, key, text) else HasRow(props, x, key, text)
  {
    if HasRow(props + tail, x, key, text) {
      var p :| p in props + tail && p.thingId == x && p.key == key && p.value == text;
      assert p in props || p in tail;
    }
    if x != tid && HasRow(props, x, key, text) {
      var p :| p in props && p.thingId == x && p.key == key && p.value == text;
      assert p in props + tail;
    }
    if x == tid && HasRow(tail, x, key, text) {
      var p :| p in tail && p.thingId == x && p.key == key && p.value == text;
      assert p in props + tail;
    }
  }

  /** Inserting a fresh thing with its rows adds it to the selections its rows
      satisfy and leaves every other selection as it was. */
  lemma SelectAfterInsert(things: seq<Thing>, props: seq<Prop>, tail: seq<Prop>, tid: int, kind: string,
                          key: string, text: Text)
    requires forall t :: t in things ==> t.id < tid
    requires forall p :: p in props ==> p.thingId < tid
    requires forall p :: p in tail ==> p.thingId == tid
    ensures SelectedIds(things + [Thing(tid, kind)], props + tail, kind, WithValue(key, text))
         == SelectedIds(things, props, kind, WithValue(key, text)) + (if HasRow(tail, tid, key, text) then {tid} else {})
  {
    var f := WithValue(key, text);
    var after := SelectedIds(things + [Thing(tid, kind)], props + tail, kind, f);
    var before := SelectedIds(things, props, kind, f);
    forall x ensures x in after <==> x in before || (x == tid && HasRow(tail, tid, key, text)) {
      HasRowAppend(props, tail, tid, x, key, text);
      if x in after {
        var t :| t in things + [Thing(tid, kind)] && Selects(f, kind, t, props + tail) && t.id == x;
        if t in things {
          assert t.id < tid;
        }
      }
      if x in before {
        var t :| t in things && Selects(f, kind, t, props) && t.id == x;
        assert t.id < tid;
        assert t in things + [Thing(tid, kind)];
      }
      if x == tid && HasRow(tail, tid, key, text) {
        assert Thing(tid, kind) in things + [Thing(tid, kind)];
      }
    }
  }

  /** The rows of a field map hold exactly its entries. */
  lemma RowsForHasRow(tail: seq<Prop>, tid: int, f: map<string, Json>, key: string, text: Text)
    requires RowsFor(tail, tid, f)
    ensures HasRow(tail, tid, key, text) <==> key in f && text == Encode(f[key])
  {
    if key in f && text == Encode(f[key]) {
      var i :| 0 <= i < |tail| && tail[i].key == key;
      assert tail[i] in tail;
    }
  }

  /** A fresh thing has no attributes yet. */
  lemma FreshAttrs(props: seq<Prop>, tid: int)
    requires forall p :: p in props ==> p.thingId < tid
    ensures Attrs(props, tid) == map[]
  {
    AttrsKeys(props, tid);
    assert Attrs(props, tid).Keys == {};
  }

  /** `add`'s writes keep the invariant and the uniqueness of primary values,
      and the new thing is the only one with its primary value; its
      attributes are the validated fields. */
  lemma AddKeepsValid(k: Kind, things: seq<Thing>, props: seq<Prop>, nextId: int, tail: seq<Prop>,
                      f: map<string, Json>)
    requires Valid(things, props, nextId) && PrimaryUnique(things, props, k)
    requires RowsFor(tail, nextId, f) && NoReservedKeys(f) && k.schema.primary in f
    requires SelectedIds(things, props, k.name, ByValue(k.schema.primary, f[k.schema.primary])) == {}
    ensures var things' := things + [Thing(nextId, k.name)];
      var props' := props + tail;
      && Valid(things', props', nextId + 1)
      && PrimaryUnique(things', props', k)
      && SelectedIds(things', props', k.name, ByValue(k.schema.primary, f[k.schema.primary])) == {nextId}
      && Attrs(props', nextId) == f
  {
    AddValid(things, props, nextId, tail, k.name, f);
    AddPrimaryUnique(k, things, props, nextId, tail, f);
    AddUniqueAt(k, things, props, nextId, tail, f, Encode(f[k.schema.primary]));
    AddAttrs(things, props, nextId, tail, f);
  }

  lemma AddPrimaryUnique(k: Kind, things: seq<Thing>, props: seq<Prop>, nextId: int, tail: seq<Prop>,
                         f: map<string, Json>)
    requires Valid(things, props, nextId) && PrimaryUnique(things, props, k)
    requires RowsFor(tail, nextId, f) && k.schema.primary in f
    requires SelectedIds(things, props, k.name, ByValue(k.schema.primary, f[k.schema.primary])) == {}
    ensures PrimaryUnique(things + [Thing(nextId, k.name)], props + tail, k)
  {
    forall text ensures |SelectedIds(things + [Thing(nextId, k.name)], props + tail, k.name, WithValue(k.schema.primary, text))| <= 1 {
      AddUniqueAt(k, things, props, nextId, tail, f, text);
    }
  }

  /** The new thing's attributes are exactly the added fields. */
  lemma AddAttrs(things: seq<Thing>, props: seq<Prop>, nextId: int, tail: seq<Prop>, f: map<string, Json>)
    requires Valid(things, props, nextId) && RowsFor(tail, nextId, f)
    ensures Attrs(props + tail, nextId) == f
  {
    Fresh(things, props, nextId, tail, f);
    FreshAttrs(props, nextId);
    AttrsAppend(props, tail, nextId, f);
    assert map[] + f == f;
  }

  /** The ids and rows below `nextId` are older than the new thing's. */
  lemma Fresh(things: seq<Thing>, props: seq<Prop>, nextId: int, tail: seq<Prop>, f: map<string, Json>)
    requires Valid(things, props, nextId) && RowsFor(tail, nextId, f)
    ensures forall p :: p in tail ==> p.thingId == nextId
    ensures forall p :: p in props ==> p.thingId < nextId
    ensures forall t :: t in things ==> t.id < nextId
  {
    forall p | p in tail ensures p.thingId == nextId {
      var i :| 0 <= i < |tail| && tail[i] == p;
    }
  }

  /** After `add`, the things with primary value `text` are the old ones, or
      the new thing alone when `text` is its primary value. */
  lemma AddUniqueAt(k: Kind, things: seq<Thing>, props: seq<Prop>, nextId: int, tail: seq<Prop>,
                    f: map<string, Json>, text: Text)
    requires Valid(things, props, nextId) && PrimaryUnique(things, props, k)
    requires RowsFor(tail, nextId, f) && k.schema.primary in f
    requires SelectedIds(things, props, k.name, ByValue(k.schema.primary, f[k.schema.primary])) == {}
    ensures var after := SelectedIds(things + [Thing(nextId, k.name)], props + tail, k.name, WithValue(k.schema.primary, text));
      && |after| <= 1
      && (text == Encode(f[k.schema.primary]) ==> after == {nextId})
  {
    Fresh(things, props, nextId, tail, f);
    SelectAfterInsert(things, props, tail, nextId, k.name, k.schema.primary, text);
    RowsForHasRow(tail, nextId, f, k.schema.primary, text);
    assert |SelectedIds(things, props, k.name, WithValue(k.schema.primary, text))| <= 1;
  }

  lemma AddValid(things: seq<Thing>, props: seq<Prop>, nextId: int, tail: seq<Prop>, kind: string,
                 f: map<string, Json>)
    requires Valid(things, props, nextId)
    requires RowsFor(tail, nextId, f) && NoReservedKeys(f)
    ensures Valid(things + [Thing(nextId, kind)], props + tail, nextId + 1)
  {
    var things' := things + [Thing(nextId, kind)];
    var props' := props + tail;
    assert UniqueIds(things') by {
      forall i, j | 0 <= i < j < |things'| ensures things'[i].id != things'[j].id {
        assert things'[i] in things;
        if j < |things| { assert things'[j] in things; }
      }
    }
    forall p | p in props' ensures p.thingId < nextId + 1 && Decode(p.value).Some? && !Reserved(p.key) {
      if p in tail {
        var i :| 0 <= i < |tail| && tail[i] == p;
        DecodeEncode(f[p.key]);
      }
    }
    assert UniqueKeys(props') by {
      forall i, j | 0 <= i < j < |props'| && props'[i].thingId == props'[j].thingId
        ensures props'[i].key != props'[j].key
      {
        if j < |props| {
          assert props'[i] == props[i] && props'[j] == props[j];
        } else if i < |props| {
          assert false;
        } else {
          assert props'[i] == tail[i - |props|] && props'[j] == tail[j - |props|];
        }
      }
    }
  }

  // ----- edit: updates and insertions for one thing -----

  /** The supplied fields whose value differs from the thing's current one. */
  function Changes(attrs: map<string, Json>, f: map<string, Json>): (c: map<string, Json>)
    ensures forall key :: key in c <==> key in f && key in attrs && attrs[key] != f[key]
  {
    map key | key in f && key in attrs && attrs[key] != f[key] :: f[key]
  }

  /** The supplied fields the thing does not have yet. */
  function Additions(attrs: map<string, Json>, f: map<string, Json>): (a: map<string, Json>)
    ensures forall key :: key in a <==> key in f && key !in attrs
  {
    map key | key in f && key !in attrs :: f[key]
  }

  /** One more field taken from the rest of the supplied map. */
  lemma MapGrow(f: map<string, Json>, remaining: set<string>, key: string)
    requires key in remaining && remaining <= f.Keys
    ensures f - (remaining - {key}) == (f - remaining)[key := f[key]]
  {
  }

  /** One more supplied field joins the changes when the thing holds a
      different value, and the additions when the thing lacks it. */
  lemma ChangesGrow(attrs: map<string, Json>, g: map<string, Json>, key: string, v: Json)
    requires key !in g
    ensures Changes(attrs, g[key := v])
         == if key in attrs && attrs[key] != v then Changes(attrs, g)[key := v] else Changes(attrs, g)
    ensures Additions(attrs, g[key := v])
         == if key !in attrs then Additions(attrs, g)[key := v] else Additions(attrs, g)
  {
  }

  /** `_update_kv` on a thing's current row leaves rows appended for other
      keys alone. */
  lemma UpdateStep(props: seq<Prop>, tid: int, c: map<string, Json>, tail: seq<Prop>, key: string, v: Json)
    requires forall p :: p in tail ==> p.key != key
    ensures SetValue(Revalue(props, tid, c) + tail, tid, key, Encode(v)) == Revalue(props, tid, c[key := v]) + tail
  {
    var lhs := SetValue(Revalue(props, tid, c) + tail, tid, key, Encode(v));
    var rhs := Revalue(props, tid, c[key := v]) + tail;
    assert |lhs| == |rhs|;
    forall i | 0 <= i < |lhs| ensures lhs[i] == rhs[i] {
      UpdateStepAt(props, tid, c, tail, key, v, i);
    }
  }

  lemma UpdateStepAt(props: seq<Prop>, tid: int, c: map<string, Json>, tail: seq<Prop>, key: string, v: Json, i: int)
    requires forall p :: p in tail ==> p.key != key
    requires 0 <= i < |props| + |tail|
    ensures SetValue(Revalue(props, tid, c) + tail, tid, key, Encode(v))[i] == (Revalue(props, tid, c[key := v]) + tail)[i]
  {
    var before := Revalue(props, tid, c) + tail;
    if i < |props| {
      assert before[i] == Revalue(props, tid, c)[i];
      assert (Revalue(props, tid, c[key := v]) + tail)[i] == Revalue(props, tid, c[key := v])[i];
    } else {
      assert before[i] == tail[i - |props|];
      assert tail[i - |props|] in tail;
      assert (Revalue(props, tid, c[key := v]) + tail)[i] == tail[i - |props|];
    }
  }

  /** `_insert_kv` of a key the appended rows do not hold yet. */
  lemma RowsForSnoc(tail: seq<Prop>, tid: int, g: map<string, Json>, key: string, v: Json)
    requires RowsFor(tail, tid, g) && key !in g
    ensures RowsFor(tail + [Prop(tid, key, Encode(v))], tid, g[key := v])
  {
    var tail' := tail + [Prop(tid, key, Encode(v))];
    var g' := g[key := v];
    forall k' | k' in g' ensures exists i :: 0 <= i < |tail'| && tail'[i].key == k' {
      if k' == key {
        assert tail'[|tail|].key == key;
      } else {
        var i :| 0 <= i < |tail| && tail[i].key == k';
        assert tail'[i].key == k';
      }
    }
  }

  /** Rows for the fields `g` hold no other key. */
  lemma RowsForOnly(tail: seq<Prop>, tid: int, g: map<string, Json>, key: string)
    requires RowsFor(tail, tid, g) && key !in g
    ensures forall p :: p in tail ==> p.key != key
  {
    forall p | p in tail ensures p.key != key {
      var i :| 0 <= i < |tail| && tail[i] == p;
    }
  }

  /** After `edit`'s writes the thing's attributes are the old ones
      overridden by the supplied fields. */
  lemma EditAttrs(props: seq<Prop>, tid: int, f: map<string, Json>, tail: seq<Prop>)
    requires RowsFor(tail, tid, Additions(Attrs(props, tid), f))
    ensures Attrs(Revalue(props, tid, Changes(Attrs(props, tid), f)) + tail, tid) == Attrs(props, tid) + f
  {
    var a := Attrs(props, tid);
    var c := Changes(a, f);
    AttrsAppend(Revalue(props, tid, c), tail, tid, Additions(a, f));
    AttrsRevalue(props, tid, c);
    OverrideSplit(a, f);
  }

  /** Overriding by the changes and then the additions is overriding by all
      supplied fields. */
  lemma OverrideSplit(a: map<string, Json>, f: map<string, Json>)
    ensures var c := Changes(a, f);
      (a + map key | key in c && key in a :: c[key]) + Additions(a, f) == a + f
  {
    var c := Changes(a, f);
    var lhs := (a + map key | key in c && key in a :: c[key]) + Additions(a, f);
    assert lhs.Keys == (a + f).Keys;
  }

  /** `after` is `before` with `edit`'s writes for thing `tid` and fields
      `f` done: differing values updated in place, missing fields appended. */
  predicate Edited(before: seq<Prop>, after: seq<Prop>, tid: int, f: map<string, Json>) {
    var a := Attrs(before, tid);
    && |before| <= |after|
    && after[..|before|] == Revalue(before, tid, Changes(a, f))
    && RowsFor(after[|before|..], tid, Additions(a, f))
  }

  /** After `edit` the thing's attributes are its old ones overridden by the
      supplied fields. */
  lemma EditedAttrs(before: seq<Prop>, after: seq<Prop>, tid: int, f: map<string, Json>)
    requires Edited(before, after, tid, f)
    ensures Attrs(after, tid) == Attrs(before, tid) + f
  {
    assert after == after[..|before|] + after[|before|..];
    EditAttrs(before, tid, f, after[|before|..]);
  }

  /** `edit` rewrites only rows of the edited thing whose field was supplied
      with a different value, and writes that value; rows of other things,
      of unsupplied fields and of unchanged values stay as they were. */
  lemma EditWritesOnlyChanges(before: seq<Prop>, after: seq<Prop>, tid: int, f: map<string, Json>)
    requires Edited(before, after, tid, f)
    ensures forall i :: 0 <= i < |before| && after[i] != before[i] ==>
      && before[i].thingId == tid && before[i].key in f
      && before[i].key in Attrs(before, tid) && Attrs(before, tid)[before[i].key] != f[before[i].key]
      && after[i] == before[i].(value := Encode(f[before[i].key]))
  {
    var c := Changes(Attrs(before, tid), f);
    forall i | 0 <= i < |before| && after[i] != before[i]
      ensures before[i].thingId == tid && before[i].key in c
    {
      assert after[i] == after[..|before|][i];
    }
  }

  /** The primary value of the edited thing is the looked-up name, so edit
      neither changes nor adds a primary row. */
  lemma EditSparesPrimary(k: Kind, props: seq<Prop>, tid: int, name: Json, f: map<string, Json>)
    requires UniqueKeys(props) && HasRow(props, tid, k.schema.primary, Encode(name))
    requires k.schema.primary in f ==> f[k.schema.primary] == name
    ensures k.schema.primary !in Changes(Attrs(props, tid), f)
    ensures k.schema.primary !in Additions(Attrs(props, tid), f)
  {
    var p :| p in props && p.thingId == tid && p.key == k.schema.primary && p.value == Encode(name);
    var i :| 0 <= i < |props| && props[i] == p;
    AttrsOfRow(props, tid, i);
    DecEncode(name);
  }

  /** Rows with a key that is neither changed nor added keep their (thing,
      value) pairs. */
  lemma EditKeepsRows(props: seq<Prop>, tid: int, c: map<string, Json>, tail: seq<Prop>, key: string,
                      x: int, text: Text)
    requires key !in c && forall p :: p in tail ==> p.key != key
    ensures HasRow(Revalue(props, tid, c) + tail, x, key, text) <==> HasRow(props, x, key, text)
  {
    var after := Revalue(props, tid, c) + tail;
    if HasRow(after, x, key, text) {
      var p :| p in after && p.thingId == x && p.key == key && p.value == text;
      var i :| 0 <= i < |after| && after[i] == p;
      if i >= |props| {
        assert false;
      }
      assert props[i] == p;
    }
    if HasRow(props, x, key, text) {
      var p :| p in props && p.thingId == x && p.key == key && p.value == text;
      var i :| 0 <= i < |props| && props[i] == p;
      assert after[i] == p;
    }
  }

  /** `edit`'s writes keep the invariant and the uniqueness of primary
      values, and select the same things by primary value. */
  lemma EditKeepsValid(k: Kind, things: seq<Thing>, props: seq<Prop>, nextId: int, tid: int, name: Json,
                       f: map<string, Json>, tail: seq<Prop>)
    requires Valid(things, props, nextId) && PrimaryUnique(things, props, k)
    requires HasThing(things, tid, k.name) && HasRow(props, tid, k.schema.primary, Encode(name))
    requires NoReservedKeys(f) && (k.schema.primary in f ==> f[k.schema.primary] == name)
    requires RowsFor(tail, tid, Additions(Attrs(props, tid), f))
    ensures var props' := Revalue(props, tid, Changes(Attrs(props, tid), f)) + tail;
      && Valid(things, props', nextId)
      && PrimaryUnique(things, props', k)
      && (forall text :: SelectedIds(things, props', k.name, WithValue(k.schema.primary, text))
                      == SelectedIds(things, props, k.name, WithValue(k.schema.primary, text)))
  {
    var a := Attrs(props, tid);
    var c := Changes(a, f);
    var props' := Revalue(props, tid, c) + tail;
    EditSparesPrimary(k, props, tid, name, f);
    assert forall p :: p in tail ==> p.key != k.schema.primary by {
      forall p | p in tail ensures p.key != k.schema.primary {
        var i :| 0 <= i < |tail| && tail[i] == p;
      }
    }
    forall text ensures SelectedIds(things, props', k.name, WithValue(k.schema.primary, text))
                     == SelectedIds(things, props, k.name, WithValue(k.schema.primary, text))
    {
      forall x ensures HasRow(props', x, k.schema.primary, text) <==> HasRow(props, x, k.schema.primary, text) {
        EditKeepsRows(props, tid, c, tail, k.schema.primary, x, text);
      }
    }
    EditValid(things, props, nextId, tid, k.name, f, tail);
  }

  /** The same, for the tables as `Edited` relates them. */
  lemma EditedKeepsValid(k: Kind, things: seq<Thing>, before: seq<Prop>, after: seq<Prop>, nextId: int, tid: int,
                         name: Json, f: map<string, Json>)
    requires Valid(things, before, nextId) && PrimaryUnique(things, before, k)
    requires HasThing(things, tid, k.name) && HasRow(before, tid, k.schema.primary, Encode(name))
    requires NoReservedKeys(f) && (k.schema.primary in f ==> f[k.schema.primary] == name)
    requires Edited(before, after, tid, f)
    ensures Valid(things, after, nextId) && PrimaryUnique(things, after, k)
    ensures forall text :: SelectedIds(things, after, k.name, WithValue(k.schema.primary, text))
                        == SelectedIds(things, before, k.name, WithValue(k.schema.primary, text))
  {
    var tail := after[|before|..];
    assert after == Revalue(before, tid, Changes(Attrs(before, tid), f)) + tail by {
      assert after == after[..|before|] + tail;
    }
    EditKeepsValid(k, things, before, nextId, tid, name, f, tail);
  }

  lemma EditValid(things: seq<Thing>, props: seq<Prop>, nextId: int, tid: int, kind: string,
                  f: map<string, Json>, tail: seq<Prop>)
    requires Valid(things, props, nextId) && HasThing(things, tid, kind) && NoReservedKeys(f)
    requires RowsFor(tail, tid, Additions(Attrs(props, tid), f))
    ensures Valid(things, Revalue(props, tid, Changes(Attrs(props, tid), f)) + tail, nextId)
  {
    EditRows(props, nextId, tid, f, tail);
    EditUniqueKeys(props, tid, f, tail);
  }

  lemma EditRows(props: seq<Prop>, nextId: int, tid: int, f: map<string, Json>, tail: seq<Prop>)
    requires tid < nextId && NoReservedKeys(f) && NoReserved(props)
    requires forall p :: p in props ==> p.thingId < nextId && Decode(p.value).Some?
    requires RowsFor(tail, tid, Additions(Attrs(props, tid), f))
    ensures var props' := Revalue(props, tid, Changes(Attrs(props, tid), f)) + tail;
      forall p :: p in props' ==> p.thingId < nextId && Decode(p.value).Some? && !Reserved(p.key)
  {
    var props' := Revalue(props, tid, Changes(Attrs(props, tid), f)) + tail;
    forall p | p in props' ensures p.thingId < nextId && Decode(p.value).Some? && !Reserved(p.key) {
      var i :| 0 <= i < |props'| && props'[i] == p;
      if i < |props| {
        EditedRow(props, nextId, tid, f, tail, i);
      } else {
        AddedRow(props, nextId, tid, f, tail, i);
      }
    }
  }

  lemma EditedRow(props: seq<Prop>, nextId: int, tid: int, f: map<string, Json>, tail: seq<Prop>, i: int)
    requires NoReserved(props)
    requires forall p :: p in props ==> p.thingId < nextId && Decode(p.value).Some?
    requires 0 <= i < |props|
    ensures var p := (Revalue(props, tid, Changes(Attrs(props, tid), f)) + tail)[i];
      p.thingId < nextId && Decode(p.value).Some? && !Reserved(p.key)
  {
    var c := Changes(Attrs(props, tid), f);
    assert (Revalue(props, tid, c) + tail)[i] == Revalue(props, tid, c)[i];
    assert props[i] in props;
    if props[i].thingId == tid && props[i].key in c {
      DecodeEncode(c[props[i].key]);
    }
  }

  lemma AddedRow(props: seq<Prop>, nextId: int, tid: int, f: map<string, Json>, tail: seq<Prop>, i: int)
    requires tid < nextId && NoReservedKeys(f)
    requires RowsFor(tail, tid, Additions(Attrs(props, tid), f))
    requires |props| <= i < |props| + |tail|
    ensures var p := (Revalue(props, tid, Changes(Attrs(props, tid), f)) + tail)[i];
      p.thingId < nextId && Decode(p.value).Some? && !Reserved(p.key)
  {
    var q := tail[i - |props|];
    assert (Revalue(props, tid, Changes(Attrs(props, tid), f)) + tail)[i] == q;
    DecodeEncode(f[q.key]);
  }

  lemma EditUniqueKeys(props: seq<Prop>, tid: int, f: map<string, Json>, tail: seq<Prop>)
    requires UniqueKeys(props)
    requires RowsFor(tail, tid, Additions(Attrs(props, tid), f))
    ensures UniqueKeys(Revalue(props, tid, Changes(Attrs(props, tid), f)) + tail)
  {
    var props' := Revalue(props, tid, Changes(Attrs(props, tid), f)) + tail;
    forall i, j | 0 <= i < j < |props'| && props'[i].thingId == props'[j].thingId
      ensures props'[i].key != props'[j].key
    {
      if j < |props| {
        OldRows(props, tid, f, tail, i, j);
      } else if i < |props| {
        OldBeforeAdded(props, tid, f, tail, i, j);
      } else {
        AddedRows(props, tid, f, tail, i, j);
      }
    }
  }

  lemma OldRows(props: seq<Prop>, tid: int, f: map<string, Json>, tail: seq<Prop>, i: int, j: int)
    requires UniqueKeys(props)
    requires 0 <= i < j < |props|
    ensures var props' := Revalue(props, tid, Changes(Attrs(props, tid), f)) + tail;
      props'[i].thingId == props'[j].thingId ==> props'[i].key != props'[j].key
  {
    var props' := Revalue(props, tid, Changes(Attrs(props, tid), f)) + tail;
    assert props'[i].key == props[i].key && props'[i].thingId == props[i].thingId;
    assert props'[j].key == props[j].key && props'[j].thingId == props[j].thingId;
  }

  lemma AddedRows(props: seq<Prop>, tid: int, f: map<string, Json>, tail: seq<Prop>, i: int, j: int)
    requires RowsFor(tail, tid, Additions(Attrs(props, tid), f))
    requires |props| <= i < j < |props| + |tail|
    ensures var props' := Revalue(props, tid, Changes(Attrs(props, tid), f)) + tail;
      props'[i].key != props'[j].key
  {
    var props' := Revalue(props, tid, Changes(Attrs(props, tid), f)) + tail;
    assert props'[i] == tail[i - |props|] && props'[j] == tail[j - |props|];
  }

  /** A row the thing already had and a row edit appends never share a key. */
  lemma OldBeforeAdded(props: seq<Prop>, tid: int, f: map<string, Json>, tail: seq<Prop>, i: int, j: int)
    requires RowsFor(tail, tid, Additions(Attrs(props, tid), f))
    requires 0 <= i < |props| <= j < |props| + |tail|
    ensures var props' := Revalue(props, tid, Changes(Attrs(props, tid), f)) + tail;
      props'[i].thingId == props'[j].thingId ==> props'[i].key != props'[j].key
  {
    var props' := Revalue(props, tid, Changes(Attrs(props, tid), f)) + tail;
    assert props'[i].key == props[i].key && props'[i].thingId == props[i].thingId;
    assert props'[j] == tail[j - |props|];
    if props[i].thingId == tid {
      AttrsKeys(props, tid);
      assert props[i] in props;
    }
  }

  // ----- delete and clear_test_data: thing rows go, property rows stay -----

  /** Deleting a thing row drops that id from every selection. */
  lemma SelectAfterDelete(things: seq<Thing>, props: seq<Prop>, id: int, kind: string, f: Filter)
    ensures SelectedIds(WithoutId(things, id), props, kind, f) == SelectedIds(things, props, kind, f) - {id}
  {
    var after := SelectedIds(WithoutId(things, id), props, kind, f);
    var before := SelectedIds(things, props, kind, f);
    forall x ensures x in after <==> x in before && x != id {
      if x in before && x != id {
        var t :| t in things && Selects(f, kind, t, props) && t.id == x;
        assert t in WithoutId(things, id);
      }
    }
  }

  /** `delete`'s write keeps the invariant and the uniqueness of primary
      values. */
  lemma DeleteKeepsValid(k: Kind, things: seq<Thing>, props: seq<Prop>, nextId: int, id: int)
    requires Valid(things, props, nextId) && PrimaryUnique(things, props, k)
    ensures Valid(WithoutId(things, id), props, nextId) && PrimaryUnique(WithoutId(things, id), props, k)
  {
    forall text ensures |SelectedIds(WithoutId(things, id), props, k.name, WithValue(k.schema.primary, text))| <= 1 {
      SelectAfterDelete(things, props, id, k.name, WithValue(k.schema.primary, text));
      SubsetCard(SelectedIds(WithoutId(things, id), props, k.name, WithValue(k.schema.primary, text)),
                 SelectedIds(things, props, k.name, WithValue(k.schema.primary, text)));
    }
  }

  /** `clear_test_data`'s write keeps the invariant and leaves no thing of the
      type, so every selection of the type is empty. */
  lemma ClearKeepsValid(k: Kind, things: seq<Thing>, props: seq<Prop>, nextId: int)
    requires Valid(things, props, nextId)
    ensures Valid(WithoutKind(things, k.name), props, nextId)
    ensures forall f :: SelectedIds(WithoutKind(things, k.name), props, k.name, f) == {}
    ensures PrimaryUnique(WithoutKind(things, k.name), props, k)
  {
    forall f ensures SelectedIds(WithoutKind(things, k.name), props, k.name, f) == {} {
      var s := SelectedIds(WithoutKind(things, k.name), props, k.name, f);
      forall x ensures x !in s {
        assert forall t :: t in WithoutKind(things, k.name) ==> t.kind != k.name;
      }
    }
  }
}
