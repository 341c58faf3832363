# A verified model of the ansible-commander entity store

ansible-commander keeps every kind of record (hosts, groups, users, ...) in
one generic entity–attribute store, class `Base` of `acom/data.py`. A record
type is a subclass that declares a `TYPE` tag, a `FIELDS` schema (`primary`,
`required`, `optional` with defaults, `protected`, `private`, `hidden`) and an
optional `REST` link template. All types share two tables: `thing(id, type)`
and `properties(id, thing_id, key, value)`, where every value is stored as
JSON text.

This Dafny project models that store:

- `json.dfy` (module `Json`): JSON values and their text, at the level of
  the tokens of RFC 8259, section 2. `Encode` plays the part of `json.dumps`
  and `Decode` that of `json.loads`. The module proves the round trip, and
  that equal texts come from equal values.
- `errors.dfy` (module `Errors`): the exceptions, as an `Error` datatype and
  a `Result` type. These are `InvalidInput`, `AlreadyExists`, `DoesNotExist`,
  `Ambigious` and the bare `Exception`s.
- `validation.dfy` (module `Validation`): the schema, and what
  `check_required_fields` does to a field map, as functions and lemmas.
- `tables.dfy` (module `Tables`): the two tables as sequences of rows, plus
  their invariant. It also holds the LEFT JOIN of the three SELECTs, the
  `UPDATE` of `_update_kv` and the two `DELETE`s.
- `projection.dfy` (module `Projection`): `_reformat` as a fold over the
  joined rows, with a closed form. Each record is the view of its thing's
  attributes.
- `queries.dfy` (module `Queries`): `find`, `lookup`, `get_by_id` and
  `list`, as functions of the tables.
- `updates.dfy` (module `Updates`): the writes of `add`, `edit`, `delete`
  and `clear_test_data`, stated on table values. Lemmas prove that each write
  keeps the invariant.
- `store.dfy` (module `Store`) has two classes:
  - `Database`: the shared connection's tables and `TESTMODE`;
  - `Store`: one record type, that is, one subclass of `Base` with its
    `TYPE`, `FIELDS` and `REST`. It keeps that type's `protected` list.
    Its methods perform the operations step by step: loops over fields and
    rows, and in-place updates of the tables and of the `protected` list.
    Each method is proved against the functions above.

The store's invariant (`Store.Store.Valid`, over `Tables.Valid`) has these
parts:
- the next id is at least 1;
- thing ids are unique and below the next id;
- every property row's thing id is below the next id, so rows that `delete`
  leaves behind never attach to a thing added later;
- every stored text decodes;
- no property is named `id` or `href`;
- a thing has at most one row per key;
- no two things of a type share a primary value;
- the schema declares no default for `id` or `href` (`SchemaOk`).

The public mutating operations keep this invariant: `add`, `edit`,
`delete` and `clear_test_data`. The two single-row writes `_insert_kv` and
`_update_kv` promise only their effect on the table. `edit`'s loop over
fields (`Apply`) promises the rows it writes, and `edit` proves the
invariant from them.

## Model

| member | source | states |
|---|---|---|
| Store.Store.CheckRequiredFields | acom/data.py:81-117 | The method registers `TESTMODE` as protected exactly on the first internal call in test mode. Its result is what `Validate` decides: the accepted map, the error raised, or an `invalid field` error that names one of the unknown keys. |
| Validation.MarkerInjectedOnce | acom/data.py:83-85 | The first internal call in test mode sets `TESTMODE` to 1 and registers it. A second call then adds nothing, so the step is not idempotent. |
| Validation.StripProtected | acom/data.py:90-96 | Fails exactly when `_salt` is protected and supplied, with the bare exception. Otherwise it removes exactly the protected names. |
| Store.Strip | acom/data.py:90-96 | The loop over the protected list returns exactly what `StripProtected` returns. |
| Validation.AcceptedDropsIdAndProtected | acom/data.py:87-96 | An accepted map holds no `id`, and holds no protected field for an external caller. The one exception is a create-mode default the schema itself declares. |
| Validation.SaltIsFatal | acom/data.py:90-94 | Validation ends in the bare exception if and only if the caller is external, `_salt` is protected and `_salt` is supplied. |
| Validation.FirstMissing | acom/data.py:103-105 | Returns None if and only if every required field is present. Otherwise it returns the first absent required field in declaration order. |
| Validation.FillDefaults | acom/data.py:107-110 | The keys are those supplied plus the optional ones. Supplied values are kept, and each absent optional field gets its default. |
| Store.Complete | acom/data.py:98-110 | The create-mode checks (primary, then required fields in order, then defaults) return exactly what `CreateCheck` returns. |
| Validation.CreateModeChecks | acom/data.py:98-105 | A missing or null primary gives MissingPrimary. Otherwise a missing required field gives MissingRequired, naming an absent required field. Acceptance implies the primary and every required field are present. |
| Validation.DefaultsFilled | acom/data.py:107-110 | In create mode an accepted map has every optional key. Absent ones hold their default and supplied values are unchanged. |
| Validation.EditModeKeepsInput | acom/data.py:98-110 | In edit mode nothing is checked or added: the accepted map is the screened input. |
| Store.FindUnknown | acom/data.py:112-117 | Returns None if and only if no key is unknown. Otherwise it returns one of the unknown keys. |
| Validation.ClosedWorld | acom/data.py:112-117 | An accepted map holds only the primary, required or optional names, plus protected names for an internal caller. A refusal for unknown fields names only such other keys. |
| Validation.ValidatedKeysNotReserved | acom/data.py:87-88 | Validation never leaves `id`. It leaves no `href` when the input had none. |
| Store.Validated | acom/data.py:124-128 | The accepted map of an external create keeps the caller's primary value, and it holds no reserved key. |
| Json.DecodeEncode | acom/data.py:232 | `json.loads` of `json.dumps(v)` gives `v` back. |
| Json.EncodeInjective | acom/data.py:263 | Two values have the same stored text if and only if they are equal. Comparing texts in SQL is therefore comparing values. |
| Tables.JoinTids | acom/data.py:209-221 | The LEFT JOIN yields rows for exactly the selected things of the type. |
| Projection.FoldKeys | acom/data.py:223-235 | The `_reformat` loop leaves one record per distinct thing id among the rows, and no other. |
| Projection.Project | acom/data.py:223-235 | The records are keyed by exactly the thing ids in the rows. |
| Store.Store.Reformat | acom/data.py:223-235 | The loop that fills `results` row by row computes exactly the fold `Project`. |
| Store.Store.ReformatRow | acom/data.py:226-234 | Take a record that is the view of some attributes with its id set, and a row of that thing with a non-reserved key. The record the loop body builds is then the view of those attributes with the row's property added. |
| Projection.EntryExtends | acom/data.py:226-234 | The same fact for the fold's per-row step `Entry`. One row moves a thing's record from the view of its attributes to the view of the attributes extended by that row. |
| Projection.ViewFields | acom/data.py:226-234 | A record holds its `id` and exactly the visible attributes with their values. It holds the link from the primary value whenever REST is set, even when the primary is hidden. Conversely, a record whose attributes have no `href` holds a link only if REST is set and the primary field is present. |
| Projection.ProjectHidesPrivate | acom/data.py:230-232 | No record handed to an external caller carries a private or hidden field. |
| Projection.ProjectJoin | acom/data.py:223-235 | For sound tables, projecting a join gives one record per selected thing. That record is the view of the thing's attributes, and a thing with no properties gets just its id. |
| Queries.List | acom/data.py:209-221 | One record for every thing of the type, and each is that thing's view. |
| Store.Store.List | acom/data.py:209-221 | Computes `Queries.List` from the current tables. |
| Queries.GetById | acom/data.py:237-257 | Gives DoesNotExist if and only if the thing is missing without `allow_missing`, and None if and only if it is missing with it. The result is never Ambigious, and otherwise it is the thing's view. |
| Queries.ByIdSelected | acom/data.py:237-257 | The join by id holds at most the one thing, so the projection has 0 or 1 records. |
| Store.Store.GetById | acom/data.py:237-257 | Computes `Queries.GetById`. |
| Queries.Find | acom/data.py:260-285 | One record for each thing of the type that has a row with the key and the encoded value, and each is that thing's view. |
| Store.Store.Find | acom/data.py:260-285 | Computes `Queries.Find`. |
| Queries.FindOne | acom/data.py:260-291 | DoesNotExist if and only if nothing matches, and Ambigious if and only if several things match. Otherwise the result is the one match's record. |
| Queries.FindOneAt | acom/data.py:284-291 | With exactly one match, `expect_one` yields that thing's view. |
| Store.Store.FindOne | acom/data.py:260-291 | Computes `Queries.FindOne`. |
| Queries.Lookup | acom/data.py:293-294 | DoesNotExist if and only if no thing of the type has that primary value, and never Ambigious while primary values are unique. Otherwise it is the matching thing's view. |
| Store.Store.Lookup | acom/data.py:293-294 | Computes `Queries.Lookup`. |
| Store.Store.Add | acom/data.py:119-153 | Outcomes: a missing primary raises InvalidInput, and a validation failure is reported as raised. A taken primary value gives AlreadyExists. Otherwise exactly one thing row with the next id and one row per validated field are appended, and the new record is returned. Old rows are unchanged, nothing is written on failure, and the invariant is kept. |
| Store.Store.AddValidated | acom/data.py:128-153 | The part of `add` after validation: AlreadyExists for a taken primary value. Otherwise it inserts, then looks the record up again. |
| Store.Store.Insert | acom/data.py:134-148 | Appends the thing row and the property rows. Afterwards the primary value selects only the new thing, and its attributes are exactly the fields. |
| Store.Store.PropertyRows | acom/data.py:141-143 | Lists exactly one `(tid, key, json.dumps(value))` row per field. |
| Updates.AddKeepsValid | acom/data.py:134-148 | Adding a fresh thing with its rows keeps the invariant and keeps primary values unique. The new thing's attributes are the added fields. |
| Updates.SelectAfterInsert | acom/data.py:134-148 | A fresh thing joins exactly the selections its own rows satisfy, and every other selection is unchanged. |
| Store.Store.InsertKV | acom/data.py:182-190 | Appends one row holding the encoded value. |
| Store.Store.UpdateKV | acom/data.py:192-207 | Rewrites every row of the thing with that key to the new encoded value. |
| Tables.SetValue | acom/data.py:192-207 | Only rows with that (thing, key) change, and only in their value. The length is unchanged. |
| Updates.UpdateStep | acom/data.py:192-207 | `_update_kv` during `edit` updates the thing's existing rows and leaves the rows inserted for other keys alone. |
| Store.Store.Edit | acom/data.py:155-180 | Validation failures are reported as raised. A different primary value raises the bare rename exception. A missing record gives DoesNotExist and writes nothing. Otherwise the rows are rewritten as `Edited` states, and the result is the record with the supplied fields applied. The invariant is kept. |
| Store.Store.EditValidated | acom/data.py:165-180 | After validation: looks the thing up, applies the writes, and reads the record back. |
| Store.Store.Apply | acom/data.py:168-173 | The loop over supplied fields inserts a row for each field the record lacks and updates the rows of each field whose value differs. Nothing else is written. |
| Store.Store.Reread | acom/data.py:175-180 | The final lookup returns the edited thing's view. |
| Updates.EditedAttrs | acom/data.py:168-173 | After `edit` the thing's attributes are its old ones overridden by the supplied fields. |
| Updates.EditWritesOnlyChanges | acom/data.py:168-173 | A row changes only if it is a row of the edited thing for a supplied key whose value differed, and it then gets the new value. Other things' rows, unsupplied keys and equal values are untouched. |
| Updates.EditedKeepsValid | acom/data.py:155-180 | `edit`'s writes keep the invariant and leave every primary-value selection as it was. |
| Updates.EditSparesPrimary | acom/data.py:161-164 | Since the supplied primary value equals `name`, `edit` neither changes nor adds a primary row. |
| Store.Store.Delete | acom/data.py:296-310 | No match means None and nothing changes. Otherwise exactly that thing's row is removed, property rows stay, and the result is an empty dict. Either way `lookup` of the value afterwards is DoesNotExist, and the invariant is kept. |
| Updates.SelectAfterDelete | acom/data.py:303-308 | Deleting a thing row drops its id from every selection. |
| Updates.DeleteKeepsValid | acom/data.py:303-308 | Deleting a thing row keeps the invariant and keeps primary values unique. |
| Tables.WithoutId | acom/data.py:303-308 | Keeps exactly the thing rows with another id, and unique ids stay unique. |
| Store.Store.ClearTestData | acom/data.py:312-320 | Outside test mode it raises and changes nothing. In test mode it removes exactly the things of the type, keeps property rows, and `list()` is empty afterwards. |
| Updates.ClearKeepsValid | acom/data.py:312-320 | Removing a type's things keeps the invariant and empties every selection of the type. |
| Tables.WithoutKind | acom/data.py:315-319 | Keeps exactly the thing rows of other types, and unique ids stay unique. |

## Left out

- Configuration and the connection: reading the config file, `connect`, `test_mode()` reopening the connection, and `cursor()` are I/O. `TESTMODE` is a constant of `Database`.
- Commits, SQL syntax and the driver: `lastrowid` is the counter `nextId`, which never reuses an id.
- Id reuse: the model assumes the `thing` id column never hands out a deleted id again. SQLite's plain `INTEGER PRIMARY KEY` may reuse the largest id after it is deleted. That would re-attach the property rows `delete` leaves behind to the new thing, and the model does not capture it.
- The `id` column of `properties`: `_update_kv` reads it only to pick out the rows that `(thing_id, key)` already identifies. Property rows therefore carry no id, and `_update_kv` selects them by `(thing_id, key)` directly.
- The derived-field hooks: in `Base` they are no-ops, and the subclasses that override them are not part of this model.
- `REST % value`: Python string formatting is the `render` parameter of a `Kind`.
- `json.dumps`/`json.loads`: floats are not modelled, and neither is the library's text format (spacing, escapes, key order). JSON text is a sequence of tokens.
- Python equality quirks: `edit` compares values with Python `!=`, which makes `1 == True` and `1 == 1.0`. The model compares JSON values structurally.
- Concurrency: the non-atomic check-then-insert of `add` and the per-write commits of `edit`.
- Result order: `_reformat` returns `results.values()`, a list in dict order. The model returns the map from thing id to record. `results[0]` in `get_by_id` and `find` is the one record when there is exactly one.
- The caller's dict: `check_required_fields` and `add`/`edit` edit the caller's dict in place. The model passes the map by value, so a caller does not see the popped `href` or the partly stripped map that a failed call leaves behind.
- Store.Store.CheckRequiredFields: when several fields are unknown, the source names the first in its dict's iteration order. The model names one of them, and the contract says only that the named key is unknown.
- Store.Store.Add: `add`'s first `lookup` could raise Ambigious, which would pass to the caller. The invariant (unique primary values) rules that out, so the model has no such outcome.
- Store.Store.Edit: the same holds for `edit`'s `lookup`, which could raise Ambigious. The invariant rules it out, and the model has no such outcome.
- Store.Store.Delete: returns `Option` (None or an empty dict), not `Result`. Its `Ambigious` branch cannot be reached while primary values are unique, and the invariant guarantees that. It takes the id from the result's key rather than from `obj[0]['id']`; the two are equal.
- Store.Store: the source appends to `FIELDS['protected']`, a list shared by every instance of a record type. The model keeps the list in the `Store` object and assumes one `Store` object per record type. Two objects of the same type would share the list in the source but not in the model.
- Store.Store.Valid: the schema is assumed to declare no default for `id` or `href` (`SchemaOk`), and the tables to start in the invariant.
- The exception classes (`acom/data.py:52-65`) are the constructors of `Errors.Error`, with no members of their own. Messages are not modelled; an `InvalidInput` records which field it is about.
