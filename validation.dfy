/**
 * Field validation (`check_required_fields`): the per-type schema and, as
 * functions, what the validation does to a caller's field map. The method
 * that performs it step by step is Store.CheckRequiredFields; its contract is
 * stated with Validate.
 */
module Validation {
  import opened Wrappers
  import opened Json
  import opened Errors

  /** A field map as the caller passes it: field name to value. */
  type Fields = map<string, Json>

  /** The immutable part of a type's FIELDS. The `protected` list is kept by
      the store, because validation appends to it. */
  datatype Schema = Schema(
    primary: string,
    required: seq<string>,
    optional: Fields,           // name -> default
    private: seq<string>,
    hidden: seq<string>)

  /** The protected field that test mode injects. */
  const TestMarker := "TESTMODE"
  /** The one protected field whose presence is an error rather than dropped. */
  const Salt := "_salt"

  /** No default is declared for `id` or `href`, the two names the store
      itself puts into every result. */
  predicate SchemaOk(s: Schema) {
    "id" !in s.optional && "href" !in s.optional
  }

  /** The first internal call in test mode registers the marker as protected. */
  predicate Injects(protected: seq<string>, testMode: bool, internal: bool) {
    internal && testMode && TestMarker !in protected
  }

  function ProtectedAfter(protected: seq<string>, testMode: bool, internal: bool): seq<string> {
    if Injects(protected, testMode, internal) then protected + [TestMarker] else protected
  }

  /** Steps 1 and 2: inject the marker, drop `id`. */
  function Prepare(protected: seq<string>, testMode: bool, internal: bool, fields: Fields): Fields {
    var marked := if Injects(protected, testMode, internal) then fields[TestMarker := Num(1)] else fields;
    marked - {"id"}
  }

  /** Step 3 for an external caller: drop every protected field, in list
      order, failing at `_salt`. */
  function StripProtected(ps: seq<string>, fields: Fields): (r: Result<Fields>)
    ensures r.Failure? <==> Salt in ps && Salt in fields
    ensures r.Failure? ==> r.error == Fatal(ProtectedSalt)
    ensures r.Success? ==> r.value == fields - (set p | p in ps)
    decreases ps
  {
    if ps == [] then Success(fields)
    else if ps[0] in fields then
      if ps[0] == Salt then Failure(Fatal(ProtectedSalt))
      else StripProtected(ps[1..], fields - {ps[0]})
    else StripProtected(ps[1..], fields)
  }

  /** Steps 1 to 3. */
  function Screen(protected: seq<string>, testMode: bool, internal: bool, fields: Fields): Result<Fields> {
    var prepared := Prepare(protected, testMode, internal, fields);
    if internal then Success(prepared)
    else StripProtected(ProtectedAfter(protected, testMode, internal), prepared)
  }

  /** The first required name, in declaration order, absent from `fields`. */
  function FirstMissing(required: seq<string>, fields: Fields): (m: Option<string>)
    ensures m.None? <==> forall f :: f in required ==> f in fields
    ensures m.Some? ==> exists i :: 0 <= i < |required| && required[i] == m.value && m.value !in fields
                                    && forall j :: 0 <= j < i ==> required[j] in fields
    decreases required
  {
    if required == [] then None
    else if required[0] !in fields then Some(required[0])
    else
      var m := FirstMissing(required[1..], fields);
      assert m.Some? ==> exists i :: 1 <= i < |required| && required[i] == m.value && m.value !in fields
                                     && forall j :: 0 <= j < i ==> required[j] in fields by {
        if m.Some? {
          var i :| 0 <= i < |required[1..]| && required[1..][i] == m.value && m.value !in fields
                   && forall j :: 0 <= j < i ==> required[1..][j] in fields;
          assert required[i + 1] == m.value;
          assert forall j :: 0 <= j < i + 1 ==> required[j] in fields by {
            forall j | 0 <= j < i + 1 ensures required[j] in fields {
              if j > 0 { assert required[j] == required[1..][j - 1]; }
            }
          }
        }
      }
      m
  }

  /** Every optional field the caller left out gets its default. */
  function FillDefaults(fields: Fields, optional: Fields): (r: Fields)
    ensures r.Keys == fields.Keys + optional.Keys
    ensures forall k :: k in fields ==> r[k] == fields[k]
    ensures forall k :: k in optional && k !in fields ==> r[k] == optional[k]
  {
    optional + fields
  }

  /** Step 4, create mode only. */
  function CreateCheck(s: Schema, fields: Fields): Result<Fields> {
    if s.primary !in fields || fields[s.primary] == Null then
      Failure(InvalidInput(MissingPrimary(s.primary)))
    else match FirstMissing(s.required, fields)
      case Some(f) => Failure(InvalidInput(MissingRequired(f)))
      case None => Success(FillDefaults(fields, s.optional))
  }

  /** Step 5: the names a validated map may hold. */
  predicate Allowed(s: Schema, ps: seq<string>, internal: bool, k: string) {
    (internal && k in ps) || k in s.required || k in s.optional || k == s.primary
  }

  function Unknown(s: Schema, ps: seq<string>, internal: bool, fields: Fields): set<string> {
    set k | k in fields && !Allowed(s, ps, internal, k)
  }

  /** The verdict of validation. When several fields are unknown, which one
      the error names depends on the order of the caller's dict, so the
      verdict keeps all of them. */
  datatype Checked =
    | Accepted(fields: Fields)
    | Rejected(error: Error)
    | Unexpected(keys: set<string>)

  function Validate(s: Schema, protected: seq<string>, testMode: bool, fields: Fields,
                    edit: bool, internal: bool): Checked
  {
    match Screen(protected, testMode, internal, fields)
    case Failure(e) => Rejected(e)
    case Success(screened) =>
      match (if edit then Success(screened) else CreateCheck(s, screened))
      case Failure(e) => Rejected(e)
      case Success(complete) =>
        var bad := Unknown(s, ProtectedAfter(protected, testMode, internal), internal, complete);
        if bad == {} then Accepted(complete) else Unexpected(bad)
  }

  /** `r` is an outcome the method may produce for verdict `c`. */
  predicate Reports(c: Checked, r: Result<Fields>) {
    match c
    case Accepted(f) => r == Success(f)
    case Rejected(e) => r == Failure(e)
    case Unexpected(bad) =>
      r.Failure? && r.error.InvalidInput? && r.error.problem.UnknownField? && r.error.problem.field in bad
  }

  /** After validation `id` is gone, and so is every protected field unless the
      caller is internal; either can reappear only as a declared default in
      create mode. */
  lemma AcceptedDropsIdAndProtected(s: Schema, protected: seq<string>, testMode: bool, fields: Fields,
                                    edit: bool, internal: bool)
    requires Validate(s, protected, testMode, fields, edit, internal).Accepted?
    ensures var f := Validate(s, protected, testMode, fields, edit, internal).fields;
      forall k :: k in f && (k == "id" || (!internal && k in protected)) ==>
        !edit && k in s.optional && f[k] == s.optional[k]
  {
  }

  /** A supplied `_salt` that is protected makes an external call fail, and
      nothing else raises the bare exception. */
  lemma SaltIsFatal(s: Schema, protected: seq<string>, testMode: bool, fields: Fields,
                    edit: bool, internal: bool)
    ensures var c := Validate(s, protected, testMode, fields, edit, internal);
      (c.Rejected? && c.error.Fatal?) <==> (!internal && Salt in protected && Salt in fields)
    ensures var c := Validate(s, protected, testMode, fields, edit, internal);
      c.Rejected? && c.error.Fatal? ==> c.error == Fatal(ProtectedSalt)
  {
  }

  /** Create mode: the primary field must be present and not null, and every
      required field present; which error is raised follows the order of the
      checks. */
  lemma CreateModeChecks(s: Schema, protected: seq<string>, testMode: bool, fields: Fields,
                         internal: bool, screened: Fields)
    requires Screen(protected, testMode, internal, fields) == Success(screened)
    ensures var c := Validate(s, protected, testMode, fields, false, internal);
      && (c.Accepted? ==>
            s.primary in screened && screened[s.primary] != Null
            && forall f :: f in s.required ==> f in screened)
      && (s.primary !in screened || screened[s.primary] == Null ==>
            c == Rejected(InvalidInput(MissingPrimary(s.primary))))
      && (s.primary in screened && screened[s.primary] != Null && (exists f :: f in s.required && f !in screened) ==>
            c.Rejected? && c.error.InvalidInput? && c.error.problem.MissingRequired?
            && c.error.problem.field in s.required && c.error.problem.field !in screened)
  {
  }

  /** Create mode: on success every optional field is present, absent ones hold
      their default, and what the caller supplied is kept. */
  lemma DefaultsFilled(s: Schema, protected: seq<string>, testMode: bool, fields: Fields,
                       internal: bool, screened: Fields)
    requires Screen(protected, testMode, internal, fields) == Success(screened)
    requires Validate(s, protected, testMode, fields, false, internal).Accepted?
    ensures var f := Validate(s, protected, testMode, fields, false, internal).fields;
      && f.Keys == screened.Keys + s.optional.Keys
      && (forall k :: k in screened ==> f[k] == screened[k])
      && (forall k :: k in s.optional && k !in screened ==> f[k] == s.optional[k])
  {
  }

  /** Edit mode adds nothing: the validated map is the screened input. */
  lemma EditModeKeepsInput(s: Schema, protected: seq<string>, testMode: bool, fields: Fields,
                           internal: bool, screened: Fields)
    requires Screen(protected, testMode, internal, fields) == Success(screened)
    requires Validate(s, protected, testMode, fields, true, internal).Accepted?
    ensures Validate(s, protected, testMode, fields, true, internal).fields == screened
  {
  }

  /** Closed world: an accepted map holds only the primary, required and
      optional names, and protected names only for internal callers; a map
      with any other name is refused, naming one of them. */
  lemma ClosedWorld(s: Schema, protected: seq<string>, testMode: bool, fields: Fields,
                    edit: bool, internal: bool)
    ensures var c := Validate(s, protected, testMode, fields, edit, internal);
      var ps := ProtectedAfter(protected, testMode, internal);
      && (c.Accepted? ==> forall k :: k in c.fields ==> Allowed(s, ps, internal, k))
      && (c.Unexpected? ==> c.keys != {} && forall k :: k in c.keys ==> !Allowed(s, ps, internal, k))
  {
  }

  /** The marker is injected on the first internal call in test mode only:
      the call registers it as protected, so the next call adds nothing. */
  lemma MarkerInjectedOnce(protected: seq<string>, fields: Fields, again: Fields)
    requires TestMarker !in protected
    ensures Prepare(protected, true, true, fields)[TestMarker] == Num(1)
    ensures var ps := ProtectedAfter(protected, true, true);
      TestMarker in ps && Prepare(ps, true, true, again) == again - {"id"}
  {
  }

  /** Validation never leaves `id`, nor `href` if the caller's map had none,
      when the schema declares neither as optional. */
  lemma ValidatedKeysNotReserved(s: Schema, protected: seq<string>, testMode: bool, fields: Fields,
                                 edit: bool, internal: bool)
    requires SchemaOk(s) && "href" !in fields
    requires Validate(s, protected, testMode, fields, edit, internal).Accepted?
    ensures var f := Validate(s, protected, testMode, fields, edit, internal).fields;
      "id" !in f && "href" !in f
  {
  }
}
