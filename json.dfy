/**
 * The value codec. Attribute values are stored as JSON text (RFC 8259). The
 * text is modelled at the level of its tokens (section 2 of RFC 8259: the
 * literal names, numbers, strings and the six structural characters), so that
 * Encode plays the part of `json.dumps` and Decode the part of `json.loads`.
 * The point of the module is the round trip Decode(Encode(v)) == Some(v),
 * from which it follows that two values are equal exactly when their stored
 * texts are: the store compares texts when it searches and values when it
 * edits, and the two agree.
 */
module Json {
  import opened Wrappers

  /** A JSON value. Floating-point numbers are not modelled. An object keeps
      its members in order. */
  datatype Json =
    | Null
    | Bool(b: bool)
    | Num(n: int)
    | Str(s: string)
    | Arr(items: seq<Json>)
    | Obj(members: seq<Member>)

  datatype Member = Member(name: string, value: Json)

  /** The tokens of JSON text. */
  datatype Token =
    | NullLit
    | TrueLit
    | FalseLit
    | NumLit(n: int)
    | StrLit(s: string)
    | BeginArray       // [
    | EndArray         // ]
    | BeginObject      // {
    | EndObject        // }
    | NameSeparator    // :
    | ValueSeparator   // ,

  type Text = seq<Token>

  function Encode(v: Json): (t: Text)
    decreases v
  {
    match v
    case Null => [NullLit]
    case Bool(b) => [if b then TrueLit else FalseLit]
    case Num(n) => [NumLit(n)]
    case Str(s) => [StrLit(s)]
    case Arr(items) => [BeginArray] + EncodeItems(items) + [EndArray]
    case Obj(members) => [BeginObject] + EncodeMembers(members) + [EndObject]
  }

  /** The elements of an array, separated by commas. */
  function EncodeItems(items: seq<Json>): Text
    decreases items
  {
    if items == [] then []
    else if |items| == 1 then Encode(items[0])
    else Encode(items[0]) + [ValueSeparator] + EncodeItems(items[1..])
  }

  /** The members of an object, `"name": value`, separated by commas. */
  function EncodeMembers(members: seq<Member>): Text
    decreases members
  {
    if members == [] then []
    else
      var first := [StrLit(members[0].name), NameSeparator] + Encode(members[0].value);
      if |members| == 1 then first
      else first + [ValueSeparator] + EncodeMembers(members[1..])
  }

  /** Parses one value at the front of `t`; returns it and the tokens after it. */
  function ParseValue(t: Text): (r: Option<(Json, Text)>)
    ensures r.Some? ==> |r.value.1| < |t|
    decreases |t|, 0
  {
    if t == [] then None
    else match t[0]
      case NullLit => Some((Null, t[1..]))
      case TrueLit => Some((Bool(true), t[1..]))
      case FalseLit => Some((Bool(false), t[1..]))
      case NumLit(n) => Some((Num(n), t[1..]))
      case StrLit(s) => Some((Str(s), t[1..]))
      case BeginArray =>
        if |t| > 1 && t[1] == EndArray then Some((Arr([]), t[2..]))
        else
          (match ParseItems(t[1..])
           case None => None
           case Some((items, rest)) => Some((Arr(items), rest)))
      case BeginObject =>
        if |t| > 1 && t[1] == EndObject then Some((Obj([]), t[2..]))
        else
          (match ParseMembers(t[1..])
           case None => None
           case Some((members, rest)) => Some((Obj(members), rest)))
      case _ => None
  }

  /** Parses `value (, value)* ]`; returns the values and the tokens after `]`. */
  function ParseItems(t: Text): (r: Option<(seq<Json>, Text)>)
    ensures r.Some? ==> |r.value.1| < |t|
    decreases |t|, 1
  {
    match ParseValue(t)
    case None => None
    case Some((v, rest)) =>
      if rest == [] then None
      else if rest[0] == EndArray then Some(([v], rest[1..]))
      else if rest[0] == ValueSeparator then
        (match ParseItems(rest[1..])
         case None => None
         case Some((more, rest')) => Some(([v] + more, rest')))
      else None
  }

  /** Parses `"name": value (, "name": value)* }`; returns the members and the
      tokens after `}`. */
  function ParseMembers(t: Text): (r: Option<(seq<Member>, Text)>)
    ensures r.Some? ==> |r.value.1| < |t|
    decreases |t|, 1
  {
    if |t| < 2 || !t[0].StrLit? || t[1] != NameSeparator then None
    else match ParseValue(t[2..])
      case None => None
      case Some((v, rest)) =>
        var m := Member(t[0].s, v);
        if rest == [] then None
        else if rest[0] == EndObject then Some(([m], rest[1..]))
        else if rest[0] == ValueSeparator then
          (match ParseMembers(rest[1..])
           case None => None
           case Some((more, rest')) => Some(([m] + more, rest')))
        else None
  }

  /** `json.loads`: the text must be exactly one value. */
  function Decode(t: Text): Option<Json> {
    match ParseValue(t)
    case Some((v, rest)) => if rest == [] then Some(v) else None
    case None => None
  }

  lemma {:induction false} EncodeStartsWithValue(v: Json)
    ensures |Encode(v)| > 0
    ensures Encode(v)[0] != EndArray && Encode(v)[0] != EndObject
    ensures Encode(v)[0] != ValueSeparator && Encode(v)[0] != NameSeparator
  {
  }

  lemma {:induction false} ParseEncoded(v: Json, rest: Text)
    ensures ParseValue(Encode(v) + rest) == Some((v, rest))
    decreases v, 1
  {
    match v
    case Null =>
    case Bool(b) =>
    case Num(n) =>
    case Str(s) =>
    case Arr(items) => ParseEncodedArray(items, rest);
    case Obj(members) => ParseEncodedObject(members, rest);
  }

  lemma {:induction false} ParseEncodedArray(items: seq<Json>, rest: Text)
    ensures ParseValue(Encode(Arr(items)) + rest) == Some((Arr(items), rest))
    decreases Arr(items), 0
  {
    var t := Encode(Arr(items)) + rest;
    if items == [] {
      assert t == [BeginArray, EndArray] + rest;
      assert t[2..] == rest;
    } else {
      var body := EncodeItems(items) + [EndArray] + rest;
      assert |t| > 1 && t[0] == BeginArray && t[1] != EndArray && t[1..] == body by {
        assert t == [BeginArray] + body;
        EncodeItemsStart(items);
        assert t[1] == body[0];
      }
      ParseArrayAt(t);
      ParseEncodedItems(items, rest);
    }
  }

  lemma {:induction false} ParseEncodedObject(members: seq<Member>, rest: Text)
    ensures ParseValue(Encode(Obj(members)) + rest) == Some((Obj(members), rest))
    decreases Obj(members), 0
  {
    var t := Encode(Obj(members)) + rest;
    if members == [] {
      assert t == [BeginObject, EndObject] + rest;
      assert t[2..] == rest;
    } else {
      var body := EncodeMembers(members) + [EndObject] + rest;
      assert |t| > 1 && t[0] == BeginObject && t[1] != EndObject && t[1..] == body by {
        assert t == [BeginObject] + body;
        assert t[1] == StrLit(members[0].name);
      }
      ParseObjectAt(t);
      ParseEncodedMembers(members, rest);
    }
  }

  /** An array that is not empty parses as its items. */
  lemma ParseArrayAt(t: Text)
    requires |t| > 1 && t[0] == BeginArray && t[1] != EndArray
    ensures ParseValue(t) ==
      match ParseItems(t[1..])
      case None => None
      case Some((items, rest)) => Some((Arr(items), rest))
  {
  }

  /** An object that is not empty parses as its members. */
  lemma ParseObjectAt(t: Text)
    requires |t| > 1 && t[0] == BeginObject && t[1] != EndObject
    ensures ParseValue(t) ==
      match ParseMembers(t[1..])
      case None => None
      case Some((members, rest)) => Some((Obj(members), rest))
  {
  }

  lemma {:induction false} EncodeItemsStart(items: seq<Json>)
    requires items != []
    ensures |EncodeItems(items)| > 0 && EncodeItems(items)[0] == Encode(items[0])[0]
  {
    EncodeStartsWithValue(items[0]);
  }

  lemma {:induction false} ParseEncodedItems(items: seq<Json>, rest: Text)
    requires items != []
    ensures ParseItems(EncodeItems(items) + [EndArray] + rest) == Some((items, rest))
    decreases items
  {
    if |items| == 1 {
      ParseEncodedLastItem(items, rest);
    } else {
      ParseEncodedItems(items[1..], rest);
      ParseEncodedNextItem(items, rest);
    }
  }

  lemma ParseEncodedLastItem(items: seq<Json>, rest: Text)
    requires |items| == 1
    ensures ParseItems(EncodeItems(items) + [EndArray] + rest) == Some((items, rest))
    decreases items, 0
  {
    var x := items[0];
    var t := EncodeItems(items) + [EndArray] + rest;
    var after := [EndArray] + rest;
    assert t == Encode(x) + after;
    ParseEncoded(x, after);
    ParseItemAt(t, x, after);
    assert after[1..] == rest;
    assert [x] == items;
  }

  lemma ParseEncodedNextItem(items: seq<Json>, rest: Text)
    requires |items| > 1
    requires ParseItems(EncodeItems(items[1..]) + [EndArray] + rest) == Some((items[1..], rest))
    ensures ParseItems(EncodeItems(items) + [EndArray] + rest) == Some((items, rest))
    decreases items, 0
  {
    var x := items[0];
    var t := EncodeItems(items) + [EndArray] + rest;
    var tail := EncodeItems(items[1..]) + [EndArray] + rest;
    var after := [ValueSeparator] + tail;
    assert t == Encode(x) + after by {
      assert EncodeItems(items) == Encode(x) + [ValueSeparator] + EncodeItems(items[1..]);
      Regroup([], Encode(x), EncodeItems(items[1..]), [EndArray], rest);
      assert [] + Encode(x) == Encode(x);
    }
    ParseEncoded(x, after);
    ParseItemAt(t, x, after);
    assert after[1..] == tail;
    assert [x] + items[1..] == items;
  }

  /** The text of a member or element followed by the rest of its list. */
  lemma Regroup(p: Text, e: Text, more: Text, close: Text, rest: Text)
    ensures p + e + [ValueSeparator] + more + close + rest == p + (e + ([ValueSeparator] + (more + close + rest)))
  {
  }

  /** One step of ParseItems, once the value at the front has been parsed. */
  lemma ParseItemAt(t: Text, x: Json, after: Text)
    requires ParseValue(t) == Some((x, after))
    ensures ParseItems(t) ==
      if after == [] then None
      else if after[0] == EndArray then Some(([x], after[1..]))
      else if after[0] == ValueSeparator then
        (match ParseItems(after[1..])
         case None => None
         case Some((more, rest')) => Some(([x] + more, rest')))
      else None
  {
  }

  lemma {:induction false} ParseEncodedMembers(members: seq<Member>, rest: Text)
    requires members != []
    ensures ParseMembers(EncodeMembers(members) + [EndObject] + rest) == Some((members, rest))
    decreases members
  {
    if |members| == 1 {
      ParseEncodedLastMember(members, rest);
    } else {
      ParseEncodedMembers(members[1..], rest);
      ParseEncodedNextMember(members, rest);
    }
  }

  lemma ParseEncodedLastMember(members: seq<Member>, rest: Text)
    requires |members| == 1
    ensures ParseMembers(EncodeMembers(members) + [EndObject] + rest) == Some((members, rest))
    decreases members, 0
  {
    var m := members[0];
    var t := EncodeMembers(members) + [EndObject] + rest;
    var after := [EndObject] + rest;
    assert t == [StrLit(m.name), NameSeparator] + (Encode(m.value) + after);
    ParseEncoded(m.value, after);
    ParseMemberAt(t, m, after);
    assert after[1..] == rest;
    assert [m] == members;
  }

  lemma ParseEncodedNextMember(members: seq<Member>, rest: Text)
    requires |members| > 1
    requires ParseMembers(EncodeMembers(members[1..]) + [EndObject] + rest) == Some((members[1..], rest))
    ensures ParseMembers(EncodeMembers(members) + [EndObject] + rest) == Some((members, rest))
    decreases members, 0
  {
    var m := members[0];
    var t := EncodeMembers(members) + [EndObject] + rest;
    var tail := EncodeMembers(members[1..]) + [EndObject] + rest;
    var after := [ValueSeparator] + tail;
    assert t == [StrLit(m.name), NameSeparator] + (Encode(m.value) + after) by {
      assert EncodeMembers(members)
          == [StrLit(m.name), NameSeparator] + Encode(m.value) + [ValueSeparator] + EncodeMembers(members[1..]);
      Regroup([StrLit(m.name), NameSeparator], Encode(m.value), EncodeMembers(members[1..]), [EndObject], rest);
    }
    ParseEncoded(m.value, after);
    ParseMemberAt(t, m, after);
    assert after[1..] == tail;
    assert [m] + members[1..] == members;
  }

  /** One step of ParseMembers, once the member at the front has been parsed. */
  lemma ParseMemberAt(t: Text, m: Member, after: Text)
    requires t == [StrLit(m.name), NameSeparator] + (Encode(m.value) + after)
    requires ParseValue(Encode(m.value) + after) == Some((m.value, after))
    ensures ParseMembers(t) ==
      if after == [] then None
      else if after[0] == EndObject then Some(([m], after[1..]))
      else if after[0] == ValueSeparator then
        (match ParseMembers(after[1..])
         case None => None
         case Some((more, rest')) => Some(([m] + more, rest')))
      else None
  {
    assert t[2..] == Encode(m.value) + after;
  }

  /** Decoding the text of a value gives the value back. */
  lemma {:induction false} DecodeEncode(v: Json)
    ensures Decode(Encode(v)) == Some(v)
  {
    ParseEncoded(v, []);
    assert Encode(v) + [] == Encode(v);
  }

  /** The value a stored text stands for. Every text the store writes is an
      encoding, so the default is never reached (Tables.Valid). */
  function Dec(t: Text): Json {
    Decode(t).GetOr(Null)
  }

  lemma DecEncode(v: Json)
    ensures Dec(Encode(v)) == v
  {
    DecodeEncode(v);
  }

  /** Equal texts come from equal values, so comparing stored texts is
      comparing values. */
  lemma {:induction false} EncodeInjective(a: Json, b: Json)
    ensures Encode(a) == Encode(b) <==> a == b
  {
    if Encode(a) == Encode(b) {
      DecodeEncode(a);
      DecodeEncode(b);
    }
  }
}
