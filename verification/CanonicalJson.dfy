/** Canonical serialisation of JSON (src/api/mutation.rs): objects with their keys
    sorted, no spaces, strings escaped as serde_json does. Text is code points; the final
    UTF-8 encoding is not part of this model. */
module CanonicalJson {
  import opened Wrappers
  import opened Json
  import opened StringOrder
  import Text

  // ---------------------------------------------------------------- the serialiser

  function HexDigit(d: nat): char
    requires d < 16
  {
    if d < 10 then ('0' as int + d) as char else ('a' as int + d - 10) as char
  }

  function EscapeChar(c: char): string {
    if c == '"' then "\\\""
    else if c == '\\' then "\\\\"
    else if c == 8 as char then "\\b"
    else if c == 9 as char then "\\t"
    else if c == 10 as char then "\\n"
    else if c == 12 as char then "\\f"
    else if c == 13 as char then "\\r"
    else if c < 32 as char then "\\u00" + [HexDigit(c as int / 16), HexDigit(c as int % 16)]
    else [c]
  }

  function EscapeAll(s: string): string {
    if s == [] then "" else EscapeChar(s[0]) + EscapeAll(s[1..])
  }

  function Quoted(s: string): string { "\"" + EscapeAll(s) + "\"" }

  ghost function Canonical(v: Json): string
    decreases v, 1
  {
    match v
    case Null => "null"
    case Bool(b) => if b then "true" else "false"
    case Number(text) => text
    case Str(s) => Quoted(s)
    case Array(items) => "[" + ItemsFrom(v, 0) + "]"
    case Object(fields) => "{" + FieldsOf(v, Sorted(fields.Keys)) + "}"
  }

  /** Items `i..`, separated by commas. */
  ghost function ItemsFrom(v: Json, i: nat): string
    requires v.Array? && i <= |v.items|
    decreases v, 0, |v.items| - i
  {
    if i == |v.items| then ""
    else if i + 1 == |v.items| then Canonical(v.items[i])
    else Canonical(v.items[i]) + "," + ItemsFrom(v, i + 1)
  }

  /** The members under `keys`, in that order, separated by commas. */
  ghost function FieldsOf(v: Json, keys: seq<string>): string
    requires v.Object? && forall k :: k in keys ==> k in v.fields
    decreases v, 0, |keys|
  {
    if keys == [] then ""
    else
      var member := Quoted(keys[0]) + ":" + Canonical(v.fields[keys[0]]);
      if |keys| == 1 then member else member + "," + FieldsOf(v, keys[1..])
  }

  // ---------------------------------------------------------------- a reader for it

  function HexValue(c: char): Option<nat> {
    if '0' <= c <= '9' then Some(c as int - '0' as int)
    else if 'a' <= c <= 'f' then Some(c as int - 'a' as int + 10)
    else None
  }

  /** One character of a string body: plain, or one of the escapes the serialiser uses. */
  function ReadChar(s: string): (r: Option<(char, string)>)
    ensures r.Some? ==> |r.value.1| < |s|
  {
    if s == [] || s[0] == '"' then None
    else if s[0] != '\\' then Some((s[0], s[1..]))
    else if |s| < 2 then None
    else
      match s[1]
      case '"' => Some(('"', s[2..]))
      case '\\' => Some(('\\', s[2..]))
      case 'b' => Some((8 as char, s[2..]))
      case 't' => Some((9 as char, s[2..]))
      case 'n' => Some((10 as char, s[2..]))
      case 'f' => Some((12 as char, s[2..]))
      case 'r' => Some((13 as char, s[2..]))
      case 'u' =>
        if |s| < 6 || s[2..4] != "00" then None
        else
          (match (HexValue(s[4]), HexValue(s[5]))
           case (Some(h), Some(l)) => Some(((16 * h + l) as char, s[6..]))
           case _ => None)
      case _ => None
  }

  /** The rest of a string after its opening quote. */
  function ReadString(s: string): (r: Option<(string, string)>)
    ensures r.Some? ==> |r.value.1| < |s|
    decreases |s|
  {
    if s != [] && s[0] == '"' then Some(("", s[1..]))
    else
      match ReadChar(s)
      case None => None
      case Some((c, tail)) =>
        match ReadString(tail)
        case None => None
        case Some((text, rest)) => Some(([c] + text, rest))
  }

  function NumberLength(s: string): (n: nat)
    ensures n <= |s|
    ensures forall i :: 0 <= i < n ==> IsNumberChar(s[i])
    ensures n < |s| ==> !IsNumberChar(s[n])
  {
    if s == [] || !IsNumberChar(s[0]) then 0 else 1 + NumberLength(s[1..])
  }

  function ReadValue(s: string): (r: Option<(Json, string)>)
    ensures r.Some? ==> |r.value.1| < |s|
    decreases |s|, 1
  {
    if s == [] then None
    else if s[0] == 'n' then (if Text.StartsWith(s, "null") then Some((Null, s[4..])) else None)
    else if s[0] == 't' then (if Text.StartsWith(s, "true") then Some((Bool(true), s[4..])) else None)
    else if s[0] == 'f' then (if Text.StartsWith(s, "false") then Some((Bool(false), s[5..])) else None)
    else if s[0] == '"' then
      match ReadString(s[1..])
      case None => None
      case Some((text, rest)) => Some((Str(text), rest))
    else if s[0] == '[' then
      if Text.StartsWith(s, "[]") then Some((Array([]), s[2..]))
      else
        match ReadItems(s[1..])
        case None => None
        case Some((items, rest)) => Some((Array(items), rest))
    else if s[0] == '{' then
      if Text.StartsWith(s, "{}") then Some((Object(map[]), s[2..]))
      else
        match ReadFields(s[1..])
        case None => None
        case Some((fields, rest)) => Some((Object(fields), rest))
    else
      var n := NumberLength(s);
      if n == 0 then None else Some((Number(s[..n]), s[n..]))
  }

  /** One or more items, up to and including the closing bracket. */
  function ReadItems(s: string): (r: Option<(seq<Json>, string)>)
    ensures r.Some? ==> |r.value.1| < |s|
    decreases |s|, 2
  {
    match ReadValue(s)
    case None => None
    case Some((item, rest)) =>
      if rest != [] && rest[0] == ']' then Some(([item], rest[1..]))
      else if rest != [] && rest[0] == ',' then
        match ReadItems(rest[1..])
        case None => None
        case Some((items, end)) => Some(([item] + items, end))
      else None
  }

  /** One or more members, up to and including the closing brace. */
  function ReadFields(s: string): (r: Option<(map<string, Json>, string)>)
    ensures r.Some? ==> |r.value.1| < |s|
    decreases |s|, 2
  {
    if s == [] || s[0] != '"' then None
    else
      match ReadString(s[1..])
      case None => None
      case Some((key, afterKey)) =>
        if afterKey == [] || afterKey[0] != ':' then None
        else
          match ReadValue(afterKey[1..])
          case None => None
          case Some((value, rest)) =>
            if rest != [] && rest[0] == '}' then Some((map[key := value], rest[1..]))
            else if rest != [] && rest[0] == ',' then
              match ReadFields(rest[1..])
              case None => None
              case Some((fields, end)) => Some((fields[key := value], end))
            else None
  }

  // ---------------------------------------------------------------- round trip

  /** Where a value ends: nothing, or a character no number contains. */
  predicate Delimits(rest: string) { rest == [] || !IsNumberChar(rest[0]) }

  lemma ReadEscaped(c: char, rest: string)
    ensures ReadChar(EscapeChar(c) + rest) == Some((c, rest))
    ensures EscapeChar(c)[0] != '"'
  {
    var e := EscapeChar(c);
    var s := e + rest;
    assert s[|e|..] == rest;
    if c < 32 as char && |e| == 6 {
      assert s[2..4] == "00";
      assert 16 * (c as int / 16) + c as int % 16 == c as int;
    }
  }

  lemma {:induction false} ReadQuoted(s: string, rest: string)
    ensures ReadString(EscapeAll(s) + "\"" + rest) == Some((s, rest))
  {
    hide EscapeChar, ReadChar;
    if s == [] {
      assert (EscapeAll(s) + "\"" + rest)[1..] == rest;
    } else {
      var tail := EscapeAll(s[1..]) + "\"" + rest;
      assert EscapeAll(s) + "\"" + rest == EscapeChar(s[0]) + tail;
      ReadEscaped(s[0], tail);
      ReadQuoted(s[1..], rest);
      assert s == [s[0]] + s[1..];
    }
  }

  lemma {:induction false} NumberEnds(t: string, rest: string)
    requires (forall i :: 0 <= i < |t| ==> IsNumberChar(t[i])) && Delimits(rest)
    ensures NumberLength(t + rest) == |t|
  {
    var s := t + rest;
    forall i | 0 <= i < |t| ensures IsNumberChar(s[i]) { assert s[i] == t[i]; }
    assert |t| < |s| ==> s[|t|] == rest[0];
  }

  /** Reading back what was written, whatever follows it. */
  lemma {:induction false} RoundTrip(v: Json, rest: string)
    requires WellFormed(v) && Delimits(rest)
    ensures ReadValue(Canonical(v) + rest) == Some((v, rest))
    ensures Canonical(v) != [] && Canonical(v)[0] != ']'
    decreases v, 1
  {
    match v
    case Array(items) => ArrayRoundTrip(v, rest);
    case Object(fields) => ObjectRoundTrip(v, rest);
    case _ => ScalarRoundTrip(v, rest);
  }

  lemma ScalarRoundTrip(v: Json, rest: string)
    requires WellFormed(v) && Delimits(rest) && !v.Array? && !v.Object?
    ensures ReadValue(Canonical(v) + rest) == Some((v, rest))
    ensures Canonical(v) != [] && Canonical(v)[0] != ']'
  {
    match v
    case Null =>
      var s := "null" + rest;
      assert s[..4] == "null" && s[4..] == rest;
    case Bool(b) => BoolRoundTrip(b, rest);
    case Number(t) => NumberRoundTrip(t, rest);
    case Str(text) => StringRoundTrip(text, rest);
  }

  lemma BoolRoundTrip(b: bool, rest: string)
    ensures ReadValue(Canonical(Bool(b)) + rest) == Some((Bool(b), rest))
  {
    var s := Canonical(Bool(b)) + rest;
    if b { assert s[..4] == "true" && s[4..] == rest; } else { assert s[..5] == "false" && s[5..] == rest; }
  }

  lemma NumberRoundTrip(t: string, rest: string)
    requires IsNumberText(t) && Delimits(rest)
    ensures ReadValue(t + rest) == Some((Number(t), rest))
  {
    var s := t + rest;
    NumberEnds(t, rest);
    assert s[..|t|] == t && s[|t|..] == rest && s[0] == t[0];
  }

  lemma StringRoundTrip(text: string, rest: string)
    ensures ReadValue(Quoted(text) + rest) == Some((Str(text), rest))
  {
    hide EscapeAll, ReadString;
    var s := Quoted(text) + rest;
    assert s[1..] == EscapeAll(text) + "\"" + rest;
    ReadQuoted(text, rest);
  }

  lemma {:induction false} ArrayRoundTrip(v: Json, rest: string)
    requires v.Array? && WellFormed(v)
    ensures ReadValue(Canonical(v) + rest) == Some((v, rest))
    ensures Canonical(v) != [] && Canonical(v)[0] != ']'
    decreases v, 0, |v.items| + 1
  {
    hide ReadValue, ReadItems, ItemsFrom, WellFormed;
    NoItems(v);
    if v.items == [] {
      EmptyArray(rest);
      assert Canonical(v) == "[" + "" + "]" == "[]";
    } else {
      ItemsRoundTrip(v, 0, rest);
      var body := ItemsFrom(v, 0) + "]" + rest;
      assert Canonical(v) + rest == "[" + body;
      assert v.items[0..] == v.items;
      ReadBracketed(v.items, body, rest);
    }
  }

  lemma EmptyArray(rest: string)
    ensures ReadValue("[]" + rest) == Some((Array([]), rest))
  {
    var s := "[]" + rest;
    assert s[..2] == "[]" && s[2..] == rest;
  }

  lemma ReadBracketed(items: seq<Json>, body: string, rest: string)
    requires body != [] && body[0] != ']' && ReadItems(body) == Some((items, rest))
    ensures ReadValue("[" + body) == Some((Array(items), rest))
  {
    hide ReadItems, ReadFields, ReadString, NumberLength;
    var s := "[" + body;
    assert s[1..] == body && s[1] == body[0];
  }

  lemma {:induction false} ObjectRoundTrip(v: Json, rest: string)
    requires v.Object? && WellFormed(v)
    ensures ReadValue(Canonical(v) + rest) == Some((v, rest))
    ensures Canonical(v) != [] && Canonical(v)[0] != ']'
    decreases v, 0, |Sorted(v.fields.Keys)| + 1
  {
    var s := Canonical(v) + rest;
    var keys := Sorted(v.fields.Keys);
    SortedCovers(v.fields);
    var body := FieldsOf(v, keys) + "}" + rest;
    assert s == "{" + body && s[1..] == body;
    if keys != [] { FieldsRoundTrip(v, keys, rest); }
    ReadBraced(v.fields, body, rest, keys == []);
  }

  lemma ReadBraced(fields: map<string, Json>, body: string, rest: string, empty: bool)
    requires if empty then body == "}" + rest && fields == map[]
      else body != [] && body[0] == '"' && ReadFields(body) == Some((fields, rest))
    ensures ReadValue("{" + body) == Some((Object(fields), rest))
  {
    hide ReadFields, ReadItems, ReadString, NumberLength;
    var s := "{" + body;
    assert s[1..] == body;
    if empty {
      assert s[..2] == "{}" && s[2..] == rest;
    } else {
      assert s[1] == '"';
    }
  }

  lemma SortedCovers(fields: map<string, Json>)
    ensures forall k :: k in Sorted(fields.Keys) <==> k in fields
    ensures (map k | k in Sorted(fields.Keys) :: fields[k]) == fields
    ensures Sorted(fields.Keys) == [] ==> fields == map[]
  {
    var keys := Sorted(fields.Keys);
    assert forall k :: k in keys <==> k in Elements(keys);
    if keys == [] { assert fields.Keys == {}; }
  }

  lemma PartsWellFormed(v: Json)
    requires WellFormed(v)
    ensures v.Array? ==> forall i :: 0 <= i < |v.items| ==> WellFormed(v.items[i])
    ensures v.Object? ==> forall k :: k in v.fields ==> WellFormed(v.fields[k])
  {
  }

  lemma {:induction false} ItemsRoundTrip(v: Json, i: nat, rest: string)
    requires v.Array? && i < |v.items| && WellFormed(v)
    ensures ReadItems(ItemsFrom(v, i) + "]" + rest) == Some((v.items[i..], rest))
    ensures ItemsFrom(v, i) != [] && ItemsFrom(v, i)[0] != ']'
    decreases v, 0, |v.items| - i
  {
    hide ReadItems, ReadValue, Canonical, WellFormed;
    PartsWellFormed(v);
    var item := Canonical(v.items[i]);
    if i + 1 == |v.items| {
      RoundTrip(v.items[i], "]" + rest);
      assert ItemsFrom(v, i) + "]" + rest == item + ("]" + rest);
      assert ("]" + rest)[1..] == rest;
      ReadOneItem(v.items[i], item, "]" + rest);
      assert v.items[i..] == [v.items[i]];
    } else {
      var tail := ItemsFrom(v, i + 1) + "]" + rest;
      RoundTrip(v.items[i], "," + tail);
      ItemsRoundTrip(v, i + 1, rest);
      assert ItemsFrom(v, i) + "]" + rest == item + ("," + tail);
      assert ("," + tail)[1..] == tail;
      ReadOneItem(v.items[i], item, "," + tail);
      assert v.items[i..] == [v.items[i]] + v.items[i + 1..];
    }
  }

  lemma {:induction false} FieldsRoundTrip(v: Json, keys: seq<string>, rest: string)
    requires v.Object? && keys != [] && (forall k :: k in keys ==> k in v.fields) && WellFormed(v)
    ensures ReadFields(FieldsOf(v, keys) + "}" + rest) == Some((map k | k in keys :: v.fields[k], rest))
    ensures FieldsOf(v, keys) != [] && FieldsOf(v, keys)[0] == '"'
    decreases v, 0, |keys|
  {
    hide Canonical, WellFormed, ReadFields, ReadValue, Quoted, FieldsOf;
    PartsWellFormed(v);
    var key, value := keys[0], Canonical(v.fields[keys[0]]);
    var more := FieldsOf(v, keys[1..]) + "}" + rest;
    var end := if |keys| == 1 then "}" + rest else "," + more;
    RoundTrip(v.fields[key], end);
    if |keys| > 1 {
      FieldsRoundTrip(v, keys[1..], rest);
      assert end[1..] == more;
    } else {
      assert end[1..] == rest;
    }
    FirstField(v, keys, rest);
    ReadOneField(key, v.fields[key], value, end);
    FieldMaps(v.fields, keys);
  }

  /** The text of the first member and what stands behind it. */
  lemma FirstField(v: Json, keys: seq<string>, rest: string)
    requires v.Object? && keys != [] && forall k :: k in keys ==> k in v.fields
    ensures var end := if |keys| == 1 then "}" + rest else "," + (FieldsOf(v, keys[1..]) + "}" + rest);
      FieldsOf(v, keys) + "}" + rest == Quoted(keys[0]) + ":" + (Canonical(v.fields[keys[0]]) + end)
    ensures FieldsOf(v, keys) != [] && FieldsOf(v, keys)[0] == '"'
  {
    hide Canonical, EscapeAll;
    var q, c := Quoted(keys[0]), Canonical(v.fields[keys[0]]);
    if |keys| == 1 {
      RegroupLast(q, c, rest);
    } else {
      RegroupMore(q, c, FieldsOf(v, keys[1..]), rest);
    }
  }

  lemma RegroupLast(q: string, c: string, rest: string)
    ensures (q + ":" + c) + "}" + rest == q + ":" + (c + ("}" + rest))
  {
  }

  lemma RegroupMore(q: string, c: string, f: string, rest: string)
    ensures ((q + ":" + c) + "," + f) + "}" + rest == q + ":" + (c + ("," + (f + "}" + rest)))
  {
  }

  lemma FieldMaps(fields: map<string, Json>, keys: seq<string>)
    requires keys != [] && forall k :: k in keys ==> k in fields
    ensures (map k | k in keys :: fields[k]) == (map k | k in keys[1..] :: fields[k])[keys[0] := fields[keys[0]]]
    ensures |keys| == 1 ==> (map k | k in keys :: fields[k]) == map[keys[0] := fields[keys[0]]]
  {
    assert forall k :: k in keys <==> k == keys[0] || k in keys[1..];
  }

  /** One item is read, then the closing bracket or the items behind the comma. */
  lemma ReadOneItem(value: Json, text: string, end: string)
    requires end != [] && ReadValue(text + end) == Some((value, end))
    ensures end[0] == ']' ==> ReadItems(text + end) == Some(([value], end[1..]))
    ensures end[0] == ',' && ReadItems(end[1..]).Some? ==>
      ReadItems(text + end) == Some(([value] + ReadItems(end[1..]).value.0, ReadItems(end[1..]).value.1))
  {
  }

  /** One member is read, then the closing brace or the members behind the comma. */
  lemma ReadOneField(key: string, value: Json, text: string, end: string)
    requires end != [] && ReadValue(text + end) == Some((value, end))
    ensures Quoted(key) != [] && Quoted(key)[0] == '"'
    ensures end[0] == '}' ==>
      ReadFields(Quoted(key) + ":" + (text + end)) == Some((map[key := value], end[1..]))
    ensures end[0] == ',' && ReadFields(end[1..]).Some? ==>
      ReadFields(Quoted(key) + ":" + (text + end))
      == Some((ReadFields(end[1..]).value.0[key := value], ReadFields(end[1..]).value.1))
  {
    var afterKey := ":" + (text + end);
    var s := Quoted(key) + ":" + (text + end);
    assert s == "\"" + (EscapeAll(key) + "\"" + afterKey);
    assert s[1..] == EscapeAll(key) + "\"" + afterKey;
    ReadQuoted(key, afterKey);
    assert afterKey[1..] == text + end;
  }

  /** Equal bytes mean equal values: the canonical form is injective up to key order. */
  lemma CanonicalInjective(v: Json, w: Json)
    requires WellFormed(v) && WellFormed(w) && Canonical(v) == Canonical(w)
    ensures v == w
  {
    RoundTrip(v, []);
    RoundTrip(w, []);
    assert Canonical(v) + [] == Canonical(v) && Canonical(w) + [] == Canonical(w);
  }

  // ---------------------------------------------------------------- the writer

  class Output {
    var text: string

    constructor ()
      ensures text == ""
    {
      text := "";
    }

    method Push(piece: string)
      modifies this
      ensures text == old(text) + piece
    {
      text := text + piece;
    }
  }

  /** `object.keys()` collected and sorted. */
  method SortKeys(keys: set<string>) returns (s: seq<string>)
    ensures s == Sorted(keys)
  {
    s := [];
    var left := keys;
    while left != {}
      invariant left <= keys && IsListing(s, keys - left)
      decreases left
    {
      var k :| k in left;
      assert k !in Elements(s);
      InsertListing(s, k);
      s := Insert(s, k);
      left := left - {k};
      assert Elements(s) == keys - left;
    }
    ListingUnique(s, Sorted(keys));
  }

  /** Appends exactly the canonical form of the value to the output. */
  method WriteCanonicalJson(v: Json, out: Output)
    modifies out
    ensures out.text == old(out.text) + Canonical(v)
    decreases v, 1
  {
    hide Quoted, ItemsFrom, FieldsOf, Sorted;
    match v
    case Null => out.Push("null");
    case Bool(b) => out.Push(if b then "true" else "false");
    case Number(text) => out.Push(text);
    case Str(s) => out.Push(Quoted(s));
    case Array(items) =>
      out.Push("[");
      WriteItems(v, out);
      out.Push("]");
    case Object(fields) =>
      out.Push("{");
      var keys := SortKeys(fields.Keys);
      SortedCovers(fields);
      WriteFields(v, keys, out);
      out.Push("}");
  }

  method WriteItems(v: Json, out: Output)
    requires v.Array?
    modifies out
    ensures out.text == old(out.text) + ItemsFrom(v, 0)
    decreases v, 0
  {
    hide Canonical, ItemsFrom;
    var i := 0;
    while i < |v.items|
      invariant 0 <= i <= |v.items|
      invariant out.text + (if 0 < i < |v.items| then "," else "") + ItemsFrom(v, i) == old(out.text) + ItemsFrom(v, 0)
    {
      ghost var comma := if i > 0 then "," else "";
      ghost var before, item := out.text, Canonical(v.items[i]);
      ItemsStep(v, i);
      if i > 0 { out.Push(","); }
      WriteCanonicalJson(v.items[i], out);
      assert out.text == before + comma + item;
      i := i + 1;
    }
    NoItems(v);
  }

  lemma ItemsStep(v: Json, i: nat)
    requires v.Array? && i < |v.items|
    ensures ItemsFrom(v, i) == Canonical(v.items[i]) + ((if i + 1 < |v.items| then "," else "") + ItemsFrom(v, i + 1))
  {
  }

  lemma NoItems(v: Json)
    requires v.Array?
    ensures ItemsFrom(v, |v.items|) == ""
  {
  }

  lemma NoFields(v: Json)
    requires v.Object?
    ensures FieldsOf(v, []) == ""
  {
  }

  lemma FieldsStep(v: Json, keys: seq<string>, i: nat)
    requires v.Object? && i < |keys| && forall k :: k in keys ==> k in v.fields
    ensures FieldsOf(v, keys[i..])
         == Quoted(keys[i]) + ":" + Canonical(v.fields[keys[i]])
            + ((if i + 1 < |keys| then "," else "") + FieldsOf(v, keys[i + 1..]))
  {
    assert keys[i..][1..] == keys[i + 1..];
  }

  method WriteFields(v: Json, keys: seq<string>, out: Output)
    requires v.Object? && forall k :: k in keys ==> k in v.fields
    modifies out
    ensures out.text == old(out.text) + FieldsOf(v, keys)
    decreases v, 0
  {
    hide Canonical, Quoted, FieldsOf;
    NoFields(v);
    var i := 0;
    assert keys[0..] == keys;
    while i < |keys|
      invariant 0 <= i <= |keys|
      invariant out.text + (if 0 < i < |keys| then "," else "") + FieldsOf(v, keys[i..])
        == old(out.text) + FieldsOf(v, keys)
    {
      ghost var comma := if i > 0 then "," else "";
      ghost var before, member := out.text, Quoted(keys[i]) + ":" + Canonical(v.fields[keys[i]]);
      FieldsStep(v, keys, i);
      if i > 0 { out.Push(","); }
      out.Push(Quoted(keys[i]));
      out.Push(":");
      WriteCanonicalJson(v.fields[keys[i]], out);
      assert out.text == before + comma + member;
      i := i + 1;
    }
    assert keys[i..] == [];
  }
}
