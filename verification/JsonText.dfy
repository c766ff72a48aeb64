/**
 JSON values, and a reader of JSON text written from RFC 8259 (without the insignificant
 white space of section 2, and with numbers restricted to integers).  The reader knows nothing
 of any printer.
 */
module JsonText {
  import opened Wrappers
  import opened Strings

  /** A JSON value as a parser builds it: object fields in insertion order. */
  datatype Json =
    | Null
    | Bool(b: bool)
    | Num(i: int)
    | Str(s: string)
    | Arr(items: seq<Json>)
    | Obj(fields: seq<Field>)

  datatype Field = Field(key: string, value: Json)

  /** The same value with every object read as a map. */
  datatype Meaning =
    | MNull
    | MBool(b: bool)
    | MNum(i: int)
    | MStr(s: string)
    | MArr(items: seq<Meaning>)
    | MObj(fields: map<string, Meaning>)

  function Keys(fields: seq<Field>): (keys: seq<string>)
    ensures |keys| == |fields|
    ensures forall i :: 0 <= i < |fields| ==> keys[i] == fields[i].key
  {
    seq(|fields|, i requires 0 <= i < |fields| => fields[i].key)
  }

  function Get(fields: seq<Field>, key: string): (value: Json)
    requires key in Keys(fields)
    ensures exists i :: 0 <= i < |fields| && fields[i].key == key && fields[i].value == value
  {
    if fields[0].key == key then fields[0].value
    else
      assert key in Keys(fields[1..]) by {
        var i :| 0 <= i < |fields| && Keys(fields)[i] == key;
        assert Keys(fields[1..])[i - 1] == key;
      }
      Get(fields[1..], key)
  }

  /** Every object in the value has distinct keys, as a map type guarantees. */
  ghost predicate WellFormed(v: Json)
  {
    match v
    case Arr(items) => forall i :: 0 <= i < |items| ==> WellFormed(items[i])
    case Obj(fields) =>
      Distinct(Keys(fields)) && forall i :: 0 <= i < |fields| ==> WellFormed(fields[i].value)
    case _ => true
  }

  ghost function Read(v: Json): Meaning
  {
    match v
    case Null => MNull
    case Bool(b) => MBool(b)
    case Num(i) => MNum(i)
    case Str(s) => MStr(s)
    case Arr(items) => MArr(seq(|items|, i requires 0 <= i < |items| => Read(items[i])))
    case Obj(fields) => MObj(map key | key in Elements(Keys(fields)) :: Read(Get(fields, key)))
  }

  /** Every object in the value lists its keys in strictly ascending order. */
  ghost predicate Ordered(v: Json)
  {
    match v
    case Arr(items) => forall i :: 0 <= i < |items| ==> Ordered(items[i])
    case Obj(fields) =>
      StrictlySorted(Keys(fields)) && forall i :: 0 <= i < |fields| ==> Ordered(fields[i].value)
    case _ => true
  }

  // ----- string literals, section 7

  datatype Parsed<T> = Parsed(value: T, rest: string)

  ghost function HexValue(c: char): Option<nat>
  {
    if '0' <= c <= '9' then Some(c as int - '0' as int)
    else if 'a' <= c <= 'f' then Some(c as int - 'a' as int + 10)
    else if 'A' <= c <= 'F' then Some(c as int - 'A' as int + 10)
    else None
  }

  /** The 16-bit number that four hexadecimal digits at the front of the text spell. */
  ghost function ReadUnit(s: string): (unit: Option<nat>)
    ensures unit.Some? ==> |s| >= 4 && unit.value < 0x1_0000
  {
    if |s| < 4 then None
    else
      var a, b, c, d := HexValue(s[0]), HexValue(s[1]), HexValue(s[2]), HexValue(s[3]);
      if a.None? || b.None? || c.None? || d.None? then None
      else Some(((a.value * 16 + b.value) * 16 + c.value) * 16 + d.value)
  }

  /** What follows a backslash and a `u`; characters beyond 16 bits come as surrogate pairs. */
  ghost function ReadUnicode(s: string): (one: Option<Parsed<char>>)
    ensures one.Some? ==> |one.value.rest| + 4 <= |s|
  {
    var unit := ReadUnit(s);
    if unit.None? then None
    else if unit.value < 0xd800 || 0xe000 <= unit.value then Some(Parsed(unit.value as char, s[4..]))
    else if unit.value < 0xdc00 && |s| >= 10 && s[4] == '\\' && s[5] == 'u' then
      var low := ReadUnit(s[6..]);
      if low.None? || low.value < 0xdc00 || 0xe000 <= low.value then None
      else Some(Parsed((0x1_0000 + (unit.value - 0xd800) * 0x400 + (low.value - 0xdc00)) as char, s[10..]))
    else None
  }

  /** One character inside a string literal; control characters, quotes and backslashes must be escaped. */
  ghost function ReadOne(s: string): (one: Option<Parsed<char>>)
    ensures one.Some? ==> |one.value.rest| < |s|
  {
    if s == "" || s[0] == '"' || s[0] as int < 32 then None
    else if s[0] != '\\' then Some(Parsed(s[0], s[1..]))
    else if |s| < 2 then None
    else if s[1] == '"' || s[1] == '\\' || s[1] == '/' then Some(Parsed(s[1], s[2..]))
    else if s[1] == 'b' then Some(Parsed(8 as char, s[2..]))
    else if s[1] == 't' then Some(Parsed(9 as char, s[2..]))
    else if s[1] == 'n' then Some(Parsed(10 as char, s[2..]))
    else if s[1] == 'f' then Some(Parsed(12 as char, s[2..]))
    else if s[1] == 'r' then Some(Parsed(13 as char, s[2..]))
    else if s[1] == 'u' then ReadUnicode(s[2..])
    else None
  }

  /** The rest of a string literal, behind its opening quote. */
  ghost function ReadChars(s: string): (chars: Option<Parsed<string>>)
    ensures chars.Some? ==> |chars.value.rest| < |s|
    decreases |s|
  {
    if s != "" && s[0] == '"' then Some(Parsed("", s[1..]))
    else
      var one := ReadOne(s);
      if one.None? then None
      else
        var more := ReadChars(one.value.rest);
        if more.None? then None else Some(Parsed([one.value.value] + more.value.value, more.value.rest))
  }

  // ----- integers, section 6

  ghost predicate StartsWithDigit(s: string)
  {
    s != "" && '0' <= s[0] <= '9'
  }

  /** All digits at the front, appended to the digits of `n`. */
  ghost function ReadDigits(s: string, n: nat): (number: Parsed<nat>)
    ensures |number.rest| <= |s|
  {
    if StartsWithDigit(s) then ReadDigits(s[1..], 10 * n + (s[0] as int - '0' as int)) else Parsed(n, s)
  }

  /** An integer part: a zero alone, or digits without a leading zero. */
  ghost function ReadNat(s: string): (number: Option<Parsed<nat>>)
    ensures number.Some? ==> |number.value.rest| < |s|
  {
    if !StartsWithDigit(s) then None
    else if s[0] == '0' then if StartsWithDigit(s[1..]) then None else Some(Parsed(0, s[1..]))
    else Some(ReadDigits(s[1..], s[0] as int - '0' as int))
  }

  ghost function ReadNumber(s: string): (number: Option<Parsed<Json>>)
    ensures number.Some? ==> |number.value.rest| < |s|
  {
    var negative := s != "" && s[0] == '-';
    var n := ReadNat(if negative then s[1..] else s);
    if n.None? || (n.value.rest != "" && n.value.rest[0] in ".eE") then None
    else
      var i: int := n.value.value;
      Some(Parsed(Num(if negative then -i else i), n.value.rest))
  }

  // ----- values, sections 3 to 5

  ghost function ReadValue(s: string): (v: Option<Parsed<Json>>)
    ensures v.Some? ==> |v.value.rest| < |s|
    decreases |s|, 0
  {
    if "null" <= s then Some(Parsed(Null, s[4..]))
    else if "true" <= s then Some(Parsed(Bool(true), s[4..]))
    else if "false" <= s then Some(Parsed(Bool(false), s[5..]))
    else if s != "" && s[0] == '"' then
      var chars := ReadChars(s[1..]);
      if chars.None? then None else Some(Parsed(Str(chars.value.value), chars.value.rest))
    else if s != "" && s[0] == '[' then
      if |s| >= 2 && s[1] == ']' then Some(Parsed(Arr([]), s[2..]))
      else
        var items := ReadItems(s[1..]);
        if items.None? then None else Some(Parsed(Arr(items.value.value), items.value.rest))
    else if s != "" && s[0] == '{' then
      if |s| >= 2 && s[1] == '}' then Some(Parsed(Obj([]), s[2..]))
      else
        var fields := ReadFields(s[1..]);
        if fields.None? then None else Some(Parsed(Obj(fields.value.value), fields.value.rest))
    else ReadNumber(s)
  }

  /** Values separated by commas, up to the closing bracket. */
  ghost function ReadItems(s: string): (items: Option<Parsed<seq<Json>>>)
    ensures items.Some? ==> |items.value.rest| < |s|
    decreases |s|, 1
  {
    var first := ReadValue(s);
    if first.None? || first.value.rest == "" then None
    else
      var v, rest := first.value.value, first.value.rest;
      if rest[0] == ']' then Some(Parsed([v], rest[1..]))
      else if rest[0] != ',' then None
      else
        var more := ReadItems(rest[1..]);
        if more.None? then None else Some(Parsed([v] + more.value.value, more.value.rest))
  }

  /** A quoted name, a colon and a value. */
  ghost function ReadField(s: string): (field: Option<Parsed<Field>>)
    ensures field.Some? ==> |field.value.rest| < |s|
    decreases |s|, 1
  {
    if s == "" || s[0] != '"' then None
    else
      var name := ReadChars(s[1..]);
      if name.None? || name.value.rest == "" || name.value.rest[0] != ':' then None
      else
        var value := ReadValue(name.value.rest[1..]);
        if value.None? then None else Some(Parsed(Field(name.value.value, value.value.value), value.value.rest))
  }

  /** Fields separated by commas, up to the closing brace. */
  ghost function ReadFields(s: string): (fields: Option<Parsed<seq<Field>>>)
    ensures fields.Some? ==> |fields.value.rest| < |s|
    decreases |s|, 2
  {
    var first := ReadField(s);
    if first.None? || first.value.rest == "" then None
    else
      var field, rest := first.value.value, first.value.rest;
      if rest[0] == '}' then Some(Parsed([field], rest[1..]))
      else if rest[0] != ',' then None
      else
        var more := ReadFields(rest[1..]);
        if more.None? then None else Some(Parsed([field] + more.value.value, more.value.rest))
  }

  // ----- the reader case by case

  lemma ReadsLiteral(rest: string)
    ensures ReadValue("null" + rest) == Some(Parsed(Null, rest))
    ensures ReadValue("true" + rest) == Some(Parsed(Bool(true), rest))
    ensures ReadValue("false" + rest) == Some(Parsed(Bool(false), rest))
  {
    assert ("null" + rest)[4..] == rest && ("true" + rest)[4..] == rest && ("false" + rest)[5..] == rest;
    assert ("true" + rest)[0] == 't' && ("false" + rest)[0] == 'f';
  }

  lemma ReadsNumber(s: string)
    requires s != "" && (s[0] == '-' || '0' <= s[0] <= '9')
    ensures ReadValue(s) == ReadNumber(s)
  {
  }

  lemma ReadsString(s: string, chars: string, rest: string)
    requires ReadChars(s) == Some(Parsed(chars, rest))
    ensures ReadValue(['"'] + s) == Some(Parsed(Str(chars), rest))
  {
    assert (['"'] + s)[0] == '"' && (['"'] + s)[1..] == s;
  }

  lemma ReadsArray(s: string, items: seq<Json>, rest: string)
    requires s != "" && s[0] != ']' && ReadItems(s) == Some(Parsed(items, rest))
    ensures ReadValue(['['] + s) == Some(Parsed(Arr(items), rest))
  {
    var t := ['['] + s;
    assert t[0] == '[' && t[1..] == s && t[1] == s[0];
  }

  lemma ReadsObject(s: string, fields: seq<Field>, rest: string)
    requires s != "" && s[0] != '}' && ReadFields(s) == Some(Parsed(fields, rest))
    ensures ReadValue(['{'] + s) == Some(Parsed(Obj(fields), rest))
  {
    var t := ['{'] + s;
    assert t[0] == '{' && t[1..] == s && t[1] == s[0];
  }

  lemma ReadsEmpty(rest: string)
    ensures ReadValue(['['] + ([']'] + rest)) == Some(Parsed(Arr([]), rest))
    ensures ReadValue(['{'] + (['}'] + rest)) == Some(Parsed(Obj([]), rest))
  {
    var a, o := ['['] + ([']'] + rest), ['{'] + (['}'] + rest);
    assert a[0] == '[' && a[1] == ']' && o[0] == '{' && o[1] == '}' && a[2..] == rest && o[2..] == rest;
  }

  lemma ReadsItem(s: string, v: Json, behind: string)
    requires ReadValue(s) == Some(Parsed(v, behind)) && behind != ""
    ensures behind[0] == ']' ==> ReadItems(s) == Some(Parsed([v], behind[1..]))
    ensures behind[0] == ',' && ReadItems(behind[1..]).Some? ==>
              var more := ReadItems(behind[1..]).value;
              ReadItems(s) == Some(Parsed([v] + more.value, more.rest))
  {
  }

  lemma ReadsMember(s: string, name: string, v: Json, mid: string, rest: string)
    requires ReadChars(s) == Some(Parsed(name, [':'] + mid)) && ReadValue(mid) == Some(Parsed(v, rest))
    ensures ReadField(['"'] + s) == Some(Parsed(Field(name, v), rest))
  {
    assert (['"'] + s)[1..] == s && ([':'] + mid)[1..] == mid;
  }

  lemma ReadsField(s: string, field: Field, behind: string)
    requires ReadField(s) == Some(Parsed(field, behind)) && behind != ""
    ensures behind[0] == '}' ==> ReadFields(s) == Some(Parsed([field], behind[1..]))
    ensures behind[0] == ',' && ReadFields(behind[1..]).Some? ==>
              var more := ReadFields(behind[1..]).value;
              ReadFields(s) == Some(Parsed([field] + more.value, more.rest))
  {
  }
}
