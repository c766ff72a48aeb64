/**
 The canonical JSON text that prekey bundles are signed over (services/phantom_crypto.rs).
 Texts are sequences of Unicode scalar values; the UTF-8 encoding of the source is injective
 on them.  Numbers are integers.
 */
module CanonicalJson {
  import opened Wrappers
  import opened Strings
  import opened Decimal
  import opened JsonText

  // ----- strings

  function HexDigit(d: nat): char
    requires d < 16
  {
    if d < 10 then Digit(d) else ((d - 10) + 'a' as int) as char
  }

  /** Section 7 of RFC 8259, with the short escapes serde_json chooses. */
  function EscapeChar(c: char): string
  {
    if c == '"' then "\\\""
    else if c == '\\' then "\\\\"
    else if c as int == 8 then "\\b"
    else if c as int == 9 then "\\t"
    else if c as int == 10 then "\\n"
    else if c as int == 12 then "\\f"
    else if c as int == 13 then "\\r"
    else if c as int < 32 then "\\u00" + [HexDigit(c as int / 16), HexDigit(c as int % 16)]
    else [c]
  }

  function Escape(s: string): string
  {
    if s == "" then "" else EscapeChar(s[0]) + Escape(s[1..])
  }

  function Quote(s: string): string
  {
    "\"" + Escape(s) + "\""
  }

  /** A spelled character reads back, whatever follows. */
  lemma EscapeReads(c: char, rest: string)
    ensures EscapeChar(c)[0] != '"' && ReadOne(EscapeChar(c) + rest) == Some(Parsed(c, rest))
  {
    var s := EscapeChar(c) + rest;
    if |EscapeChar(c)| == 1 {
      assert s[1..] == rest;
    } else if |EscapeChar(c)| == 2 {
      assert s[2..] == rest;
    } else {
      var n := c as int;
      assert s[2..] == ['0', '0', HexDigit(n / 16), HexDigit(n % 16)] + rest;
      HexDigitReads(n / 16);
      HexDigitReads(n % 16);
      assert s[2..][4..] == rest;
    }
  }

  lemma HexDigitReads(d: nat)
    requires d < 16
    ensures HexValue(HexDigit(d)) == Some(d)
  {
  }

  /** A quoted string reads back, whatever follows. */
  lemma {:induction false} StringReadsBack(s: string, rest: string)
    ensures ReadChars(Escape(s) + (['"'] + rest)) == Some(Parsed(s, rest))
  {
    if s == "" {
      assert Escape(s) + (['"'] + rest) == ['"'] + rest;
    } else {
      var tail := Escape(s[1..]) + (['"'] + rest);
      Associate(EscapeChar(s[0]), Escape(s[1..]), ['"'] + rest);
      EscapeReads(s[0], tail);
      StringReadsBack(s[1..], rest);
      assert (EscapeChar(s[0]) + tail)[0] == EscapeChar(s[0])[0];
      assert s == [s[0]] + s[1..];
    }
  }

  /** No spelling of a character is shorter than the printed one. */
  lemma ShortestSpelling(t: string)
    requires ReadOne(t).Some?
    ensures |t| >= |EscapeChar(ReadOne(t).value.value)| + |ReadOne(t).value.rest|
  {
  }

  /** No string literal that reads to the same characters is shorter than the printed one. */
  lemma {:induction false} ShortestLiteral(t: string)
    requires ReadChars(t).Some?
    ensures |t| >= |Escape(ReadChars(t).value.value)| + 1 + |ReadChars(t).value.rest|
    decreases |t|
  {
    if t[0] != '"' {
      var one := ReadOne(t).value;
      ShortestSpelling(t);
      ShortestLiteral(one.rest);
      var more := ReadChars(one.rest).value;
      assert ([one.value] + more.value)[1..] == more.value;
    }
  }

  /** Control characters without a short form are spelled with four lower-case hexadecimal digits. */
  lemma ControlSpelling(c: char)
    requires c as int < 32 && c as int !in {8, 9, 10, 12, 13}
    ensures EscapeChar(c) == ['\\', 'u', '0', '0', "01"[c as int / 16], "0123456789abcdef"[c as int % 16]]
  {
  }

  lemma QuoteThen(s: string, rest: string)
    ensures Quote(s) + rest == ['"'] + (Escape(s) + (['"'] + rest))
  {
  }

  // ----- the printer

  function Join(parts: seq<string>): string
  {
    if parts == [] then "" else if |parts| == 1 then parts[0] else parts[0] + "," + Join(parts[1..])
  }

  function Canonical(v: Json): string
    decreases v, 0
  {
    match v
    case Null => "null"
    case Bool(b) => if b then "true" else "false"
    case Num(i) => IntText(i)
    case Str(s) => Quote(s)
    case Arr(items) => "[" + Join(ItemTexts(items)) + "]"
    case Obj(fields) =>
      SortElements(Keys(fields));
      "{" + Join(FieldTexts(fields, Sort(Keys(fields)))) + "}"
  }

  function ItemTexts(items: seq<Json>): seq<string>
    decreases items, 0
  {
    seq(|items|, i requires 0 <= i < |items| => Canonical(items[i]))
  }

  function FieldText(fields: seq<Field>, key: string): string
    requires key in Keys(fields)
    decreases fields, 0
  {
    Quote(key) + ":" + Canonical(Get(fields, key))
  }

  /** The texts of the fields named by `keys`, in that order. */
  function FieldTexts(fields: seq<Field>, keys: seq<string>): seq<string>
    requires Elements(keys) <= Elements(Keys(fields))
    decreases fields, 1
  {
    seq(|keys|, i requires 0 <= i < |keys| =>
      assert keys[i] in Elements(keys); FieldText(fields, keys[i]))
  }

  /** `canonical_json` with its loops: collect the parts, then join them. */
  method CanonicalJson(v: Json) returns (text: string)
    ensures text == Canonical(v)
    decreases v, 1
  {
    match v
    case Null => text := "null";
    case Bool(b) => text := if b then "true" else "false";
    case Num(i) => text := IntText(i);
    case Str(s) => text := Quote(s);
    case Arr(items) =>
      var parts := CollectItems(items);
      text := "[" + Join(parts) + "]";
    case Obj(fields) =>
      SortElements(Keys(fields));
      var parts := CollectFields(fields, Sort(Keys(fields)));
      text := "{" + Join(parts) + "}";
  }

  method CollectItems(items: seq<Json>) returns (parts: seq<string>)
    ensures parts == ItemTexts(items)
    decreases items, 0
  {
    parts := [];
    for i := 0 to |items|
      invariant |parts| == i && forall k :: 0 <= k < i ==> parts[k] == Canonical(items[k])
    {
      var part := CanonicalJson(items[i]);
      parts := parts + [part];
    }
  }

  method CollectFields(fields: seq<Field>, keys: seq<string>) returns (parts: seq<string>)
    requires Elements(keys) <= Elements(Keys(fields))
    ensures parts == FieldTexts(fields, keys)
    decreases fields, 0
  {
    parts := [];
    for i := 0 to |keys|
      invariant |parts| == i && forall k :: 0 <= k < i ==> parts[k] == FieldTexts(fields, keys)[k]
    {
      assert keys[i] in Elements(keys);
      assert FieldTexts(fields, keys)[i] == FieldText(fields, keys[i]);
      var part := CanonicalJson(Get(fields, keys[i]));
      parts := parts + [Quote(keys[i]) + ":" + part];
    }
  }

  // ----- insensitive to insertion order

  lemma ReadOfObject(fields: seq<Field>, key: string)
    requires key in Keys(fields)
    ensures key in Read(Obj(fields)).fields && Read(Obj(fields)).fields[key] == Read(Get(fields, key))
  {
  }

  lemma WellFormedField(fields: seq<Field>, key: string)
    requires WellFormed(Obj(fields)) && key in Keys(fields)
    ensures WellFormed(Get(fields, key))
  {
  }

  /** Values that mean the same print the same. */
  lemma {:induction false} SameMeaningSameText(a: Json, b: Json)
    requires WellFormed(a) && WellFormed(b) && Read(a) == Read(b)
    ensures Canonical(a) == Canonical(b)
    decreases a, 2
  {
    match a
    case Arr(items) => SameItemsSameText(items, b.items);
    case Obj(fields) => SameFieldsSameText(fields, b.fields);
    case _ =>
  }

  lemma {:induction false} SameItemsSameText(items: seq<Json>, others: seq<Json>)
    requires WellFormed(Arr(items)) && WellFormed(Arr(others)) && Read(Arr(items)) == Read(Arr(others))
    ensures ItemTexts(items) == ItemTexts(others)
    decreases items, 1
  {
    assert |items| == |Read(Arr(items)).items| == |others|;
    forall i | 0 <= i < |items| ensures Canonical(items[i]) == Canonical(others[i]) {
      assert Read(Arr(items)).items[i] == Read(items[i]) && Read(Arr(others)).items[i] == Read(others[i]);
      SameMeaningSameText(items[i], others[i]);
    }
  }

  lemma {:induction false} SameFieldsSameText(f: seq<Field>, g: seq<Field>)
    requires WellFormed(Obj(f)) && WellFormed(Obj(g)) && Read(Obj(f)) == Read(Obj(g))
    ensures Canonical(Obj(f)) == Canonical(Obj(g))
    decreases f, 2
  {
    SameKeysSameOrder(f, g);
    var keys := Sort(Keys(f));
    SortElements(Keys(f));
    forall i | 0 <= i < |keys| ensures FieldTexts(f, keys)[i] == FieldTexts(g, keys)[i] {
      assert keys[i] in Elements(keys);
      SameFieldSameText(f, g, keys[i]);
    }
    assert FieldTexts(f, keys) == FieldTexts(g, keys);
  }

  lemma {:induction false} SameFieldSameText(f: seq<Field>, g: seq<Field>, key: string)
    requires WellFormed(Obj(f)) && WellFormed(Obj(g)) && Read(Obj(f)) == Read(Obj(g))
    requires key in Keys(f) && key in Keys(g)
    ensures FieldText(f, key) == FieldText(g, key)
    decreases f, 1
  {
    ReadOfObject(f, key);
    ReadOfObject(g, key);
    WellFormedField(f, key);
    WellFormedField(g, key);
    SameMeaningSameText(Get(f, key), Get(g, key));
  }

  lemma SameKeysSameOrder(f: seq<Field>, g: seq<Field>)
    requires Distinct(Keys(f)) && Distinct(Keys(g))
    requires Read(Obj(f)) == Read(Obj(g))
    ensures Elements(Keys(f)) == Elements(Keys(g))
    ensures Sort(Keys(f)) == Sort(Keys(g))
  {
    assert Read(Obj(f)).fields.Keys == Elements(Keys(f));
    assert Read(Obj(g)).fields.Keys == Elements(Keys(g));
    SortElements(Keys(f));
    SortElements(Keys(g));
    SortSorted(Keys(f));
    SortSorted(Keys(g));
    StrictlySortedUnique(Sort(Keys(f)), Sort(Keys(g)));
  }

  // ----- the text reads back

  /** What may follow a value inside a larger text. */
  ghost predicate Delimited(rest: string)
  {
    rest == "" || rest[0] == ',' || rest[0] == ']' || rest[0] == '}'
  }

  /** A value's text is not empty and does not begin with a closing bracket. */
  lemma FirstCharacter(v: Json)
    ensures Canonical(v) != "" && Canonical(v)[0] != ']' && Canonical(v)[0] != '}'
  {
    if v.Num? { SignOf(v.i); }
  }

  /** The text of a list after its first part, up to and including the closing bracket. */
  ghost function Tail(parts: seq<string>, close: char): string
  {
    if parts == [] then [close] else [','] + (parts[0] + Tail(parts[1..], close))
  }

  lemma {:induction false} JoinTail(parts: seq<string>, close: char)
    ensures Join(parts) + [close] == if parts == [] then [close] else parts[0] + Tail(parts[1..], close)
  {
    if |parts| > 1 {
      JoinTail(parts[1..], close);
      Associate(parts[0] + ",", Join(parts[1..]), [close]);
      Associate(parts[0], ",", Join(parts[1..]) + [close]);
    } else if |parts| == 1 {
      assert Tail(parts[1..], close) == [close];
    }
  }

  lemma TailThen(parts: seq<string>, close: char, rest: string)
    ensures parts == [] ==> Tail(parts, close) + rest == [close] + rest
    ensures parts != [] ==> Tail(parts, close) + rest == [','] + (parts[0] + (Tail(parts[1..], close) + rest))
  {
    if parts != [] {
      Associate([','], parts[0] + Tail(parts[1..], close), rest);
      Associate(parts[0], Tail(parts[1..], close), rest);
    }
  }

  lemma BodyThen(parts: seq<string>, close: char, rest: string)
    ensures parts == [] ==> Join(parts) + [close] + rest == [close] + rest
    ensures parts != [] ==> Join(parts) + [close] + rest == parts[0] + (Tail(parts[1..], close) + rest)
  {
    JoinTail(parts, close);
    if parts != [] { Associate(parts[0], Tail(parts[1..], close), rest); }
  }

  lemma TailDelimited(parts: seq<string>, close: char, rest: string)
    requires close == ']' || close == '}'
    ensures Delimited(Tail(parts, close) + rest)
  {
  }

  lemma ArrayThen(items: seq<Json>, rest: string)
    ensures Canonical(Arr(items)) + rest == ['['] + (Join(ItemTexts(items)) + "]" + rest)
  {
  }

  lemma ObjectThen(fields: seq<Field>, keys: seq<string>, rest: string)
    requires keys == Sort(Keys(fields)) && Elements(keys) == Elements(Keys(fields))
    ensures Canonical(Obj(fields)) + rest == ['{'] + (Join(FieldTexts(fields, keys)) + "}" + rest)
  {
  }

  lemma FieldThen(f: seq<Field>, k: string, rest: string)
    requires k in Keys(f)
    ensures FieldText(f, k) + rest == Quote(k) + ([':'] + (Canonical(Get(f, k)) + rest))
  {
  }

  lemma FieldTextsHead(f: seq<Field>, ks: seq<string>)
    requires ks != [] && Elements(ks) <= Elements(Keys(f))
    ensures ks[0] in Keys(f) && Elements(ks[1..]) <= Elements(Keys(f))
    ensures FieldTexts(f, ks)[0] == FieldText(f, ks[0])
    ensures FieldTexts(f, ks)[1..] == FieldTexts(f, ks[1..])
  {
    assert ks[0] in Elements(ks);
    assert forall x :: x in ks[1..] ==> x in ks;
    assert forall x :: x in Elements(ks[1..]) ==> x in Elements(ks);
  }

  // ----- reading the parts

  lemma {:induction false} DigitsReadBack(n: nat, rest: string)
    ensures ReadDigits(NatText(n) + rest, 0) == ReadDigits(rest, n)
    ensures NatText(n) != "" && '0' <= NatText(n)[0] <= '9' && (NatText(n)[0] == '0' <==> n == 0)
    decreases n
  {
    if n < 10 {
      assert (NatText(n) + rest)[1..] == rest;
    } else {
      var last := [Digit(n % 10)];
      DigitsReadBack(n / 10, last + rest);
      Associate(NatText(n / 10), last, rest);
      assert (last + rest)[1..] == rest;
    }
  }

  lemma NatReadsBack(n: nat, rest: string)
    requires !StartsWithDigit(rest)
    ensures ReadNat(NatText(n) + rest) == Some(Parsed(n, rest))
  {
    DigitsReadBack(n, rest);
    var s := NatText(n) + rest;
    assert s[0] == NatText(n)[0];
    if n == 0 {
      assert s[1..] == rest;
    } else {
      assert ReadDigits(s, 0) == ReadDigits(s[1..], s[0] as int - '0' as int);
    }
  }

  /** A printed integer reads back, and carries a sign only when it is negative. */
  lemma NumberReadsBack(i: int, rest: string)
    requires Delimited(rest)
    ensures ReadNumber(IntText(i) + rest) == Some(Parsed(Num(i), rest))
    ensures IntText(i) != "" && (IntText(i)[0] == '-' <==> i < 0) && (i >= 0 ==> '0' <= IntText(i)[0] <= '9')
  {
    SignOf(i);
    if i < 0 {
      NatReadsBack(-i, rest);
      assert (IntText(i) + rest)[1..] == NatText(-i) + rest;
    } else {
      NatReadsBack(i, rest);
    }
  }

  /** The texts behind the first one, up to the closing bracket and on. */
  ghost function Behind(texts: seq<string>, close: char, rest: string): string
  {
    Tail(texts, close) + rest
  }

  lemma ItemsHead(items: seq<Json>)
    requires items != []
    ensures ItemTexts(items)[0] == Canonical(items[0]) && ItemTexts(items)[1..] == ItemTexts(items[1..])
  {
  }

  /** `w` is a reading of `v`: the same value up to the order of its fields, with all keys ascending. */
  ghost predicate Renders(w: Json, v: Json)
  {
    Read(w) == Read(v) && Ordered(w)
  }

  ghost predicate AllRender(ws: seq<Json>, vs: seq<Json>)
  {
    |ws| == |vs| && forall i :: 0 <= i < |ws| ==> Renders(ws[i], vs[i])
  }

  lemma ArrayRenders(ws: seq<Json>, items: seq<Json>)
    requires AllRender(ws, items)
    ensures Renders(Arr(ws), Arr(items))
  {
    assert Read(Arr(ws)).items == Read(Arr(items)).items;
  }

  lemma ConsRenders(w: Json, ws: seq<Json>, items: seq<Json>)
    requires items != [] && Renders(w, items[0]) && AllRender(ws, items[1..])
    ensures AllRender([w] + ws, items)
  {
    forall i | 0 <= i < |items| ensures Renders(([w] + ws)[i], items[i]) {
      if i > 0 { assert ([w] + ws)[i] == ws[i - 1] && items[i] == items[1..][i - 1]; }
    }
  }

  /** Fields read under the given keys, with values that render those of `f`. */
  ghost predicate FieldsRender(gs: seq<Field>, f: seq<Field>, keys: seq<string>)
  {
    && |gs| == |keys|
    && forall i :: 0 <= i < |keys| ==>
         gs[i].key == keys[i] && keys[i] in Keys(f) && Renders(gs[i].value, Get(f, keys[i]))
  }

  lemma ConsFields(g: Field, gs: seq<Field>, f: seq<Field>, keys: seq<string>)
    requires keys != [] && g.key == keys[0] && keys[0] in Keys(f) && Renders(g.value, Get(f, keys[0]))
    requires FieldsRender(gs, f, keys[1..])
    ensures FieldsRender([g] + gs, f, keys)
  {
    forall i | 0 <= i < |keys|
      ensures ([g] + gs)[i].key == keys[i] && keys[i] in Keys(f) && Renders(([g] + gs)[i].value, Get(f, keys[i]))
    {
      if i > 0 { assert ([g] + gs)[i] == gs[i - 1] && keys[i] == keys[1..][i - 1]; }
    }
  }

  lemma ObjectRenders(gs: seq<Field>, f: seq<Field>, keys: seq<string>)
    requires FieldsRender(gs, f, keys) && StrictlySorted(keys) && Elements(keys) == Elements(Keys(f))
    ensures Renders(Obj(gs), Obj(f))
  {
    assert Keys(gs) == keys;
    forall i, j | 0 <= i < j < |keys| ensures keys[i] != keys[j] {
      LessIrreflexive(keys[i]);
    }
    forall key | key in Elements(keys) ensures Read(Get(gs, key)) == Read(Get(f, key)) {
      var i :| 0 <= i < |keys| && keys[i] == key;
      GetAt(gs, i);
    }
    assert Read(Obj(gs)).fields == Read(Obj(f)).fields;
  }

  lemma {:induction false} GetAt(fields: seq<Field>, i: nat)
    requires i < |fields| && Distinct(Keys(fields))
    ensures fields[i].key in Keys(fields) && Get(fields, fields[i].key) == fields[i].value
  {
    assert Keys(fields)[i] == fields[i].key;
    var j :| 0 <= j < |fields| && fields[j].key == fields[i].key && fields[j].value == Get(fields, fields[i].key);
    assert Keys(fields)[j] == Keys(fields)[i];
  }

  // ----- reading the whole text

  /** A printed value reads back: the same value up to the order of fields, every object with its keys ascending. */
  lemma {:induction false} ReadsBack(v: Json, rest: string) returns (w: Json)
    requires WellFormed(v) && Delimited(rest)
    ensures ReadValue(Canonical(v) + rest) == Some(Parsed(w, rest)) && Renders(w, v)
    decreases v, 1
  {
    match v
    case Null =>
      w := v;
      ReadsLiteral(rest);
    case Bool(b) =>
      w := v;
      ReadsLiteral(rest);
    case Num(i) =>
      w := v;
      NumberReadsBack(i, rest);
      assert (IntText(i) + rest)[0] == IntText(i)[0];
      ReadsNumber(IntText(i) + rest);
    case Str(s) =>
      w := v;
      QuoteThen(s, rest);
      StringReadsBack(s, rest);
      ReadsString(Escape(s) + (['"'] + rest), s, rest);
    case Arr(items) => w := ArrayReadsBack(items, rest);
    case Obj(fields) => w := ObjectReadsBack(fields, rest);
  }

  lemma {:induction false} ArrayReadsBack(items: seq<Json>, rest: string) returns (w: Json)
    requires WellFormed(Arr(items)) && Delimited(rest)
    ensures ReadValue(Canonical(Arr(items)) + rest) == Some(Parsed(w, rest)) && Renders(w, Arr(items))
    decreases items, 3
  {
    ArrayThen(items, rest);
    BodyThen(ItemTexts(items), ']', rest);
    if items == [] {
      w := Arr([]);
      ReadsEmpty(rest);
    } else {
      FirstCharacter(items[0]);
      ItemsHead(items);
      var ws := ItemsReadBack(items, rest);
      ReadsArray(Canonical(items[0]) + Behind(ItemTexts(items[1..]), ']', rest), ws, rest);
      ArrayRenders(ws, items);
      w := Arr(ws);
    }
  }

  lemma {:induction false} ItemsReadBack(items: seq<Json>, rest: string) returns (ws: seq<Json>)
    requires WellFormed(Arr(items)) && items != []
    ensures ReadItems(Canonical(items[0]) + Behind(ItemTexts(items[1..]), ']', rest)) == Some(Parsed(ws, rest))
    ensures AllRender(ws, items)
    decreases items, 2
  {
    var texts := ItemTexts(items[1..]);
    var behind := Behind(texts, ']', rest);
    TailDelimited(texts, ']', rest);
    TailThen(texts, ']', rest);
    var w := ReadsBack(items[0], behind);
    ReadsItem(Canonical(items[0]) + behind, w, behind);
    if |items| > 1 {
      ItemsHead(items[1..]);
      var more := ItemsReadBack(items[1..], rest);
      ConsRenders(w, more, items);
      ws := [w] + more;
      assert behind[1..] == Canonical(items[1]) + Behind(ItemTexts(items[1..][1..]), ']', rest);
    } else {
      ws := [w];
      assert behind[1..] == rest;
    }
  }

  lemma {:induction false} ObjectReadsBack(fields: seq<Field>, rest: string) returns (w: Json)
    requires WellFormed(Obj(fields)) && Delimited(rest)
    ensures ReadValue(Canonical(Obj(fields)) + rest) == Some(Parsed(w, rest)) && Renders(w, Obj(fields))
    decreases fields, 5
  {
    var keys := Sort(Keys(fields));
    SortElements(Keys(fields));
    SortSorted(Keys(fields));
    ObjectThen(fields, keys, rest);
    BodyThen(FieldTexts(fields, keys), '}', rest);
    if keys == [] {
      w := Obj([]);
      ReadsEmpty(rest);
      ObjectRenders([], fields, keys);
    } else {
      FieldTextsHead(fields, keys);
      var gs := FieldsReadBack(fields, keys, rest);
      ReadsObject(FieldText(fields, keys[0]) + Behind(FieldTexts(fields, keys[1..]), '}', rest), gs, rest);
      ObjectRenders(gs, fields, keys);
      w := Obj(gs);
    }
  }

  lemma {:induction false} FieldsReadBack(fields: seq<Field>, keys: seq<string>, rest: string) returns (gs: seq<Field>)
    requires WellFormed(Obj(fields)) && keys != [] && Elements(keys) <= Elements(Keys(fields))
    ensures keys[0] in Keys(fields) && Elements(keys[1..]) <= Elements(Keys(fields))
    ensures ReadFields(FieldText(fields, keys[0]) + Behind(FieldTexts(fields, keys[1..]), '}', rest))
         == Some(Parsed(gs, rest))
    ensures FieldsRender(gs, fields, keys)
    decreases fields, 4, |keys|
  {
    FieldTextsHead(fields, keys);
    var texts := FieldTexts(fields, keys[1..]);
    var behind := Behind(texts, '}', rest);
    TailDelimited(texts, '}', rest);
    TailThen(texts, '}', rest);
    var g := FieldReadsBack(fields, keys[0], behind);
    ReadsField(FieldText(fields, keys[0]) + behind, g, behind);
    if |keys| > 1 {
      FieldTextsHead(fields, keys[1..]);
      var more := FieldsReadBack(fields, keys[1..], rest);
      ConsFields(g, more, fields, keys);
      gs := [g] + more;
      assert behind[1..] == FieldText(fields, keys[1]) + Behind(FieldTexts(fields, keys[1..][1..]), '}', rest);
    } else {
      gs := [g];
      assert behind[1..] == rest;
    }
  }

  lemma {:induction false} FieldReadsBack(fields: seq<Field>, key: string, rest: string) returns (g: Field)
    requires WellFormed(Obj(fields)) && key in Keys(fields) && Delimited(rest)
    ensures ReadField(FieldText(fields, key) + rest) == Some(Parsed(g, rest))
    ensures g.key == key && Renders(g.value, Get(fields, key))
    decreases fields, 3
  {
    var value := Canonical(Get(fields, key)) + rest;
    FieldThen(fields, key, rest);
    QuoteThen(key, [':'] + value);
    StringReadsBack(key, [':'] + value);
    WellFormedField(fields, key);
    var w := ReadsBack(Get(fields, key), rest);
    ReadsMember(Escape(key) + (['"'] + ([':'] + value)), key, w, value, rest);
    g := Field(key, w);
  }

  /** Texts of values, each followed by a delimiter, decide the value and what follows. */
  lemma UniqueReading(a: Json, b: Json, r1: string, r2: string)
    requires WellFormed(a) && WellFormed(b) && Delimited(r1) && Delimited(r2)
    requires Canonical(a) + r1 == Canonical(b) + r2
    ensures Read(a) == Read(b) && r1 == r2
  {
    var v := ReadsBack(a, r1);
    var w := ReadsBack(b, r2);
  }

  /** Two values print the same text exactly when they mean the same. */
  lemma CanonicalIff(a: Json, b: Json)
    requires WellFormed(a) && WellFormed(b)
    ensures Canonical(a) == Canonical(b) <==> Read(a) == Read(b)
  {
    if Canonical(a) == Canonical(b) {
      UniqueReading(a, b, "", "");
    }
    if Read(a) == Read(b) {
      SameMeaningSameText(a, b);
    }
  }

  // ----- prekey bundles

  datatype PrekeyBundle = PrekeyBundle(
    version: nat,
    mlkem768Pk: string,
    ecdsaP256Pk: Json,
    mldsa65Pk: string,
    sigEcdsa: string,
    sigMldsa: string,
    blockFilter: seq<string>,
    updatedAt: nat)

  function StrItems(texts: seq<string>): (items: seq<Json>)
    ensures |items| == |texts| && forall i :: 0 <= i < |texts| ==> items[i] == Str(texts[i])
  {
    seq(|texts|, i requires 0 <= i < |texts| => Str(texts[i]))
  }

  /** The serialized bundle: one field per member, in declaration order. */
  function BundleFields(bundle: PrekeyBundle): seq<Field>
  {
    [ Field("version", Num(bundle.version)),
      Field("mlkem768Pk", Str(bundle.mlkem768Pk)),
      Field("ecdsaP256Pk", bundle.ecdsaP256Pk),
      Field("mldsa65Pk", Str(bundle.mldsa65Pk)),
      Field("sigEcdsa", Str(bundle.sigEcdsa)),
      Field("sigMldsa", Str(bundle.sigMldsa)),
      Field("blockFilter", Arr(StrItems(bundle.blockFilter))),
      Field("updatedAt", Num(bundle.updatedAt)) ]
  }

  function Remove(fields: seq<Field>, key: string): seq<Field>
  {
    if fields == [] then []
    else if fields[0].key == key then fields[1..]
    else [fields[0]] + Remove(fields[1..], key)
  }

  /** The two signatures are removed at the top level, the rest is printed. */
  method CanonicalPrekeyBundleText(bundle: PrekeyBundle) returns (text: string)
    ensures text == SignedText(bundle)
  {
    var fields := BundleFields(bundle);
    fields := Remove(fields, "sigEcdsa");
    fields := Remove(fields, "sigMldsa");
    SignedFieldsAre(bundle);
    text := CanonicalJson(Obj(fields));
  }

  /** The fields that are signed. */
  function SignedFields(bundle: PrekeyBundle): seq<Field>
  {
    [ Field("version", Num(bundle.version)),
      Field("mlkem768Pk", Str(bundle.mlkem768Pk)),
      Field("ecdsaP256Pk", bundle.ecdsaP256Pk),
      Field("mldsa65Pk", Str(bundle.mldsa65Pk)),
      Field("blockFilter", Arr(StrItems(bundle.blockFilter))),
      Field("updatedAt", Num(bundle.updatedAt)) ]
  }

  function SignedText(bundle: PrekeyBundle): string
  {
    Canonical(Obj(SignedFields(bundle)))
  }

  lemma SignedFieldsAre(bundle: PrekeyBundle)
    ensures Remove(Remove(BundleFields(bundle), "sigEcdsa"), "sigMldsa") == SignedFields(bundle)
  {
    var all := BundleFields(bundle);
    RemoveAt(all, "sigEcdsa", 4);
    var rest := all[..4] + all[5..];
    RemoveAt(rest, "sigMldsa", 4);
  }

  lemma {:induction false} RemoveAt(fields: seq<Field>, key: string, i: nat)
    requires i < |fields| && fields[i].key == key
    requires forall j :: 0 <= j < i ==> fields[j].key != key
    ensures Remove(fields, key) == fields[..i] + fields[i + 1..]
  {
    if i > 0 { RemoveAt(fields[1..], key, i - 1); }
  }

  /** Agreement on everything a signature covers; the key object is compared as a map. */
  ghost predicate AgreeUnsigned(b1: PrekeyBundle, b2: PrekeyBundle)
  {
    && b1.version == b2.version
    && b1.mlkem768Pk == b2.mlkem768Pk
    && Read(b1.ecdsaP256Pk) == Read(b2.ecdsaP256Pk)
    && b1.mldsa65Pk == b2.mldsa65Pk
    && b1.blockFilter == b2.blockFilter
    && b1.updatedAt == b2.updatedAt
  }

  lemma SignedKeys(bundle: PrekeyBundle)
    ensures Keys(SignedFields(bundle)) ==
            ["version", "mlkem768Pk", "ecdsaP256Pk", "mldsa65Pk", "blockFilter", "updatedAt"]
    ensures Distinct(Keys(SignedFields(bundle)))
  {
    var keys := ["version", "mlkem768Pk", "ecdsaP256Pk", "mldsa65Pk", "blockFilter", "updatedAt"];
    assert Keys(SignedFields(bundle)) == keys;
    assert |keys[0]| == 7 && |keys[1]| == 10 && |keys[2]| == 11 && |keys[3]| == 9 && |keys[4]| == 11 && |keys[5]| == 9;
    assert keys[2][0] != keys[4][0] && keys[3][0] != keys[5][0];
  }

  lemma DistinctNames()
    ensures Distinct(["version", "mlkem768Pk", "ecdsaP256Pk", "mldsa65Pk", "blockFilter", "updatedAt"])
  {
    SignedKeys(PrekeyBundle(0, "", Null, "", "", "", [], 0));
  }

  /** The signed value read as a map. */
  ghost function BundleMap(b: PrekeyBundle): map<string, Meaning>
  {
    map["version" := MNum(b.version),
        "mlkem768Pk" := MStr(b.mlkem768Pk),
        "ecdsaP256Pk" := Read(b.ecdsaP256Pk),
        "mldsa65Pk" := MStr(b.mldsa65Pk),
        "blockFilter" := Read(Arr(StrItems(b.blockFilter))),
        "updatedAt" := MNum(b.updatedAt)]
  }

  lemma BundleMapIff(b1: PrekeyBundle, b2: PrekeyBundle)
    ensures BundleMap(b1) == BundleMap(b2) <==> AgreeUnsigned(b1, b2)
  {
    var names := ["version", "mlkem768Pk", "ecdsaP256Pk", "mldsa65Pk", "blockFilter", "updatedAt"];
    DistinctNames();
    SameTexts(b1.blockFilter, b2.blockFilter);
    if BundleMap(b1) == BundleMap(b2) {
      assert forall i :: 0 <= i < 6 ==> BundleMap(b1)[names[i]] == BundleMap(b2)[names[i]];
      assert BundleMap(b1)[names[0]] == MNum(b1.version) && BundleMap(b2)[names[0]] == MNum(b2.version);
      assert BundleMap(b1)[names[1]] == MStr(b1.mlkem768Pk) && BundleMap(b2)[names[1]] == MStr(b2.mlkem768Pk);
      assert BundleMap(b1)[names[2]] == Read(b1.ecdsaP256Pk) && BundleMap(b2)[names[2]] == Read(b2.ecdsaP256Pk);
      assert BundleMap(b1)[names[3]] == MStr(b1.mldsa65Pk) && BundleMap(b2)[names[3]] == MStr(b2.mldsa65Pk);
      assert BundleMap(b1)[names[4]] == Read(Arr(StrItems(b1.blockFilter)));
      assert BundleMap(b2)[names[4]] == Read(Arr(StrItems(b2.blockFilter)));
      assert BundleMap(b1)[names[5]] == MNum(b1.updatedAt) && BundleMap(b2)[names[5]] == MNum(b2.updatedAt);
    }
  }

  lemma BundleMapAt(b: PrekeyBundle, i: nat)
    requires i < 6
    ensures var field := SignedFields(b)[i];
            field.key in BundleMap(b) && BundleMap(b)[field.key] == Read(field.value)
  {
    var f := SignedFields(b);
    DistinctNames();
    assert f[0].key == "version" && f[1].key == "mlkem768Pk" && f[2].key == "ecdsaP256Pk";
    assert f[3].key == "mldsa65Pk" && f[4].key == "blockFilter" && f[5].key == "updatedAt";
  }

  lemma BundleMeaning(b: PrekeyBundle)
    ensures Read(Obj(SignedFields(b))).fields == BundleMap(b)
  {
    var f := SignedFields(b);
    var m := Read(Obj(f)).fields;
    SignedKeys(b);
    assert m.Keys == Elements(Keys(f)) == BundleMap(b).Keys;
    forall key | key in m.Keys ensures m[key] == BundleMap(b)[key] {
      var i :| 0 <= i < |Keys(f)| && Keys(f)[i] == key;
      GetAt(f, i);
      ReadOfObject(f, key);
      BundleMapAt(b, i);
    }
  }

  lemma SameTexts(s: seq<string>, t: seq<string>)
    ensures Read(Arr(StrItems(s))) == Read(Arr(StrItems(t))) <==> s == t
  {
    var x, y := Read(Arr(StrItems(s))).items, Read(Arr(StrItems(t))).items;
    assert |x| == |s| && |y| == |t|;
    forall i | 0 <= i < |s| ensures x[i] == MStr(s[i]) {
      assert x[i] == Read(StrItems(s)[i]);
    }
    forall i | 0 <= i < |t| ensures y[i] == MStr(t[i]) {
      assert y[i] == Read(StrItems(t)[i]);
    }
    if x == y {
      assert forall i :: 0 <= i < |s| ==> MStr(s[i]) == x[i] == y[i] == MStr(t[i]);
    }
  }

  /** Signed texts agree exactly when the bundles agree outside the two signatures. */
  lemma SignedTextIff(b1: PrekeyBundle, b2: PrekeyBundle)
    requires WellFormed(b1.ecdsaP256Pk) && WellFormed(b2.ecdsaP256Pk)
    ensures SignedText(b1) == SignedText(b2) <==> AgreeUnsigned(b1, b2)
  {
    SignedKeys(b1);
    SignedKeys(b2);
    CanonicalIff(Obj(SignedFields(b1)), Obj(SignedFields(b2)));
    BundleMeaning(b1);
    BundleMeaning(b2);
    BundleMapIff(b1, b2);
  }

  /** The signed text is JSON for an object with exactly these six members, in ascending order of their names. */
  lemma SignedTextReads(bundle: PrekeyBundle) returns (fields: seq<Field>)
    requires WellFormed(bundle.ecdsaP256Pk)
    ensures ReadValue(SignedText(bundle)) == Some(Parsed(Obj(fields), ""))
    ensures Ordered(Obj(fields)) && Read(Obj(fields)) == MObj(BundleMap(bundle))
  {
    SignedKeys(bundle);
    BundleMeaning(bundle);
    var w := ReadsBack(Obj(SignedFields(bundle)), "");
    assert SignedText(bundle) + "" == SignedText(bundle);
    fields := w.fields;
  }
}
