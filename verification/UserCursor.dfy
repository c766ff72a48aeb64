/**
 The tagged cursor of the admin user listing (core/database.rs): `t:{created}:{id}` for the two
 time sorts, `u:{username}:{id}` for the name sort, and the older untagged time form.
 */
module UserCursor {
  import opened Wrappers
  import opened Strings
  import opened Decimal

  datatype Cursor = Time(created: int, id: string) | Name(username: string, id: string)

  datatype CursorError = InvalidCursor

  const MAX_ID_BYTES: nat := 64
  const MAX_NAME_CHARS: nat := 128

  predicate ValidId(id: string)
  {
    id != "" && Utf8Length(id) <= MAX_ID_BYTES
  }

  /** `split_once`: at the first colon. */
  function SplitFirst(s: string): Option<(string, string)>
  {
    if s == "" then None
    else if s[0] == ':' then Some(("", s[1..]))
    else
      var rest := SplitFirst(s[1..]);
      if rest.None? then None else Some(([s[0]] + rest.value.0, rest.value.1))
  }

  /** `rsplit_once`: at the last colon. */
  function SplitLast(s: string): Option<(string, string)>
  {
    if s == "" then None
    else if s[|s| - 1] == ':' then Some((s[..|s| - 1], ""))
    else
      var rest := SplitLast(s[..|s| - 1]);
      if rest.None? then None else Some((rest.value.0, rest.value.1 + [s[|s| - 1]]))
  }

  function DecodeTime(s: string): Result<Option<Cursor>, CursorError>
  {
    var parts := SplitFirst(s);
    if parts.None? then Err(InvalidCursor)
    else
      var created := ParseI64(parts.value.0);
      if created.None? || !ValidId(parts.value.1) then Err(InvalidCursor)
      else Ok(Some(Time(created.value, parts.value.1)))
  }

  function DecodeName(s: string): Result<Option<Cursor>, CursorError>
  {
    var parts := SplitLast(s);
    if parts.None? || parts.value.0 == "" || |parts.value.0| > MAX_NAME_CHARS || !ValidId(parts.value.1) then
      Err(InvalidCursor)
    else Ok(Some(Name(parts.value.0, parts.value.1)))
  }

  /** `decode_user_cursor` */
  function Decode(text: string): Result<Option<Cursor>, CursorError>
  {
    var raw := Trim(text);
    if raw == "" then Ok(None)
    else if "t:" <= raw then DecodeTime(raw[2..])
    else if "u:" <= raw then DecodeName(raw[2..])
    else DecodeTime(raw)
  }

  /** The stored 64-bit time is printed after a cast to an unsigned word. */
  function AsU64(i: int): int
  {
    if i < 0 then i + 0x1_0000_0000_0000_0000 else i
  }

  function PrintTime(created: int, id: string): string
  {
    "t:" + IntText(AsU64(created)) + ":" + id
  }

  function PrintName(username: string, id: string): string
  {
    "u:" + username + ":" + id
  }

  // ----- splitting and trimming

  lemma {:induction false} SplitFirstAt(head: string, tail: string)
    requires ':' !in head
    ensures SplitFirst(head + ":" + tail) == Some((head, tail))
  {
    var s := head + ":" + tail;
    if head == "" {
      assert s[1..] == tail;
    } else {
      assert s[1..] == head[1..] + ":" + tail;
      SplitFirstAt(head[1..], tail);
      assert [head[0]] + head[1..] == head;
    }
  }

  lemma {:induction false} SplitLastAt(head: string, tail: string)
    requires ':' !in tail
    ensures SplitLast(head + ":" + tail) == Some((head, tail))
    decreases |tail|
  {
    var s := head + ":" + tail;
    if tail == "" {
      assert s[..|s| - 1] == head;
    } else {
      var init := tail[..|tail| - 1];
      assert s[..|s| - 1] == head + ":" + init;
      SplitLastAt(head, init);
      assert init + [tail[|tail| - 1]] == tail;
    }
  }

  lemma {:induction false} SplitLastTail(s: string)
    ensures SplitLast(s).Some? ==> ':' !in SplitLast(s).value.1
    ensures SplitLast(s).Some? ==> s == SplitLast(s).value.0 + ":" + SplitLast(s).value.1
  {
    if s != "" && s[|s| - 1] != ':' {
      SplitLastTail(s[..|s| - 1]);
    }
  }

  lemma {:induction false} TrimEndAfter(p: string, s: string)
    requires p != "" && !IsWhitespace(p[|p| - 1])
    ensures TrimEnd(p + s) == p + TrimEnd(s)
    decreases |s|
  {
    if s == "" {
      assert p + s == p;
    } else if IsWhitespace(s[|s| - 1]) {
      assert (p + s)[..|p + s| - 1] == p + s[..|s| - 1];
      TrimEndAfter(p, s[..|s| - 1]);
    }
  }

  lemma {:induction false} TrimEndShortens(s: string)
    ensures |TrimEnd(s)| <= |s| && (|TrimEnd(s)| == |s| ==> TrimEnd(s) == s)
    ensures TrimEnd(s) == s <==> s == "" || !IsWhitespace(s[|s| - 1])
  {
    if s != "" && IsWhitespace(s[|s| - 1]) { TrimEndShortens(s[..|s| - 1]); }
  }

  // ----- round trips

  lemma DecodePrintedTime(created: int, id: string)
    requires I64_MIN <= created <= I64_MAX
    ensures Decode(PrintTime(created, id))
         == if created >= 0 && ValidId(TrimEnd(id)) then Ok(Some(Time(created, TrimEnd(id)))) else Err(InvalidCursor)
  {
    var digits := IntText(AsU64(created));
    var p := "t:" + digits + ":";
    assert PrintTime(created, id) == p + id;
    TrimEndAfter(p, id);
    var raw := p + TrimEnd(id);
    assert TrimStart(p + id) == p + id;
    assert raw[2..] == digits + ":" + TrimEnd(id);
    IntTextHasNo(AsU64(created), ':');
    SplitFirstAt(digits, TrimEnd(id));
    ParseI64RoundTrip(AsU64(created));
  }

  /** A printed time cursor decodes to the row it came from exactly under these conditions. */
  lemma TimeRoundTripIff(created: int, id: string)
    requires I64_MIN <= created <= I64_MAX
    ensures Decode(PrintTime(created, id)) == Ok(Some(Time(created, id)))
       <==> created >= 0 && ValidId(id) && !IsWhitespace(id[|id| - 1])
  {
    DecodePrintedTime(created, id);
    TrimEndShortens(id);
  }

  lemma DecodePrintedName(username: string, id: string)
    ensures Decode(PrintName(username, id)) == DecodeName(username + ":" + TrimEnd(id))
  {
    var p := "u:" + username + ":";
    assert PrintName(username, id) == p + id;
    TrimEndAfter(p, id);
    assert TrimStart(p + id) == p + id;
    var raw := p + TrimEnd(id);
    assert raw[0] == 'u' && raw[1] == ':' && raw[..2] == "u:";
    assert raw[2..] == username + ":" + TrimEnd(id);
  }

  /** The same for name cursors: colons in the username are harmless, colons in the id are not. */
  lemma NameRoundTripIff(username: string, id: string)
    ensures Decode(PrintName(username, id)) == Ok(Some(Name(username, id)))
       <==> 1 <= |username| <= MAX_NAME_CHARS && ValidId(id) && !IsWhitespace(id[|id| - 1]) && ':' !in id
  {
    DecodePrintedName(username, id);
    TrimEndShortens(id);
    if ':' !in id && TrimEnd(id) == id {
      SplitLastAt(username, id);
    } else {
      SplitLastTail(username + ":" + TrimEnd(id));
      var parts := SplitLast(username + ":" + TrimEnd(id));
      assert parts == Some((username, id)) ==> |username + ":" + TrimEnd(id)| == |username + ":" + id|;
    }
  }

  /** A name cursor that comes back with the right id comes back with the right name. */
  lemma SameIdSameName(username: string, id: string)
    ensures Decode(PrintName(username, id)).Ok? ==>
              var back := Decode(PrintName(username, id)).value;
              back.Some? && back.value.Name? && (back.value.id == id ==> back.value.username == username)
  {
    DecodePrintedName(username, id);
    TrimEndShortens(id);
    var text := username + ":" + TrimEnd(id);
    SplitLastTail(text);
    if ':' !in TrimEnd(id) {
      SplitLastAt(username, TrimEnd(id));
    }
    if Decode(PrintName(username, id)).Ok? {
      var back := Decode(PrintName(username, id)).value;
      if back.value.id == id && TrimEnd(id) != id { TrimmedHasNo(id, ':'); }
      assert back.value.id == id && TrimEnd(id) == id ==> text == back.value.username + ":" + id;
    }
  }

  lemma {:induction false} TrimmedHasNo(s: string, c: char)
    requires c !in s
    ensures c !in TrimEnd(s)
  {
    if s != "" && IsWhitespace(s[|s| - 1]) { TrimmedHasNo(s[..|s| - 1], c); }
  }

  lemma {:induction false} SplitFirstIs(s: string)
    ensures SplitFirst(s).Some? ==> s == SplitFirst(s).value.0 + ":" + SplitFirst(s).value.1
  {
    if s != "" && s[0] != ':' {
      SplitFirstIs(s[1..]);
      assert s == [s[0]] + s[1..];
    }
  }

  /** The accepted texts, trimmed: a tagged time, an untagged time, or a tagged name. */
  lemma AcceptedForms(text: string)
    ensures Decode(text).Ok? && Decode(text).value.Some? ==>
              match Decode(text).value.value
              case Time(created, id) =>
                exists n :: ParseI64(n) == Some(created) && Trim(text) in {"t:" + n + ":" + id, n + ":" + id}
              case Name(username, id) => Trim(text) == "u:" + username + ":" + id
  {
    var raw := Trim(text);
    if "t:" <= raw {
      TimeForm(raw[2..]);
      assert raw == "t:" + raw[2..];
      if DecodeTime(raw[2..]).Ok? {
        var n := SplitFirst(raw[2..]).value.0;
        assert raw == "t:" + n + ":" + DecodeTime(raw[2..]).value.value.id;
      }
    } else if "u:" <= raw {
      SplitLastTail(raw[2..]);
      assert raw == "u:" + raw[2..];
    } else {
      TimeForm(raw);
    }
  }

  lemma TimeForm(s: string)
    ensures DecodeTime(s).Ok? ==>
              var n := SplitFirst(s).value.0;
              && DecodeTime(s).value.Some? && DecodeTime(s).value.value.Time?
              && ParseI64(n) == Some(DecodeTime(s).value.value.created)
              && s == n + ":" + DecodeTime(s).value.value.id
  {
    SplitFirstIs(s);
  }

  /** An untagged `{created}:{id}` is still read as a time cursor. */
  lemma LegacyTimeAccepted(created: int, id: string)
    requires I64_MIN <= created <= I64_MAX && ValidId(id) && !IsWhitespace(id[|id| - 1])
    ensures Decode(IntText(created) + ":" + id) == Ok(Some(Time(created, id)))
  {
    var digits := IntText(created);
    var p := digits + ":";
    SignOf(created);
    IntTextHasNo(created, ':');
    IntTextHasNo(created, 't');
    IntTextHasNo(created, 'u');
    assert p + id == digits + ":" + id;
    TrimEndAfter(p, id);
    TrimEndShortens(id);
    assert (p + id)[0] == digits[0];
    assert TrimStart(p + id) == p + id;
    SplitFirstAt(digits, id);
    ParseI64RoundTrip(created);
  }
}
