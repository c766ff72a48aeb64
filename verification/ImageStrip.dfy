/**
 Metadata stripping of uploaded images (services/user.rs).  The two byte loops are proved to
 parse the file (PNG chunks, section 5.3 of the W3C PNG Specification; JPEG segments, section
 B.1.1 of ITU-T T.81), drop the metadata units and print the rest; parsing the result back
 gives exactly the units that were kept.
 */
module ImageStrip {
  import opened Wrappers

  const PNG_SIGNATURE: seq<byte> := [0x89, 0x50, 0x4e, 0x47, 0x0d, 0x0a, 0x1a, 0x0a]
  const JPEG_SOI: seq<byte> := [0xff, 0xd8]

  // ----- PNG chunks

  function BigEndian32(s: seq<byte>): nat
    requires |s| >= 4
  {
    ((s[0] as int * 256 + s[1]) * 256 + s[2]) * 256 + s[3]
  }

  /** A raw chunk: length, type, data and CRC. */
  ghost predicate WholeChunk(c: seq<byte>)
  {
    |c| >= 12 && |c| == 12 + BigEndian32(c)
  }

  /** The four type bytes, read as one number. */
  function ChunkType(c: seq<byte>): nat
  {
    if |c| >= 8 then BigEndian32(c[4..8]) else 0
  }

  const IEND: nat := 0x49454e44

  /** eXIf, tEXt, zTXt, iTXt, tIME, pHYs and iCCP. */
  predicate MetadataChunk(kind: nat)
  {
    kind in {0x65584966, 0x74455874, 0x7a545874, 0x69545874, 0x74494d45, 0x70485973, 0x69434350}
  }

  /** The chunks after the signature, up to IEND or the first truncated chunk. */
  ghost function ParseChunks(s: seq<byte>): seq<seq<byte>>
  {
    if |s| < 12 then []
    else
      var n := 12 + BigEndian32(s);
      if n > |s| then []
      else if ChunkType(s) == IEND then [s[..n]]
      else [s[..n]] + ParseChunks(s[n..])
  }

  /** Whole chunks, with nothing behind IEND. */
  ghost predicate ChunkList(chunks: seq<seq<byte>>)
  {
    chunks == [] || (WholeChunk(chunks[0]) && (ChunkType(chunks[0]) == IEND ==> |chunks| == 1)
        && ChunkList(chunks[1..]))
  }

  ghost function KeepChunks(chunks: seq<seq<byte>>): seq<seq<byte>>
  {
    if chunks == [] then []
    else (if MetadataChunk(ChunkType(chunks[0])) then [] else [chunks[0]]) + KeepChunks(chunks[1..])
  }

  ghost function Flatten(chunks: seq<seq<byte>>): seq<byte>
  {
    if chunks == [] then [] else chunks[0] + Flatten(chunks[1..])
  }

  /** The stripped file, as a parse, a filter and a print. */
  ghost function StripPng(bytes: seq<byte>): seq<byte>
  {
    if |bytes| < 8 || bytes[..8] != PNG_SIGNATURE then bytes
    else PNG_SIGNATURE + Flatten(KeepChunks(ParseChunks(bytes[8..])))
  }

  lemma KeptHead(c: seq<byte>, rest: seq<seq<byte>>)
    ensures KeepChunks([c] + rest) == if MetadataChunk(ChunkType(c)) then KeepChunks(rest) else [c] + KeepChunks(rest)
    ensures Flatten([c] + rest) == c + Flatten(rest)
    ensures Flatten(KeepChunks([c] + rest))
         == (if MetadataChunk(ChunkType(c)) then [] else c) + Flatten(KeepChunks(rest))
  {
    assert ([c] + rest)[1..] == rest;
    assert ([c] + KeepChunks(rest))[1..] == KeepChunks(rest);
  }

  /** What the chunk loop appends from `offset` on. */
  ghost function ChunksFrom(bytes: seq<byte>, offset: nat): seq<byte>
    requires offset <= |bytes|
    decreases |bytes| - offset
  {
    if offset + 12 > |bytes| then []
    else
      var total := 12 + BigEndian32(bytes[offset..offset + 4]);
      var kind := BigEndian32(bytes[offset + 4..offset + 8]);
      if offset + total > |bytes| then []
      else
        var piece := if MetadataChunk(kind) then [] else bytes[offset..offset + total];
        if kind == IEND then piece else piece + ChunksFrom(bytes, offset + total)
  }

  lemma ChunkFields(bytes: seq<byte>, offset: nat)
    requires offset + 12 <= |bytes|
    ensures BigEndian32(bytes[offset..]) == BigEndian32(bytes[offset..offset + 4])
    ensures ChunkType(bytes[offset..]) == BigEndian32(bytes[offset + 4..offset + 8])
  {
    var s := bytes[offset..];
    assert s[4..8] == bytes[offset + 4..offset + 8];
  }

  lemma ParseOne(s: seq<byte>, n: nat)
    requires |s| >= 12 && n == 12 + BigEndian32(s) && n <= |s|
    ensures ParseChunks(s) == if ChunkType(s) == IEND then [s[..n]] else [s[..n]] + ParseChunks(s[n..])
  {
  }

  lemma Slices(bytes: seq<byte>, offset: nat, n: nat)
    requires offset + n <= |bytes|
    ensures bytes[offset..][..n] == bytes[offset..offset + n] && bytes[offset..][n..] == bytes[offset + n..]
  {
  }

  /** What the kept chunks print when there is only one. */
  lemma KeptAlone(c: seq<byte>)
    ensures Flatten(KeepChunks([c])) == if MetadataChunk(ChunkType(c)) then [] else c
  {
    assert [c][1..] == [];
    assert KeepChunks([c]) == if MetadataChunk(ChunkType(c)) then [] else [c];
    assert Flatten([c]) == c + [] == c;
  }

  /** The loop prints the parsed chunks without the metadata. */
  lemma {:induction false} ChunksFromParse(bytes: seq<byte>, offset: nat)
    requires offset <= |bytes|
    ensures ChunksFrom(bytes, offset) == Flatten(KeepChunks(ParseChunks(bytes[offset..])))
    decreases |bytes| - offset
  {
    if offset + 12 <= |bytes| {
      ChunkFields(bytes, offset);
      var total := 12 + BigEndian32(bytes[offset..offset + 4]);
      if offset + total <= |bytes| {
        ChunksFromParse(bytes, offset + total);
        ParseChunkAt(bytes, offset, total);
      }
    }
  }

  lemma ParseChunkAt(bytes: seq<byte>, offset: nat, total: nat)
    requires offset + 12 <= |bytes| && total == 12 + BigEndian32(bytes[offset..]) && offset + total <= |bytes|
    ensures var kind, rest := ChunkType(bytes[offset..]), Flatten(KeepChunks(ParseChunks(bytes[offset + total..])));
            var piece := if MetadataChunk(kind) then [] else bytes[offset..offset + total];
            Flatten(KeepChunks(ParseChunks(bytes[offset..]))) == if kind == IEND then piece else piece + rest
  {
    Slices(bytes, offset, total);
    ParseOne(bytes[offset..], total);
    FirstChunk(bytes[offset..], total);
    KeptHead(bytes[offset..offset + total], ParseChunks(bytes[offset + total..]));
    KeptAlone(bytes[offset..offset + total]);
  }

  /** One turn of the loop: the bytes to append, where to go on, and whether the loop ends here. */
  method StripChunk(bytes: seq<byte>, offset: nat) returns (piece: seq<byte>, next: nat, stop: bool)
    requires offset + 12 <= |bytes|
    ensures offset < next <= |bytes|
    ensures ChunksFrom(bytes, offset) == if stop then piece else piece + ChunksFrom(bytes, next)
  {
    var total := 12 + BigEndian32(bytes[offset..offset + 4]);
    var chunkType := BigEndian32(bytes[offset + 4..offset + 8]);
    if offset + total > |bytes| {
      return [], |bytes|, true;
    }
    piece := if MetadataChunk(chunkType) then [] else bytes[offset..offset + total];
    return piece, offset + total, chunkType == IEND;
  }

  /** The chunk loop, from `start` on. */
  method StripChunks(bytes: seq<byte>, start: nat, header: seq<byte>) returns (out: seq<byte>)
    requires start <= |bytes|
    ensures out == header + ChunksFrom(bytes, start)
  {
    out := header;
    var offset := start;
    while offset + 12 <= |bytes|
      invariant offset <= |bytes|
      invariant header + ChunksFrom(bytes, start) == out + ChunksFrom(bytes, offset)
      decreases |bytes| - offset
    {
      var piece, next, stop := StripChunk(bytes, offset);
      Associate(out, piece, ChunksFrom(bytes, next));
      out := out + piece;
      if stop {
        return out;
      }
      offset := next;
    }
    assert out + [] == out;
  }

  method StripPngMetadata(bytes: seq<byte>) returns (out: seq<byte>)
    ensures out == StripPng(bytes)
  {
    if |bytes| < 8 || bytes[..8] != PNG_SIGNATURE {
      return bytes;
    }
    out := StripChunks(bytes, 8, PNG_SIGNATURE);
    ChunksFromParse(bytes, 8);
  }

  /** Printed chunks parse back to themselves. */
  lemma {:induction false} ParseFlatten(chunks: seq<seq<byte>>)
    requires ChunkList(chunks)
    ensures ParseChunks(Flatten(chunks)) == chunks
  {
    if chunks != [] {
      var c, s := chunks[0], Flatten(chunks);
      assert s[..|c|] == c && s[|c|..] == Flatten(chunks[1..]);
      assert BigEndian32(s) == BigEndian32(c) && ChunkType(s) == ChunkType(c);
      if ChunkType(c) == IEND {
        assert chunks == [c];
      } else {
        ParseFlatten(chunks[1..]);
        assert chunks == [c] + chunks[1..];
      }
    }
  }

  lemma {:induction false} KeptTwice(chunks: seq<seq<byte>>)
    ensures KeepChunks(KeepChunks(chunks)) == KeepChunks(chunks)
    ensures |Flatten(KeepChunks(chunks))| <= |Flatten(chunks)|
  {
    if chunks != [] {
      KeptTwice(chunks[1..]);
      assert chunks == [chunks[0]] + chunks[1..];
      KeptHead(chunks[0], chunks[1..]);
      KeptHead(chunks[0], KeepChunks(chunks[1..]));
    }
  }

  lemma ChunkInFront(c: seq<byte>, rest: seq<seq<byte>>)
    requires WholeChunk(c) && ChunkType(c) != IEND && ChunkList(rest)
    ensures ChunkList([c] + rest)
  {
    assert ([c] + rest)[1..] == rest;
  }

  /** The first chunk, cut out of the file. */
  lemma FirstChunk(s: seq<byte>, n: nat)
    requires |s| >= 12 && n == 12 + BigEndian32(s) && n <= |s|
    ensures WholeChunk(s[..n]) && ChunkType(s[..n]) == ChunkType(s)
  {
    assert s[..n][4..8] == s[4..8];
  }

  lemma {:induction false} ParsedChunks(s: seq<byte>)
    ensures ChunkList(ParseChunks(s))
    decreases |s|
  {
    if |s| >= 12 && 12 + BigEndian32(s) <= |s| {
      var n := 12 + BigEndian32(s);
      FirstChunk(s, n);
      if ChunkType(s) != IEND {
        ParsedChunks(s[n..]);
        ChunkInFront(s[..n], ParseChunks(s[n..]));
      }
    }
  }

  lemma {:induction false} KeptChunks(chunks: seq<seq<byte>>)
    requires ChunkList(chunks)
    ensures ChunkList(KeepChunks(chunks))
  {
    if chunks != [] {
      KeptChunks(chunks[1..]);
      assert chunks == [chunks[0]] + chunks[1..];
      KeptHead(chunks[0], chunks[1..]);
      assert ([chunks[0]] + KeepChunks(chunks[1..]))[1..] == KeepChunks(chunks[1..]);
    }
  }

  lemma {:induction false} ParsedLength(s: seq<byte>)
    ensures |Flatten(ParseChunks(s))| <= |s|
    decreases |s|
  {
    if |s| >= 12 && 12 + BigEndian32(s) <= |s| {
      var n := 12 + BigEndian32(s);
      assert Flatten([s[..n]]) == s[..n] by { assert [s[..n]][1..] == []; }
      if ChunkType(s) != IEND {
        ParsedLength(s[n..]);
        assert ([s[..n]] + ParseChunks(s[n..]))[1..] == ParseChunks(s[n..]);
      }
    }
  }

  /** Re-parsing a stripped PNG gives the original chunks without the metadata, in order. */
  lemma PngRoundTrip(bytes: seq<byte>)
    requires |bytes| >= 8 && bytes[..8] == PNG_SIGNATURE
    ensures StripPng(bytes)[..8] == PNG_SIGNATURE
    ensures ParseChunks(StripPng(bytes)[8..]) == KeepChunks(ParseChunks(bytes[8..]))
  {
    var chunks := ParseChunks(bytes[8..]);
    ParsedChunks(bytes[8..]);
    KeptChunks(chunks);
    ParseFlatten(KeepChunks(chunks));
    assert StripPng(bytes)[8..] == Flatten(KeepChunks(chunks));
  }

  lemma PngIdempotent(bytes: seq<byte>)
    ensures StripPng(StripPng(bytes)) == StripPng(bytes)
    ensures |StripPng(bytes)| <= |bytes|
  {
    if |bytes| >= 8 && bytes[..8] == PNG_SIGNATURE {
      PngRoundTrip(bytes);
      KeptTwice(ParseChunks(bytes[8..]));
      ParsedLength(bytes[8..]);
    }
  }

  // ----- JPEG segments

  /** A marker segment; the payload starts with its own two-byte length. */
  datatype Segment = Segment(marker: byte, payload: seq<byte>)

  /** How the segment list ends: cut short, raw bytes, end of image, or start of scan. */
  datatype Ending = Truncated | Raw(rest: seq<byte>) | EndOfImage | Scan(rest: seq<byte>)

  datatype Jpeg = Jpeg(segments: seq<Segment>, ending: Ending)

  function BigEndian16(s: seq<byte>): nat
    requires |s| >= 2
  {
    s[0] as int * 256 + s[1]
  }

  /** APP1, APP2, APP13 and COM. */
  predicate MetadataMarker(marker: byte)
  {
    marker == 0xe1 || marker == 0xe2 || marker == 0xed || marker == 0xfe
  }

  /** Drops fill bytes. */
  ghost function SkipFill(s: seq<byte>): (t: seq<byte>)
    ensures |t| <= |s|
    ensures s != [] && s[0] == 0xff ==> |t| < |s|
    ensures t != [] ==> t[0] != 0xff
  {
    if s != [] && s[0] == 0xff then SkipFill(s[1..]) else s
  }

  ghost predicate WellFormedSegment(seg: Segment)
  {
    && seg.marker != 0xff && seg.marker != 0xd9 && seg.marker != 0xda
    && |seg.payload| >= 2 && BigEndian16(seg.payload) == |seg.payload|
  }

  ghost predicate WellFormedEnding(ending: Ending)
  {
    ending.Raw? ==> ending.rest != [] && ending.rest[0] != 0xff
  }

  ghost predicate WellFormedJpeg(j: Jpeg)
  {
    WellFormedEnding(j.ending) && forall seg :: seg in j.segments ==> WellFormedSegment(seg)
  }

  /** What follows SOI. */
  ghost function ParseSegments(s: seq<byte>): Jpeg
    decreases |s|
  {
    if s == [] then Jpeg([], Truncated)
    else if s[0] != 0xff then Jpeg([], Raw(s))
    else
      var t := SkipFill(s);
      if t == [] then Jpeg([], Truncated)
      else AtMarker(t)
  }

  /** The part of the parse that starts at a marker byte. */
  ghost function AtMarker(t: seq<byte>): Jpeg
    requires t != [] && t[0] != 0xff
    decreases |t|
  {
    var marker, u := t[0], t[1..];
    if marker == 0xd9 then Jpeg([], EndOfImage)
    else if marker == 0xda then Jpeg([], Scan(u))
    else if |u| < 2 || BigEndian16(u) < 2 || BigEndian16(u) > |u| then Jpeg([], Truncated)
    else
      var n := BigEndian16(u);
      var rest := ParseSegments(u[n..]);
      Jpeg([Segment(marker, u[..n])] + rest.segments, rest.ending)
  }

  ghost function Keep(segments: seq<Segment>): seq<Segment>
  {
    if segments == [] then []
    else (if MetadataMarker(segments[0].marker) then [] else [segments[0]]) + Keep(segments[1..])
  }

  ghost function PrintEnding(ending: Ending): seq<byte>
  {
    match ending
    case Truncated => []
    case Raw(rest) => rest
    case EndOfImage => [0xff, 0xd9]
    case Scan(rest) => [0xff, 0xda] + rest
  }

  ghost function Print(j: Jpeg): seq<byte>
    decreases |j.segments|
  {
    if j.segments == [] then PrintEnding(j.ending)
    else [0xff, j.segments[0].marker] + j.segments[0].payload + Print(Jpeg(j.segments[1..], j.ending))
  }

  ghost function KeepJpeg(j: Jpeg): Jpeg
  {
    Jpeg(Keep(j.segments), j.ending)
  }

  ghost function StripJpeg(bytes: seq<byte>): seq<byte>
  {
    if |bytes| < 4 || bytes[..2] != JPEG_SOI then bytes
    else JPEG_SOI + Print(KeepJpeg(ParseSegments(bytes[2..])))
  }

  /** Printing what is left to parse at `i` after what was printed before gives the whole result. */
  ghost function Remaining(bytes: seq<byte>, i: nat): seq<byte>
    requires i <= |bytes|
  {
    Print(KeepJpeg(ParseSegments(bytes[i..])))
  }

  lemma SkipOne(s: seq<byte>)
    requires |s| >= 2 && s[0] == 0xff && s[1] != 0xff
    ensures SkipFill(s) == s[1..]
  {
    assert SkipFill(s[1..]) == s[1..];
  }

  lemma SkipFillAt(bytes: seq<byte>, i: nat, k: nat)
    requires i <= k <= |bytes|
    requires forall m :: i <= m < k ==> bytes[m] == 0xff
    requires k < |bytes| ==> bytes[k] != 0xff
    ensures SkipFill(bytes[i..]) == bytes[k..]
    decreases k - i
  {
    if i < k {
      assert bytes[i..][1..] == bytes[i + 1..];
      SkipFillAt(bytes, i + 1, k);
    }
  }

  lemma KeepHead(seg: Segment, rest: seq<Segment>)
    ensures Keep([seg] + rest) == (if MetadataMarker(seg.marker) then [] else [seg]) + Keep(rest)
  {
    assert ([seg] + rest)[1..] == rest;
  }

  lemma PrintHead(seg: Segment, j: Jpeg)
    ensures Print(Jpeg([seg] + j.segments, j.ending)) == [0xff, seg.marker] + seg.payload + Print(j)
  {
    assert ([seg] + j.segments)[1..] == j.segments;
  }

  /** One segment of the loop: the rest of the result in terms of the position after it. */
  lemma SegmentStep(bytes: seq<byte>, i: nat, m: nat, n: nat)
    requires i < m < |bytes| && bytes[m] != 0xff && bytes[i] == 0xff
    requires SkipFill(bytes[i..]) == bytes[m..]
    requires bytes[m] != 0xd9 && bytes[m] != 0xda
    requires m + 3 <= |bytes| && n == BigEndian16(bytes[m + 1..m + 3]) && n >= 2 && m + 1 + n <= |bytes|
    ensures Remaining(bytes, i)
         == (if MetadataMarker(bytes[m]) then [] else [0xff, bytes[m]] + bytes[m + 1..m + 1 + n])
            + Remaining(bytes, m + 1 + n)
  {
    var t := bytes[m..];
    var u := t[1..];
    assert u[..2] == bytes[m + 1..m + 3];
    assert u[..n] == bytes[m + 1..m + 1 + n] && u[n..] == bytes[m + 1 + n..];
    var seg, rest := Segment(bytes[m], u[..n]), ParseSegments(u[n..]);
    assert ParseSegments(bytes[i..]) == Jpeg([seg] + rest.segments, rest.ending);
    KeepHead(seg, rest.segments);
    PrintHead(seg, KeepJpeg(rest));
    if MetadataMarker(seg.marker) {
      assert Keep([seg] + rest.segments) == Keep(rest.segments);
    }
  }

  lemma RawStep(bytes: seq<byte>, i: nat)
    requires i < |bytes| && bytes[i] != 0xff
    ensures Remaining(bytes, i) == bytes[i..]
  {
  }

  /** A list that ends without another segment. */
  lemma PrintedEnding(ending: Ending)
    ensures Print(KeepJpeg(Jpeg([], ending))) == PrintEnding(ending)
  {
  }

  lemma OnlyFill(bytes: seq<byte>, i: nat)
    requires i < |bytes| && bytes[i] == 0xff && SkipFill(bytes[i..]) == []
    ensures Remaining(bytes, i) == []
  {
    PrintedEnding(Truncated);
  }

  /** The ways the list can end at the marker at `m`. */
  lemma EndingStep(bytes: seq<byte>, i: nat, m: nat, ending: Ending)
    requires i < m < |bytes| && bytes[i] == 0xff && SkipFill(bytes[i..]) == bytes[m..] && bytes[m] != 0xff
    requires match ending
             case EndOfImage => bytes[m] == 0xd9
             case Scan(rest) => bytes[m] == 0xda && rest == bytes[m + 1..]
             case Truncated =>
               && bytes[m] != 0xd9 && bytes[m] != 0xda
               && (m + 3 > |bytes| || BigEndian16(bytes[m + 1..m + 3]) < 2
                   || m + 1 + BigEndian16(bytes[m + 1..m + 3]) > |bytes|)
             case Raw(_) => false
    ensures Remaining(bytes, i) == PrintEnding(ending)
  {
    var t := bytes[m..];
    assert t[1..] == bytes[m + 1..];
    assert m + 3 <= |bytes| ==> t[1..][..2] == bytes[m + 1..m + 3];
    assert ParseSegments(bytes[i..]) == Jpeg([], ending);
    PrintedEnding(ending);
  }

  /** The inner loop over fill bytes. */
  method SkipFillBytes(bytes: seq<byte>, start: nat) returns (i: nat)
    requires start < |bytes| && bytes[start] == 0xff
    ensures start < i <= |bytes| && (i < |bytes| ==> bytes[i] != 0xff)
    ensures SkipFill(bytes[start..]) == bytes[i..]
  {
    i := start;
    while i < |bytes| && bytes[i] == 0xff
      invariant start <= i <= |bytes|
      invariant forall m :: start <= m < i ==> bytes[m] == 0xff
    {
      i := i + 1;
    }
    SkipFillAt(bytes, start, i);
  }

  /**
   One turn of the outer loop at a position that holds 0xff: the bytes to append, and the
   position to go on from, or `|bytes|` and `stop` when the loop ends here.
   */
  method StripAtMarker(bytes: seq<byte>, start: nat) returns (piece: seq<byte>, next: nat, stop: bool)
    requires start < |bytes| && bytes[start] == 0xff
    ensures start < next <= |bytes|
    ensures Remaining(bytes, start) == if stop then piece else piece + Remaining(bytes, next)
  {
    var i := SkipFillBytes(bytes, start);
    if i >= |bytes| {
      OnlyFill(bytes, start);
      return [], |bytes|, true;
    }
    ghost var m := i;
    var marker := bytes[i];
    i := i + 1;
    if marker == 0xd9 {
      EndingStep(bytes, start, m, EndOfImage);
      return [0xff, 0xd9], |bytes|, true;
    }
    if marker == 0xda {
      EndingStep(bytes, start, m, Scan(bytes[i..]));
      return [0xff, 0xda] + bytes[i..], |bytes|, true;
    }
    if i + 2 > |bytes| {
      EndingStep(bytes, start, m, Truncated);
      return [], |bytes|, true;
    }
    var len := BigEndian16(bytes[i..i + 2]);
    if len < 2 || i + len > |bytes| {
      EndingStep(bytes, start, m, Truncated);
      return [], |bytes|, true;
    }
    SegmentStep(bytes, start, m, len);
    piece := if MetadataMarker(marker) then [] else [0xff, marker] + bytes[i..i + len];
    return piece, i + len, false;
  }

  method StripJpegMetadata(bytes: seq<byte>) returns (out: seq<byte>)
    ensures out == StripJpeg(bytes)
  {
    if |bytes| < 4 || bytes[..2] != JPEG_SOI {
      return bytes;
    }
    out := JPEG_SOI;
    var i := 2;
    while i < |bytes|
      invariant 2 <= i <= |bytes|
      invariant StripJpeg(bytes) == out + Remaining(bytes, i)
      decreases |bytes| - i
    {
      if bytes[i] != 0xff {
        RawStep(bytes, i);
        out := out + bytes[i..];
        return out;
      }
      var piece, next, stop := StripAtMarker(bytes, i);
      out := out + piece;
      if stop {
        return out;
      }
      i := next;
    }
  }

  /** Printed segments parse back to themselves. */
  lemma {:induction false} ParsePrint(j: Jpeg)
    requires WellFormedJpeg(j)
    ensures ParseSegments(Print(j)) == j
    decreases |j.segments|
  {
    var s := Print(j);
    if j.segments == [] {
      match j.ending
      case Truncated =>
      case Raw(rest) =>
      case EndOfImage =>
        SkipOne(s);
      case Scan(rest) =>
        assert s[1..] == [0xda] + rest;
        SkipOne(s);
        assert s[1..][1..] == rest;
    } else {
      var seg, tail := j.segments[0], Jpeg(j.segments[1..], j.ending);
      assert seg in j.segments;
      assert s == [0xff, seg.marker] + seg.payload + Print(tail);
      assert s[0] == 0xff && s[1] == seg.marker;
      SkipOne(s);
      assert s[1..] == [seg.marker] + seg.payload + Print(tail);
      var u := s[1..][1..];
      assert u == seg.payload + Print(tail);
      assert u[..|seg.payload|] == seg.payload && u[|seg.payload|..] == Print(tail);
      ParsePrint(tail);
      assert j.segments == [seg] + tail.segments;
    }
  }

  lemma {:induction false} KeepTwice(segments: seq<Segment>)
    ensures Keep(Keep(segments)) == Keep(segments)
  {
    if segments != [] {
      KeepTwice(segments[1..]);
      KeepHead(segments[0], Keep(segments[1..]));
      assert [] + Keep(segments[1..]) == Keep(segments[1..]);
    }
  }

  lemma {:induction false} ParsedWellFormed(s: seq<byte>)
    ensures WellFormedJpeg(ParseSegments(s))
    decreases |s|
  {
    if s != [] && s[0] == 0xff && SkipFill(s) != [] {
      var t := SkipFill(s);
      var u := t[1..];
      if t[0] != 0xd9 && t[0] != 0xda && |u| >= 2 && 2 <= BigEndian16(u) <= |u| {
        ParsedWellFormed(u[BigEndian16(u)..]);
      }
    }
  }

  lemma {:induction false} KeptSegments(segments: seq<Segment>)
    ensures forall seg :: seg in Keep(segments) ==> seg in segments
  {
    if segments != [] {
      KeptSegments(segments[1..]);
    }
  }

  /** Re-parsing a stripped JPEG gives the original segments without the metadata, and the same ending. */
  lemma JpegRoundTrip(bytes: seq<byte>)
    requires |bytes| >= 4 && bytes[..2] == JPEG_SOI
    ensures StripJpeg(bytes)[..2] == JPEG_SOI
    ensures ParseSegments(StripJpeg(bytes)[2..]) == KeepJpeg(ParseSegments(bytes[2..]))
  {
    ParsedWellFormed(bytes[2..]);
    KeptSegments(ParseSegments(bytes[2..]).segments);
    ParsePrint(KeepJpeg(ParseSegments(bytes[2..])));
    assert StripJpeg(bytes)[2..] == Print(KeepJpeg(ParseSegments(bytes[2..])));
  }

  lemma {:induction false} ParsedJpegLength(s: seq<byte>)
    ensures |Print(KeepJpeg(ParseSegments(s)))| <= |s|
    decreases |s|
  {
    if s != [] && s[0] == 0xff && SkipFill(s) != [] {
      var t := SkipFill(s);
      var u := t[1..];
      if t[0] != 0xd9 && t[0] != 0xda && |u| >= 2 && 2 <= BigEndian16(u) <= |u| {
        var n := BigEndian16(u);
        ParsedJpegLength(u[n..]);
        var seg, rest := Segment(t[0], u[..n]), ParseSegments(u[n..]);
        KeepHead(seg, rest.segments);
        PrintHead(seg, KeepJpeg(rest));
        assert [] + Keep(rest.segments) == Keep(rest.segments);
      }
    }
  }

  lemma JpegIdempotent(bytes: seq<byte>)
    ensures StripJpeg(StripJpeg(bytes)) == StripJpeg(bytes)
    ensures |StripJpeg(bytes)| <= |bytes|
  {
    if |bytes| >= 4 && bytes[..2] == JPEG_SOI {
      JpegRoundTrip(bytes);
      KeepTwice(ParseSegments(bytes[2..]).segments);
      ParsedJpegLength(bytes[2..]);
    }
  }

  // ----- the entry point

  /** `strip_image_metadata` */
  method StripImageMetadata(bytes: seq<byte>, mimeType: string) returns (out: seq<byte>)
    ensures out == if mimeType in ["image/png", "image/apng"] then StripPng(bytes)
                   else if mimeType in ["image/jpeg", "image/jpg"] then StripJpeg(bytes)
                   else bytes
    ensures |out| <= |bytes|
  {
    PngIdempotent(bytes);
    JpegIdempotent(bytes);
    if mimeType == "image/png" || mimeType == "image/apng" {
      out := StripPngMetadata(bytes);
    } else if mimeType == "image/jpeg" || mimeType == "image/jpg" {
      out := StripJpegMetadata(bytes);
    } else {
      out := bytes;
    }
  }
}
