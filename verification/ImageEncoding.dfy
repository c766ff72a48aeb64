/**
 Encoders for PNG chunks and JPEG segments, written from the formats (section 5.3 of the W3C PNG
 Specification, section B.1.1 of ITU-T T.81) and not from the code that strips them.  On
 encoded files the result is spelled out: which units survive, byte for byte.
 */
module ImageEncoding {
  import opened Wrappers
  import opened ImageStrip

  // ----- PNG

  datatype Chunk = Chunk(name: string, data: seq<byte>, crc: seq<byte>)

  ghost predicate IsChunk(c: Chunk)
  {
    && |c.name| == 4 && (forall i :: 0 <= i < 4 ==> c.name[i] as int < 256)
    && |c.data| < 0x1_0000_0000 && |c.crc| == 4
  }

  /** The four base-256 digits of a number, most significant first. */
  ghost function FourDigits(n: nat): (s: seq<byte>)
    ensures |s| == 4
  {
    [n / 0x100_0000 % 256, n / 0x1_0000 % 256, n / 0x100 % 256, n % 256]
  }

  ghost function Letters(name: string): (s: seq<byte>)
    requires |name| == 4 && forall i :: 0 <= i < 4 ==> name[i] as int < 256
    ensures |s| == 4
  {
    [name[0] as int, name[1] as int, name[2] as int, name[3] as int]
  }

  /** Length of the data, type name, data, CRC. */
  ghost function EncodeChunk(c: Chunk): seq<byte>
    requires IsChunk(c)
  {
    FourDigits(|c.data|) + Letters(c.name) + c.data + c.crc
  }

  ghost function EncodeChunks(chunks: seq<Chunk>): seq<byte>
    requires forall c :: c in chunks ==> IsChunk(c)
  {
    if chunks == [] then [] else EncodeChunk(chunks[0]) + EncodeChunks(chunks[1..])
  }

  lemma FourDigitsRead(n: nat)
    requires n < 0x1_0000_0000
    ensures BigEndian32(FourDigits(n)) == n
  {
    var a, b, c := n / 0x100, n / 0x1_0000, n / 0x100_0000;
    assert a / 256 == b && b / 256 == c && c < 256;
    assert n == a * 256 + n % 256 && a == b * 256 + a % 256 && b == c * 256 + b % 256;
  }

  /** Different type bytes are different numbers. */
  lemma BigEndian32Injective(s: seq<byte>, t: seq<byte>)
    requires |s| == |t| == 4 && BigEndian32(s) == BigEndian32(t)
    ensures s == t
  {
    var a: int, b: int, c: int, d: int := s[0], s[1], t[0], t[1];
    SameDigits((a * 256 + b) * 256 + s[2], (c * 256 + d) * 256 + t[2], s[3], t[3]);
    SameDigits(a * 256 + b, c * 256 + d, s[2], t[2]);
    SameDigits(a, c, s[1], t[1]);
    assert forall i :: 0 <= i < 4 ==> s[i] == t[i];
  }

  lemma SameDigits(x: int, y: int, a: byte, b: byte)
    requires x * 256 + a == y * 256 + b
    ensures x == y && a == b
  {
  }

  lemma SameName(a: string, b: string)
    requires |a| == |b| == 4 && forall i :: 0 <= i < 4 ==> a[i] as int < 256 && b[i] as int < 256
    ensures BigEndian32(Letters(a)) == BigEndian32(Letters(b)) <==> a == b
  {
    if BigEndian32(Letters(a)) == BigEndian32(Letters(b)) {
      BigEndian32Injective(Letters(a), Letters(b));
      assert forall i :: 0 <= i < 4 ==> a[i] as int == Letters(a)[i] == Letters(b)[i] == b[i] as int;
    }
  }

  const METADATA_NAMES: seq<string> := ["eXIf", "tEXt", "zTXt", "iTXt", "tIME", "pHYs", "iCCP"]

  lemma MetadataByName(name: string)
    requires |name| == 4 && forall i :: 0 <= i < 4 ==> name[i] as int < 256
    ensures MetadataChunk(BigEndian32(Letters(name))) <==> name in METADATA_NAMES
    ensures BigEndian32(Letters(name)) == IEND <==> name == "IEND"
  {
    NameNumbers();
    SameName(name, "eXIf");
    SameName(name, "tEXt");
    SameName(name, "zTXt");
    SameName(name, "iTXt");
    SameName(name, "tIME");
    SameName(name, "pHYs");
    SameName(name, "iCCP");
    SameName(name, "IEND");
  }

  lemma NameNumbers()
    ensures BigEndian32(Letters("eXIf")) == 0x65584966 && BigEndian32(Letters("tEXt")) == 0x74455874
    ensures BigEndian32(Letters("zTXt")) == 0x7a545874 && BigEndian32(Letters("iTXt")) == 0x69545874
    ensures BigEndian32(Letters("tIME")) == 0x74494d45 && BigEndian32(Letters("pHYs")) == 0x70485973
    ensures BigEndian32(Letters("iCCP")) == 0x69434350 && BigEndian32(Letters("IEND")) == 0x49454e44
  {
  }

  lemma EncodedFields(c: Chunk, rest: seq<byte>)
    requires IsChunk(c)
    ensures var s, e := EncodeChunk(c) + rest, EncodeChunk(c);
            && |s| >= |e| >= 12 && |e| == 12 + BigEndian32(s)
            && ChunkType(s) == ChunkType(e) == BigEndian32(Letters(c.name))
            && s[..|e|] == e && s[|e|..] == rest
  {
    var s, e := EncodeChunk(c) + rest, EncodeChunk(c);
    FourDigitsRead(|c.data|);
    assert s[..4] == FourDigits(|c.data|) && s[4..8] == e[4..8] == Letters(c.name);
  }

  /** Encoded chunks are parsed as themselves, whatever their length and whatever follows. */
  lemma EncodedChunkParses(c: Chunk, rest: seq<byte>)
    requires IsChunk(c)
    ensures ParseChunks(EncodeChunk(c) + rest)
         == if c.name == "IEND" then [EncodeChunk(c)] else [EncodeChunk(c)] + ParseChunks(rest)
  {
    EncodedFields(c, rest);
    MetadataByName(c.name);
    ParseOne(EncodeChunk(c) + rest, |EncodeChunk(c)|);
  }

  ghost function Ordinary(chunks: seq<Chunk>): (kept: seq<Chunk>)
    ensures forall c :: c in kept ==> c in chunks
  {
    if chunks == [] then []
    else (if chunks[0].name in METADATA_NAMES then [] else [chunks[0]]) + Ordinary(chunks[1..])
  }

  /** Chunks that only the last of may be IEND; if it is, anything may follow. */
  ghost predicate ChunkStream(chunks: seq<Chunk>, rest: seq<byte>)
  {
    && (forall c :: c in chunks ==> IsChunk(c))
    && (forall i :: 0 <= i < |chunks| - 1 ==> chunks[i].name != "IEND")
    && (rest == [] || (chunks != [] && chunks[|chunks| - 1].name == "IEND"))
  }

  lemma {:induction false} EncodedChunksKept(chunks: seq<Chunk>, rest: seq<byte>)
    requires ChunkStream(chunks, rest)
    ensures Flatten(KeepChunks(ParseChunks(EncodeChunks(chunks) + rest))) == EncodeChunks(Ordinary(chunks))
  {
    if chunks == [] {
      assert EncodeChunks(chunks) + rest == [];
    } else {
      var c, e, more := chunks[0], EncodeChunk(chunks[0]), EncodeChunks(chunks[1..]) + rest;
      assert c in chunks;
      Associate(e, EncodeChunks(chunks[1..]), rest);
      EncodedChunkParses(c, more);
      if c.name == "IEND" {
        OnlyChunkKept(chunks);
      } else {
        EncodedChunksKept(chunks[1..], rest);
        FirstChunkKept(chunks, ParseChunks(more));
      }
    }
  }

  lemma OnlyChunkKept(chunks: seq<Chunk>)
    requires |chunks| == 1 && IsChunk(chunks[0])
    ensures Flatten(KeepChunks([EncodeChunk(chunks[0])])) == EncodeChunks(Ordinary(chunks))
  {
    var c := chunks[0];
    EncodedFields(c, []);
    MetadataByName(c.name);
    KeptAlone(EncodeChunk(c));
    EncodeOne(c);
    assert chunks[1..] == [] && Ordinary(chunks) == if c.name in METADATA_NAMES then [] else [c];
  }

  lemma FirstChunkKept(chunks: seq<Chunk>, parsed: seq<seq<byte>>)
    requires chunks != [] && forall c :: c in chunks ==> IsChunk(c)
    requires Flatten(KeepChunks(parsed)) == EncodeChunks(Ordinary(chunks[1..]))
    ensures Flatten(KeepChunks([EncodeChunk(chunks[0])] + parsed)) == EncodeChunks(Ordinary(chunks))
  {
    var c := chunks[0];
    EncodedFields(c, []);
    MetadataByName(c.name);
    KeptHead(EncodeChunk(c), parsed);
    EncodeCons(c, Ordinary(chunks[1..]));
    if c.name in METADATA_NAMES { assert [] + Ordinary(chunks[1..]) == Ordinary(chunks[1..]); }
  }

  lemma EncodeOne(c: Chunk)
    requires IsChunk(c)
    ensures EncodeChunks([c]) == EncodeChunk(c)
  {
    assert [c][1..] == [];
    assert EncodeChunk(c) + [] == EncodeChunk(c);
  }

  lemma EncodeCons(c: Chunk, chunks: seq<Chunk>)
    requires IsChunk(c) && forall d :: d in chunks ==> IsChunk(d)
    ensures EncodeChunks([c] + chunks) == EncodeChunk(c) + EncodeChunks(chunks)
  {
    assert ([c] + chunks)[1..] == chunks;
  }

  /**
   Stripping an encoded PNG file keeps exactly the chunks whose name is none of the seven, byte
   for byte and in order, and drops what follows IEND.
   */
  lemma StrippedPng(chunks: seq<Chunk>, rest: seq<byte>)
    requires ChunkStream(chunks, rest)
    ensures var signature: seq<byte> := [137, 80, 78, 71, 13, 10, 26, 10];
            StripPng(signature + (EncodeChunks(chunks) + rest)) == signature + EncodeChunks(Ordinary(chunks))
  {
    var signature: seq<byte> := [137, 80, 78, 71, 13, 10, 26, 10];
    var file := signature + (EncodeChunks(chunks) + rest);
    assert file[..8] == signature && file[8..] == EncodeChunks(chunks) + rest;
    EncodedChunksKept(chunks, rest);
  }

  // ----- JPEG

  /** A marker with `fill` extra fill bytes before it, and its parameters. */
  datatype Marked = Marked(fill: nat, marker: byte, data: seq<byte>)

  ghost predicate IsMarked(m: Marked)
  {
    m.marker != 0xff && m.marker != 0xd9 && m.marker != 0xda && |m.data| + 2 < 0x1_0000
  }

  ghost function TwoDigits(n: nat): (s: seq<byte>)
    ensures |s| == 2
  {
    [n / 0x100 % 256, n % 256]
  }

  ghost function Fill(n: nat): (s: seq<byte>)
    ensures |s| == n && forall i :: 0 <= i < n ==> s[i] == 0xff
  {
    seq(n, i => 0xff as byte)
  }

  /** What the length field counts: itself and the data. */
  ghost function Payload(m: Marked): seq<byte>
    requires IsMarked(m)
  {
    TwoDigits(|m.data| + 2) + m.data
  }

  ghost function EncodeMarked(m: Marked): seq<byte>
    requires IsMarked(m)
  {
    Fill(m.fill + 1) + ([m.marker] + Payload(m))
  }

  ghost function EncodeAll(ms: seq<Marked>): seq<byte>
    requires forall m :: m in ms ==> IsMarked(m)
  {
    if ms == [] then [] else EncodeMarked(ms[0]) + EncodeAll(ms[1..])
  }

  /** APP1, APP2, APP13 and comments go; fill bytes go too. */
  ghost function OrdinaryMarked(ms: seq<Marked>): (kept: seq<Marked>)
    requires forall m :: m in ms ==> IsMarked(m)
    ensures forall m :: m in kept ==> IsMarked(m)
  {
    if ms == [] then []
    else
      assert IsMarked(ms[0]);
      (if ms[0].marker in {0xe1, 0xe2, 0xed, 0xfe} then [] else [ms[0].(fill := 0)]) + OrdinaryMarked(ms[1..])
  }

  lemma {:induction false} FillSkipped(n: nat, marker: byte, rest: seq<byte>)
    requires marker != 0xff
    ensures SkipFill(Fill(n) + ([marker] + rest)) == [marker] + rest
  {
    var s := Fill(n) + ([marker] + rest);
    SkipFillAt(s, 0, n);
    assert s[0..] == s && s[n..] == [marker] + rest;
  }

  /** Encoded segments are parsed as themselves, whatever their length and whatever follows. */
  lemma EncodedSegmentParses(m: Marked, rest: seq<byte>)
    requires IsMarked(m)
    ensures ParseSegments(EncodeMarked(m) + rest)
         == Jpeg([Segment(m.marker, Payload(m))] + ParseSegments(rest).segments, ParseSegments(rest).ending)
  {
    var s := EncodeMarked(m) + rest;
    var u := Payload(m) + rest;
    assert s == Fill(m.fill + 1) + ([m.marker] + u);
    FillSkipped(m.fill + 1, m.marker, u);
    var t := [m.marker] + u;
    assert s[0] == 0xff && t[0] == m.marker && t[1..] == u;
    assert u[..2] == TwoDigits(|m.data| + 2);
    assert BigEndian16(u) == |m.data| + 2;
    assert u[..|Payload(m)|] == Payload(m) && u[|Payload(m)|..] == rest;
  }

  /** How a file ends behind its segments, and what is left of that. */
  ghost predicate EndsAs(tail: seq<byte>, kept: seq<byte>)
  {
    || (tail == [] && kept == [])
    || (|tail| >= 2 && tail[0] == 0xff && tail[1] == 0xd9 && kept == [0xff, 0xd9])
    || (|tail| >= 2 && tail[0] == 0xff && tail[1] == 0xda && kept == tail)
    || (tail != [] && tail[0] != 0xff && kept == tail)
  }

  lemma EndingKept(tail: seq<byte>, kept: seq<byte>)
    requires EndsAs(tail, kept)
    ensures Print(KeepJpeg(ParseSegments(tail))) == kept
  {
    if tail != [] && tail[0] == 0xff {
      SkipOne(tail);
      assert tail[1] == 0xda ==> [0xff, 0xda] + tail[1..][1..] == tail;
    }
    PrintedEnding(ParseSegments(tail).ending);
  }

  lemma {:induction false} EncodedSegmentsKept(ms: seq<Marked>, tail: seq<byte>, kept: seq<byte>)
    requires (forall m :: m in ms ==> IsMarked(m)) && EndsAs(tail, kept)
    ensures Print(KeepJpeg(ParseSegments(EncodeAll(ms) + tail))) == EncodeAll(OrdinaryMarked(ms)) + kept
  {
    if ms == [] {
      assert EncodeAll(ms) + tail == tail && EncodeAll(OrdinaryMarked(ms)) + kept == kept;
      EndingKept(tail, kept);
    } else {
      var m, more := ms[0], EncodeAll(ms[1..]) + tail;
      Associate(EncodeMarked(m), EncodeAll(ms[1..]), tail);
      EncodedSegmentParses(m, more);
      EncodedSegmentsKept(ms[1..], tail, kept);
      var seg, rest := Segment(m.marker, Payload(m)), ParseSegments(more);
      KeepHead(seg, rest.segments);
      if m.marker in {0xe1, 0xe2, 0xed, 0xfe} {
        assert [] + Keep(rest.segments) == Keep(rest.segments);
        assert OrdinaryMarked(ms) == OrdinaryMarked(ms[1..]);
      } else {
        PrintHead(seg, KeepJpeg(rest));
        EncodeAllCons(m.(fill := 0), OrdinaryMarked(ms[1..]));
        PlainMarked(m);
        Associate(EncodeMarked(m.(fill := 0)), EncodeAll(OrdinaryMarked(ms[1..])), kept);
      }
    }
  }

  lemma PlainMarked(m: Marked)
    requires IsMarked(m)
    ensures EncodeMarked(m.(fill := 0)) == [0xff, m.marker] + Payload(m)
  {
    assert Fill(1) == [0xff];
    assert Payload(m.(fill := 0)) == Payload(m);
  }

  lemma EncodeAllCons(m: Marked, ms: seq<Marked>)
    requires IsMarked(m) && forall n :: n in ms ==> IsMarked(n)
    ensures EncodeAll([m] + ms) == EncodeMarked(m) + EncodeAll(ms)
  {
    assert ([m] + ms)[1..] == ms;
  }

  /**
   Stripping an encoded JPEG file keeps exactly the segments whose marker is none of the four,
   byte for byte and in order but without fill bytes, and the scan or other ending.
   */
  lemma StrippedJpeg(ms: seq<Marked>, tail: seq<byte>, kept: seq<byte>)
    requires (forall m :: m in ms ==> IsMarked(m)) && EndsAs(tail, kept)
    ensures StripJpeg([0xff, 0xd8] + (EncodeAll(ms) + tail)) == [0xff, 0xd8] + (EncodeAll(OrdinaryMarked(ms)) + kept)
  {
    var file: seq<byte> := [0xff, 0xd8] + (EncodeAll(ms) + tail);
    assert file[..2] == [0xff, 0xd8] && file[2..] == EncodeAll(ms) + tail;
    EncodedSegmentsKept(ms, tail, kept);
    if |file| < 4 {
      assert ms == [];
      assert EncodeAll(ms) + tail == tail && EncodeAll(OrdinaryMarked(ms)) + kept == kept;
    }
  }
}
