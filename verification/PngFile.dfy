// The chunks of a PNG file (section 5 of the PNG specification), read and written by make-icons.py.
// Compression and checksums are functions handed in.
module PngFile {
  import opened Machine
  import opened ByteOrder
  import opened Png

  const SIGNATURE: Text := [0x89, 0x50, 0x4E, 0x47, 0x0D, 0x0A, 0x1A, 0x0A]
  const IHDR: Text := [0x49, 0x48, 0x44, 0x52]
  const IDAT: Text := [0x49, 0x44, 0x41, 0x54]
  const IEND: Text := [0x49, 0x45, 0x4E, 0x44]

  datatype Header = Header(width: Word32, height: Word32, depth: Byte, colorType: Byte)

  datatype Image = Image(width: nat, height: nat, channels: Positive, rows: seq<Text>)

  // The ways read_png gives up: its own two messages, a struct.error at a number cut short, the
  // decompressor, and an index out of range.
  datatype Failure = NotPng | Unsupported | CutShort | NotCompressed | OutOfRange

  datatype Outcome = Read(image: Image) | Failed(why: Failure)

  // ---------------------------------------------------------------------------------------------
  // Reading.

  // What has been gathered from the chunks so far.
  datatype Gathered = Gathered(header: Option<Header>, idat: Text)

  const NOTHING := Gathered(None, [])

  function ReadHeader(payload: Text): Header
    requires |payload| >= 10
  {
    Header(ReadBig32(payload), ReadBig32(payload[4..]), payload[8], payload[9])
  }

  // One chunk taken in; None where a header is too short to unpack.
  function Gather(g: Gathered, tag: Text, payload: Text): Option<Gathered>
  {
    if tag == IHDR then
      if |payload| < 10 then None else Some(g.(header := Some(ReadHeader(payload))))
    else if tag == IDAT then Some(g.(idat := g.idat + payload))
    else Some(g)
  }

  // The walk over the chunks. Slices over the end are shorter, a length cut short is an error, and
  // the checksums are not looked at.
  function Walk(s: Text, g: Gathered): Option<Gathered>
    decreases |s|
  {
    if s == [] then Some(g)
    else if |s| < 4 then None
    else
      var length := ReadBig32(s);
      match Gather(g, Front(Drop(s, 4), 4), Front(Drop(s, 8), length))
      case Some(next) => Walk(Drop(s, 12 + length), next)
      case None => None
  }

  function Decoded(g: Gathered, unzip: Text -> Option<Text>): Outcome
  {
    match g.header
    case None => Failed(Unsupported)
    case Some(h) =>
      if h.depth != 8 || (h.colorType != 2 && h.colorType != 6) then Failed(Unsupported)
      else
        var channels := if h.colorType == 2 then 3 else 4;
        match unzip(g.idat)
        case None => Failed(NotCompressed)
        case Some(raw) =>
          var stride := h.width * channels;
          match ReadRows(raw, Zeros(stride), stride, channels, h.height)
          case Some(rows) => Read(Image(h.width, h.height, channels, rows))
          case None => Failed(OutOfRange)
  }

  function ReadPng(data: Text, unzip: Text -> Option<Text>): Outcome
  {
    if Front(data, 8) != SIGNATURE then Failed(NotPng)
    else match Walk(Drop(data, 8), NOTHING)
      case Some(g) => Decoded(g, unzip)
      case None => Failed(CutShort)
  }

  method ReadPngFile(data: Text, unzip: Text -> Option<Text>) returns (r: Outcome)
    ensures r == ReadPng(data, unzip)
  {
    hide Walk, Front, Drop, Gather, ReadRows;
    if Front(data, 8) != SIGNATURE {
      return Failed(NotPng);
    }
    var pos: nat := 8;
    var g := NOTHING;
    while pos < |data|
      invariant Walk(Drop(data, pos), g) == Walk(Drop(data, 8), NOTHING)
    {
      WalkStep(data, pos, g);
      if |data| - pos < 4 {
        return Failed(CutShort);
      }
      var length := ReadBig32(data[pos..]);
      var chunk := Front(Drop(data, pos + 4), 4);
      var payload := Front(Drop(data, pos + 8), length);
      var next := Gather(g, chunk, payload);
      if next.None? {
        return Failed(CutShort);
      }
      g := next.value;
      pos := pos + 12 + length;
    }
    WalkEnds(data, pos, g);
    if g.header.None? {
      return Failed(Unsupported);
    }
    var h := g.header.value;
    if h.depth != 8 || (h.colorType != 2 && h.colorType != 6) {
      return Failed(Unsupported);
    }
    var channels := if h.colorType == 2 then 3 else 4;
    var raw := unzip(g.idat);
    if raw.None? {
      return Failed(NotCompressed);
    }
    var rows := ReadLines(raw.value, h.width as int * channels, channels, h.height);
    if rows.None? {
      return Failed(OutOfRange);
    }
    return Read(Image(h.width, h.height, channels, rows.value));
  }

  lemma WalkStep(data: Text, pos: nat, g: Gathered)
    requires pos < |data|
    ensures |data| - pos < 4 ==> Walk(Drop(data, pos), g) == None
    ensures |data| - pos >= 4 ==>
              var length := ReadBig32(data[pos..]);
              Walk(Drop(data, pos), g) ==
                match Gather(g, Front(Drop(data, pos + 4), 4), Front(Drop(data, pos + 8), length))
                case Some(next) => Walk(Drop(data, pos + 12 + length), next)
                case None => None
  {
    hide Gather, ReadBig32;
    assert Drop(data, pos) == data[pos..];
    if |data| - pos >= 4 {
      var length: nat := ReadBig32(data[pos..]);
      DropTwice(data, pos, 4);
      DropTwice(data, pos, 8);
      DropTwice(data, pos, 12 + length);
    }
  }

  lemma DropTwice(s: Text, a: nat, b: nat)
    ensures Drop(Drop(s, a), b) == Drop(s, a + b)
  {
  }

  lemma WalkEnds(data: Text, pos: nat, g: Gathered)
    requires pos >= |data|
    ensures Walk(Drop(data, pos), g) == Some(g)
  {
  }

  // ---------------------------------------------------------------------------------------------
  // Writing.

  datatype Chunk = Chunk(tag: Text, payload: Text) {
    predicate Fits() { |tag| == 4 && |payload| < TWO32 }

    function Bytes(crc: Text -> Word32): Text
      requires Fits()
    {
      Big32(|payload|) + tag + payload + Big32(crc(tag + payload))
    }
  }

  // Every line behind a filter type of 0.
  function PlainBody(rows: seq<Text>): Text
  {
    if rows == [] then [] else [0] + rows[0] + PlainBody(rows[1..])
  }

  function HeaderBytes(width: Word32, height: Word32): (s: Text)
    ensures |s| == 13
  {
    Big32(width) + Big32(height) + [8, 6, 0, 0, 0]
  }

  // None where a number does not fit its 32 bits.
  function WritePng(width: nat, height: nat, rows: seq<Text>, zip: Text -> Text, crc: Text -> Word32): Option<Text>
  {
    var packed := zip(PlainBody(rows));
    if width >= TWO32 || height >= TWO32 || |packed| >= TWO32 then None
    else
      Some(SIGNATURE + Chunk(IHDR, HeaderBytes(width, height)).Bytes(crc) + Chunk(IDAT, packed).Bytes(crc)
           + Chunk(IEND, []).Bytes(crc))
  }

  // ---------------------------------------------------------------------------------------------
  // The round trip.

  ghost predicate AllFit(chunks: seq<Chunk>)
  {
    forall i | 0 <= i < |chunks| :: chunks[i].Fits()
  }

  function Joined(chunks: seq<Chunk>, crc: Text -> Word32): Text
    requires forall i | 0 <= i < |chunks| :: chunks[i].Fits()
  {
    if chunks == [] then [] else chunks[0].Bytes(crc) + Joined(chunks[1..], crc)
  }

  function GatherAll(g: Gathered, chunks: seq<Chunk>): Option<Gathered>
    decreases |chunks|
  {
    if chunks == [] then Some(g)
    else match Gather(g, chunks[0].tag, chunks[0].payload)
      case Some(next) => GatherAll(next, chunks[1..])
      case None => None
  }

  lemma ChunkIsWalked(c: Chunk, rest: Text, g: Gathered, crc: Text -> Word32)
    requires c.Fits()
    ensures Walk(c.Bytes(crc) + rest, g) ==
              match Gather(g, c.tag, c.payload)
              case Some(next) => Walk(rest, next)
              case None => None
  {
    hide Gather, Big32, ReadBig32;
    var n, sum := |c.payload|, Big32(crc(c.tag + c.payload));
    var s := c.Bytes(crc) + rest;
    assert s == Big32(n) + (c.tag + (c.payload + (sum + rest)));
    NumbersAreRead(n, c.tag + (c.payload + (sum + rest)));
    assert Drop(s, 4) == c.tag + (c.payload + (sum + rest));
    assert Drop(s, 8) == c.payload + (sum + rest);
    assert Drop(s, 12 + n) == rest;
    assert Front(Drop(s, 4), 4) == c.tag && Front(Drop(s, 8), n) == c.payload;
  }

  lemma {:induction false} ChunksAreWalked(chunks: seq<Chunk>, g: Gathered, crc: Text -> Word32)
    requires AllFit(chunks)
    ensures Walk(Joined(chunks, crc), g) == GatherAll(g, chunks)
    decreases |chunks|
  {
    hide Gather;
    if chunks != [] {
      ChunkIsWalked(chunks[0], Joined(chunks[1..], crc), g, crc);
      match Gather(g, chunks[0].tag, chunks[0].payload)
      case Some(next) => ChunksAreWalked(chunks[1..], next, crc);
      case None =>
    }
  }

  // The file that is written, byte for byte: each chunk has its length in front and the checksum of its
  // name and payload behind.
  lemma WrittenFileIs(width: nat, height: nat, rows: seq<Text>, zip: Text -> Text, crc: Text -> Word32)
    requires width < TWO32 && height < TWO32 && |zip(PlainBody(rows))| < TWO32
    ensures var packed, ihdr := zip(PlainBody(rows)), Big32(width) + Big32(height) + [8, 6, 0, 0, 0];
            WritePng(width, height, rows, zip, crc) ==
              Some([0x89, 0x50, 0x4E, 0x47, 0x0D, 0x0A, 0x1A, 0x0A]
                   + ([0, 0, 0, 13] + [0x49, 0x48, 0x44, 0x52] + ihdr + Big32(crc([0x49, 0x48, 0x44, 0x52] + ihdr)))
                   + (Big32(|packed|) + [0x49, 0x44, 0x41, 0x54] + packed
                      + Big32(crc([0x49, 0x44, 0x41, 0x54] + packed)))
                   + ([0, 0, 0, 0] + [0x49, 0x45, 0x4E, 0x44] + [] + Big32(crc([0x49, 0x45, 0x4E, 0x44] + []))))
  {
    assert Big32(13) == [0, 0, 0, 13] && Big32(0) == [0, 0, 0, 0];
    hide Big32, PlainBody;
  }

  // The body that is packed: a 0 in front of each line.
  lemma PlainBodyOfOneMore(rows: seq<Text>)
    ensures PlainBody([]) == []
    ensures rows != [] ==> PlainBody(rows) == [0] + rows[0] + PlainBody(rows[1..])
  {
  }

  // How reading fails: on another signature, without a header of 8 bits and two or six for the colours, on
  // data that does not unpack, and on data that ends before the lines do.
  lemma FailuresAreTold(chunks: seq<Chunk>, unzip: Text -> Option<Text>, crc: Text -> Word32, data: Text)
    requires AllFit(chunks) && GatherAll(NOTHING, chunks).Some?
    ensures !([0x89, 0x50, 0x4E, 0x47, 0x0D, 0x0A, 0x1A, 0x0A] <= data) ==> ReadPng(data, unzip) == Failed(NotPng)
    ensures var g, r := GatherAll(NOTHING, chunks).value, ReadPng(SIGNATURE + Joined(chunks, crc), unzip);
            if g.header.None? || g.header.value.depth != 8 || g.header.value.colorType !in {2, 6}
            then r == Failed(Unsupported)
            else (unzip(g.idat) == None ==> r == Failed(NotCompressed))
                 && (unzip(g.idat) == Some([]) && g.header.value.height > 0 ==> r == Failed(OutOfRange))
  {
    hide Walk, GatherAll;
    var whole := SIGNATURE + Joined(chunks, crc);
    assert Front(whole, 8) == SIGNATURE && Drop(whole, 8) == Joined(chunks, crc);
    ChunksAreWalked(chunks, NOTHING, crc);
    assert Front(data, 8) == SIGNATURE ==> SIGNATURE <= data;
  }

  // A length cut short at the end of the file is the last way to fail.
  lemma ShortLengthFails(s: Text, unzip: Text -> Option<Text>)
    requires 0 < |s| < 4
    ensures ReadPng(SIGNATURE + s, unzip) == Failed(CutShort)
  {
    assert Front(SIGNATURE + s, 8) == SIGNATURE && Drop(SIGNATURE + s, 8) == s;
  }

  // The payloads of the data chunks, one behind the other, and the last header, if any.
  function DataOf(chunks: seq<Chunk>): Text
  {
    if chunks == [] then []
    else
      var last := chunks[|chunks| - 1];
      DataOf(chunks[..|chunks| - 1]) + if last.tag == [0x49, 0x44, 0x41, 0x54] then last.payload else []
  }

  function HeaderOf(chunks: seq<Chunk>): Option<Text>
  {
    if chunks == [] then None
    else
      var last := chunks[|chunks| - 1];
      if last.tag == [0x49, 0x48, 0x44, 0x52] then Some(last.payload) else HeaderOf(chunks[..|chunks| - 1])
  }

  lemma {:induction false} GatherOneMore(g: Gathered, chunks: seq<Chunk>, c: Chunk)
    ensures GatherAll(g, chunks + [c]) ==
              match GatherAll(g, chunks)
              case Some(next) => Gather(next, c.tag, c.payload)
              case None => None
    decreases |chunks|
  {
    hide Gather;
    var all := chunks + [c];
    if chunks == [] {
      assert all[1..] == [];
    } else {
      assert all[0] == chunks[0] && all[1..] == chunks[1..] + [c];
      if Gather(g, chunks[0].tag, chunks[0].payload).Some? {
        GatherOneMore(Gather(g, chunks[0].tag, chunks[0].payload).value, chunks[1..], c);
      }
    }
  }

  // What is gathered from any chunks: all their data in its order, and the size, depth and colour type of the
  // last header. A header shorter than ten bytes is the one thing that cannot be gathered.
  lemma {:induction false} GatheredIs(chunks: seq<Chunk>)
    ensures GatherAll(NOTHING, chunks).None? <==>
              exists i :: 0 <= i < |chunks| && chunks[i].tag == [0x49, 0x48, 0x44, 0x52] && |chunks[i].payload| < 10
    ensures GatherAll(NOTHING, chunks).Some? ==>
              var g := GatherAll(NOTHING, chunks).value;
              && g.idat == DataOf(chunks)
              && (g.header.Some? <==> HeaderOf(chunks).Some?)
              && (g.header.Some? ==>
                  var p := HeaderOf(chunks).value;
                  |p| >= 10 && g.header == Some(Header(ReadBig32(p[..4]), ReadBig32(p[4..8]), p[8], p[9])))
  {
    hide ReadBig32;
    if chunks != [] {
      var front, c := chunks[..|chunks| - 1], chunks[|chunks| - 1];
      assert chunks == front + [c];
      GatheredIs(front);
      GatherOneMore(NOTHING, front, c);
      assert forall i | 0 <= i < |front| :: chunks[i] == front[i];
      if |c.payload| >= 10 { HeaderFields(c.payload); }
      if !(GatherAll(NOTHING, front).None?) && c.tag == [0x49, 0x48, 0x44, 0x52] && |c.payload| < 10 {
        assert chunks[|front|] == c;
      }
    }
  }

  lemma HeaderFields(payload: Text)
    requires |payload| >= 10
    ensures ReadBig32(payload) == ReadBig32(payload[..4]) && ReadBig32(payload[4..]) == ReadBig32(payload[4..8])
  {
  }

  // Any file of fitting chunks, in any number and order and with any others among them, is read as
  // the image whose filtered lines its data chunks hold together, each line under any filter.
  lemma ImageIsRead(chunks: seq<Chunk>, h: Header, rows: seq<Text>, filters: seq<Byte>,
                                       unzip: Text -> Option<Text>, crc: Text -> Word32)
    requires AllFit(chunks)
    requires GatherAll(NOTHING, chunks).Some? && GatherAll(NOTHING, chunks).value.header == Some(h)
    requires h.depth == 8 && (h.colorType == 2 || h.colorType == 6)
    requires |rows| == |filters| == h.height
    requires forall i | 0 <= i < |rows| :: |rows[i]| == h.width * Channels(h)
    requires unzip(GatherAll(NOTHING, chunks).value.idat)
             == Some(Body(rows, filters, Zeros(h.width * Channels(h)), Channels(h)))
    ensures var channels := if h.colorType == 2 then 3 else 4;
            ReadPng(SIGNATURE + Joined(chunks, crc), unzip) == Read(Image(h.width, h.height, channels, rows))
  {
    hide Walk, GatherAll, Body, ReadRows;
    var data := SIGNATURE + Joined(chunks, crc);
    assert Front(data, 8) == SIGNATURE && Drop(data, 8) == Joined(chunks, crc);
    ChunksAreWalked(chunks, NOTHING, crc);
    var above := Zeros(h.width * Channels(h));
    RowsAreRead(rows, filters, above, Channels(h), []);
    var body := Body(rows, filters, above, Channels(h));
    assert body + [] == body;
  }

  function Channels(h: Header): Positive
  {
    if h.colorType == 2 then 3 else 4
  }

  lemma {:induction false} PlainIsUnfiltered(row: Text, above: Text, channels: Positive, n: nat)
    requires n <= |row| && n <= |above|
    ensures Filtered(0, row, above, channels, n) == row[..n]
  {
    if n > 0 {
      PlainIsUnfiltered(row, above, channels, n - 1);
      assert row[..n] == row[..n - 1] + [row[n - 1]];
    }
  }

  lemma {:induction false} PlainBodyIsABody(rows: seq<Text>, above: Text, channels: Positive)
    requires forall i | 0 <= i < |rows| :: |rows[i]| == |above|
    ensures PlainBody(rows) == Body(rows, seq(|rows|, _ => 0), above, channels)
    decreases |rows|
  {
    if rows != [] {
      var filters: seq<Byte> := seq(|rows|, _ => 0);
      PlainIsUnfiltered(rows[0], above, channels, |above|);
      assert rows[0][..|above|] == rows[0];
      assert filters[1..] == seq(|rows| - 1, _ => 0);
      PlainBodyIsABody(rows[1..], rows[0], channels);
    }
  }

  // What write_png writes, read_png reads back.
  lemma WrittenImageIsRead(width: nat, height: nat, rows: seq<Text>,
                                              zip: Text -> Text, unzip: Text -> Option<Text>, crc: Text -> Word32)
    requires WritePng(width, height, rows, zip, crc).Some?
    requires |rows| == height && forall i | 0 <= i < |rows| :: |rows[i]| == width * 4
    requires unzip(zip(PlainBody(rows))) == Some(PlainBody(rows))
    ensures ReadPng(WritePng(width, height, rows, zip, crc).value, unzip) == Read(Image(width, height, 4, rows))
  {
    hide PlainBody, ReadPng, Body;
    var packed := zip(PlainBody(rows));
    var chunks := [Chunk(IHDR, HeaderBytes(width, height)), Chunk(IDAT, packed), Chunk(IEND, [])];
    WrittenChunks(width, height, packed, crc);
    PlainBodyIsABody(rows, Zeros(width * 4), 4);
    ImageIsRead(chunks, Header(width, height, 8, 6), rows, seq(height, _ => 0), unzip, crc);
  }

  lemma WrittenChunks(width: Word32, height: Word32, packed: Text, crc: Text -> Word32)
    requires |packed| < TWO32
    ensures var chunks := [Chunk(IHDR, HeaderBytes(width, height)), Chunk(IDAT, packed), Chunk(IEND, [])];
            && AllFit(chunks)
            && GatherAll(NOTHING, chunks) == Some(Gathered(Some(Header(width, height, 8, 6)), packed))
            && SIGNATURE + Joined(chunks, crc)
               == SIGNATURE + chunks[0].Bytes(crc) + chunks[1].Bytes(crc) + chunks[2].Bytes(crc)
  {
    hide Chunk.Bytes, HeaderBytes, GatherAll, Joined;
    var a, b, c := Chunk(IHDR, HeaderBytes(width, height)), Chunk(IDAT, packed), Chunk(IEND, []);
    ThreeJoined(a, b, c, crc);
    HeaderIsRead(width, height);
    assert [] + packed == packed;
    var g := Gathered(Some(Header(width, height, 8, 6)), []);
    ThreeGathered(NOTHING, g, g.(idat := packed), a, b, c);
  }

  lemma ThreeJoined(a: Chunk, b: Chunk, c: Chunk, crc: Text -> Word32)
    requires a.Fits() && b.Fits() && c.Fits()
    ensures Joined([a, b, c], crc) == a.Bytes(crc) + b.Bytes(crc) + c.Bytes(crc)
  {
    hide Chunk.Bytes;
    assert [a, b, c][1..] == [b, c] && [b, c][1..] == [c] && [c][1..] == [];
    assert Joined([c], crc) == c.Bytes(crc);
    assert Joined([b, c], crc) == b.Bytes(crc) + c.Bytes(crc);
  }

  lemma ThreeGathered(g: Gathered, h: Gathered, i: Gathered, a: Chunk, b: Chunk, c: Chunk)
    requires Gather(g, a.tag, a.payload) == Some(h) && Gather(h, b.tag, b.payload) == Some(i)
    requires Gather(i, c.tag, c.payload) == Some(i)
    ensures GatherAll(g, [a, b, c]) == Some(i)
  {
    hide Gather;
    assert [a, b, c][1..] == [b, c] && [b, c][1..] == [c] && [c][1..] == [];
    assert GatherAll(i, [c]) == Some(i);
    assert GatherAll(h, [b, c]) == Some(i);
  }

  lemma HeaderIsRead(width: Word32, height: Word32)
    ensures ReadHeader(HeaderBytes(width, height)) == Header(width, height, 8, 6)
  {
    hide Big32, ReadBig32;
    var s := HeaderBytes(width, height);
    assert s == Big32(width) + (Big32(height) + [8, 6, 0, 0, 0]);
    NumbersAreRead(width, Big32(height) + [8, 6, 0, 0, 0]);
    assert s[4..] == Big32(height) + [8, 6, 0, 0, 0];
    NumbersAreRead(height, [8, 6, 0, 0, 0]);
  }
}
