/**
 * The PNG writer of scripts/media-fixtures.ts and a reader that follows the W3C PNG specification:
 * signature, chunks with their CRCs (section 5.3), image header (11.2.2) and scanlines (7.2, 9.2).
 * Compression is not modelled: `deflate` and `inflate` are any two functions that undo each other.
 */
module SolidPng {
  import opened Prelude
  import opened Pieces
  import opened ByteCodec
  import opened Crc32

  datatype Colour = Colour(red: Byte, green: Byte, blue: Byte)
  {
    function Triple(): (t: Bytes)
      ensures |t| == 3
    {
      [red, green, blue]
    }
  }

  datatype WriteError = RangeError

  const SIGNATURE: Bytes := [0x89, 0x50, 0x4e, 0x47, 0x0d, 0x0a, 0x1a, 0x0a]
  const IHDR: Bytes := [73, 72, 68, 82]
  const IDAT: Bytes := [73, 68, 65, 84]
  const IEND: Bytes := [73, 69, 78, 68]

  // ---------------------------------------------------------------- scanlines

  function Pixels(width: nat, c: Colour): (r: Bytes)
    ensures |r| == 3 * width
  {
    if width == 0 then [] else Pixels(width - 1, c) + c.Triple()
  }

  /** A filter byte and the pixels of one line. */
  function Line(width: nat, c: Colour): (r: Bytes)
    ensures |r| == 3 * width + 1
  {
    [0] + Pixels(width, c)
  }

  function Lines(width: nat, height: nat, c: Colour): Bytes {
    if height == 0 then [] else Lines(width, height - 1, c) + Line(width, c)
  }

  lemma {:induction false} LinesLength(width: nat, height: nat, c: Colour)
    ensures |Lines(width, height, c)| == (width * 3 + 1) * height
  {
    if height > 0 { LinesLength(width, height - 1, c); }
  }

  /** One pixel, written in place behind what is there already. */
  method WritePixel(raw: array<Byte>, px: nat, c: Colour)
    requires px + 3 <= raw.Length
    modifies raw
    ensures raw[..px] == old(raw[..px]) && raw[px..px + 3] == c.Triple()
  {
    raw[px] := c.red;
    raw[px + 1] := c.green;
    raw[px + 2] := c.blue;
  }

  lemma OneMorePixel(s: Bytes, before: Bytes, row: nat, x: nat, c: Colour)
    requires row + 1 + 3 * x <= |before| && row + 1 + 3 * (x + 1) <= |s|
    requires before[row..row + 1 + 3 * x] == [0] + Pixels(x, c)
    requires s[..row + 1 + 3 * x] == before[..row + 1 + 3 * x]
    requires s[row + 1 + 3 * x..row + 1 + 3 * (x + 1)] == c.Triple()
    ensures s[..row] == before[..row] && s[row..row + 1 + 3 * (x + 1)] == [0] + Pixels(x + 1, c)
  {
    var px := row + 1 + 3 * x;
    assert s[..row] == s[..px][..row] && before[..row] == before[..px][..row];
    assert s[row..px] == s[..px][row..] && before[row..px] == before[..px][row..];
    assert s[row..px + 3] == s[row..px] + s[px..px + 3];
    assert [0] + Pixels(x, c) + c.Triple() == [0] + (Pixels(x, c) + c.Triple());
  }

  /** One line, written in place behind what is there already. */
  method FillLine(raw: array<Byte>, row: nat, width: nat, c: Colour)
    requires row + 3 * width + 1 <= raw.Length
    modifies raw
    ensures raw[..row] == old(raw[..row]) && raw[row..row + 3 * width + 1] == Line(width, c)
  {
    raw[row] := 0;
    for x := 0 to width
      invariant raw[..row] == old(raw[..row])
      invariant raw[row..row + 1 + 3 * x] == [0] + Pixels(x, c)
    {
      ghost var before := raw[..];
      WritePixel(raw, row + 1 + x * 3, c);
      OneMorePixel(raw[..], before, row, x, c);
    }
  }

  /** The nested loops of `solidPng`: every byte of the buffer is written, line by line. */
  method Scanlines(width: nat, height: nat, c: Colour) returns (raw: Bytes)
    ensures raw == Lines(width, height, c)
  {
    var stride := width * 3 + 1;
    LinesLength(width, height, c);
    var buf := new Byte[stride * height](_ => 0);
    for y := 0 to height
      invariant stride * y <= buf.Length
      invariant buf[..stride * y] == Lines(width, y, c)
    {
      var row := stride * y;
      assert stride * (y + 1) == row + stride <= buf.Length by { Monotone(stride, y + 1, height); }
      FillLine(buf, row, width, c);
      assert buf[..row + stride] == buf[..row] + buf[row..row + stride];
    }
    raw := buf[..];
  }

  lemma Monotone(a: nat, b: nat, c: nat)
    requires b <= c
    ensures a * b <= a * c
  {
  }

  // ---------------------------------------------------------------- the file

  function Chunk(check: Bytes -> int, kind: Bytes, data: Bytes): Bytes
    requires |data| < U32_LIMIT && 0 <= check(kind + data) < U32_LIMIT
  {
    U32BE(|data|) + (kind + data) + U32BE(check(kind + data))
  }

  function Header(width: nat, height: nat): (r: Bytes)
    requires width < U32_LIMIT && height < U32_LIMIT
    ensures |r| == 13
  {
    U32BE(width) + U32BE(height) + [8, 2, 0, 0, 0]
  }

  /** Every checksum a 32-bit field can hold. */
  ghost predicate Fits32(check: Bytes -> int) {
    forall b :: 0 <= check(b) < U32_LIMIT
  }

  function Png(check: Bytes -> int, width: nat, height: nat, idat: Bytes): Bytes
    requires Fits32(check) && width < U32_LIMIT && height < U32_LIMIT && |idat| < U32_LIMIT
  {
    Flatten([SIGNATURE, Chunk(check, IHDR, Header(width, height)), Chunk(check, IDAT, idat), Chunk(check, IEND, [])])
  }

  /** `buf.writeUInt32BE(n, at)`, in place. */
  method WriteU32BE(buf: array<Byte>, n: int, at: nat)
    requires 0 <= n < U32_LIMIT && at + 4 <= buf.Length
    modifies buf
    ensures buf[..] == Put(old(buf[..]), U32BE(n), at)
  {
    var high, low := n / U16_LIMIT, n % U16_LIMIT;
    buf[at], buf[at + 1], buf[at + 2], buf[at + 3] := high / 256, high % 256, low / 256, low % 256;
  }

  method BuildChunk(kind: Bytes, data: Bytes, table: array<bv32>) returns (chunk: Bytes)
    requires IsCrcTable(table[..]) && |data| < U32_LIMIT
    ensures chunk == Chunk(CrcOf, kind, data)
  {
    var length := new Byte[4](_ => 0);
    WriteU32BE(length, |data|, 0);
    var typed := kind + data;
    var crc := new Byte[4](_ => 0);
    var value := Crc32.Crc32(table, BitsOf(typed));
    WriteU32BE(crc, value as int, 0);
    assert length[..] == U32BE(|data|) && crc[..] == U32BE(CrcOf(typed));
    chunk := length[..] + typed + crc[..];
  }

  method BuildHeader(width: nat, height: nat) returns (ihdr: Bytes)
    requires width < U32_LIMIT && height < U32_LIMIT
    ensures ihdr == Header(width, height)
  {
    var buf := new Byte[13](_ => 0);
    WriteU32BE(buf, width, 0);
    WriteU32BE(buf, height, 4);
    ghost var sizes := buf[..8];
    assert sizes == U32BE(width) + U32BE(height);
    buf[8], buf[9], buf[10], buf[11], buf[12] := 8, 2, 0, 0, 0;
    assert buf[..8] == sizes && buf[8..] == [8, 2, 0, 0, 0];
    ihdr := buf[..];
    assert ihdr == ihdr[..8] + ihdr[8..];
  }

  /** `solidPng`. */
  method BuildSolidPng(width: nat, height: nat, c: Colour, deflate: Bytes -> Bytes, table: array<bv32>)
    returns (r: Result<Bytes, WriteError>)
    requires IsCrcTable(table[..])
    ensures r.Ok? <==> width < U32_LIMIT && height < U32_LIMIT && |deflate(Lines(width, height, c))| < U32_LIMIT
    ensures r.Ok? ==> r.value == Png(CrcOf, width, height, deflate(Lines(width, height, c)))
  {
    var raw := Scanlines(width, height, c);
    if width >= U32_LIMIT || height >= U32_LIMIT { return Err(RangeError); }
    var header := BuildHeader(width, height);
    var ihdr := BuildChunk(IHDR, header, table);
    if |deflate(raw)| >= U32_LIMIT { return Err(RangeError); }
    var idat := BuildChunk(IDAT, deflate(raw), table);
    var iend := BuildChunk(IEND, [], table);
    r := Ok(Flatten([SIGNATURE, ihdr, idat, iend]));
  }

  // ---------------------------------------------------------------- the reader

  datatype ChunkRead = ChunkRead(kind: Bytes, data: Bytes, next: nat)

  /** Section 5.3: length, type, data, and a CRC over type and data. */
  function ReadChunk(check: Bytes -> int, s: Bytes, at: nat): Option<ChunkRead> {
    if at + 12 > |s| then None
    else
      var n := ReadU32BE(s, at);
      if at + 12 + n > |s| || ReadU32BE(s, at + 8 + n) != check(s[at + 4..at + 8 + n]) then None
      else Some(ChunkRead(s[at + 4..at + 8], s[at + 8..at + 8 + n], at + 12 + n))
  }

  function ChunkAt(check: Bytes -> int, s: Bytes): nat -> Option<ChunkRead> {
    (at: nat) => ReadChunk(check, s, at)
  }

  /** The chunks up to and with `IEND`, which must end the file. */
  function ReadChunks(chunkAt: nat -> Option<ChunkRead>, at: nat, size: nat): Option<seq<(Bytes, Bytes)>>
    decreases size - at
  {
    match chunkAt(at)
    case None => None
    case Some(c) =>
      if !(at < c.next <= size) then None
      else if c.kind == IEND then (if c.next == size then Some([(c.kind, c.data)]) else None)
      else match ReadChunks(chunkAt, c.next, size)
        case None => None
        case Some(rest) => Some([(c.kind, c.data)] + rest)
  }

  /** The data of all `IDAT` chunks, in order, is one compressed stream. */
  function ImageData(chunks: seq<(Bytes, Bytes)>): Bytes {
    if chunks == [] then []
    else (if chunks[0].0 == IDAT then chunks[0].1 else []) + ImageData(chunks[1..])
  }

  datatype Image = Image(width: nat, height: nat, lines: seq<Bytes>)

  /** Lines of `width` 8-bit RGB pixels without a filter; nothing may follow them. */
  function ReadLines(raw: Bytes, width: nat, height: nat): Option<seq<Bytes>>
    decreases height
  {
    if height == 0 then (if raw == [] then Some([]) else None)
    else
      var rest := |raw| - (3 * width + 1);
      if rest < 0 || raw[rest] != 0 then None
      else match ReadLines(raw[..rest], width, height - 1)
        case None => None
        case Some(lines) => Some(lines + [raw[rest + 1..]])
  }

  function ReadPng(check: Bytes -> int, inflate: Bytes -> Option<Bytes>, s: Bytes): Option<Image> {
    if !(SIGNATURE <= s) then None
    else match ReadChunks(ChunkAt(check, s), 8, |s|)
      case None => None
      case Some(chunks) =>
        if chunks == [] || chunks[0].0 != IHDR || |chunks[0].1| != 13 || chunks[0].1[8..] != [8, 2, 0, 0, 0] then None
        else match inflate(ImageData(chunks))
          case None => None
          case Some(raw) =>
            var width, height := ReadU32BE(chunks[0].1, 0), ReadU32BE(chunks[0].1, 4);
            match ReadLines(raw, width, height)
            case None => None
            case Some(lines) => Some(Image(width, height, lines))
  }

  // ---------------------------------------------------------------- the round trip

  function Repeat<T>(x: T, n: nat): (r: seq<T>)
    ensures |r| == n
  {
    seq(n, _ => x)
  }

  /** One more line behind lines that read. */
  lemma OneMoreLineReads(before: Bytes, pixels: Bytes, width: nat, height: nat, lines: seq<Bytes>)
    requires height > 0 && |pixels| == 3 * width && ReadLines(before, width, height - 1) == Some(lines)
    ensures ReadLines(before + ([0] + pixels), width, height) == Some(lines + [pixels])
  {
    var raw := before + ([0] + pixels);
    assert |raw| - (3 * width + 1) == |before| && raw[|before|] == 0;
    assert raw[..|before|] == before && raw[|before| + 1..] == pixels;
  }

  lemma RepeatGrows<T>(x: T, n: nat)
    ensures Repeat(x, n + 1) == Repeat(x, n) + [x]
  {
  }

  lemma {:induction false} LinesRead(width: nat, height: nat, c: Colour)
    ensures ReadLines(Lines(width, height, c), width, height) == Some(Repeat(Pixels(width, c), height))
  {
    if height > 0 {
      var pixels := Pixels(width, c);
      LinesRead(width, height - 1, c);
      OneMoreLineReads(Lines(width, height - 1, c), pixels, width, height, Repeat(pixels, height - 1));
      RepeatGrows(pixels, height - 1);
    } else {
      assert Repeat(Pixels(width, c), 0) == [];
    }
  }

  lemma ChunkReads(check: Bytes -> int, s: Bytes, at: nat, kind: Bytes, data: Bytes, next: nat)
    requires Fits32(check) && |kind| == 4 && |data| < U32_LIMIT && next == at + 12 + |data|
    requires HasAt(s, Chunk(check, kind, data), at)
    ensures ReadChunk(check, s, at) == Some(ChunkRead(kind, data, next))
  {
    var n := |data|;
    ChunkParts(s, at, U32BE(n), kind, data, U32BE(check(kind + data)));
    U32BEReads(s, at, n);
    U32BEReads(s, at + 8 + n, check(kind + data));
  }

  lemma ChunkParts(s: Bytes, at: nat, length: Bytes, kind: Bytes, data: Bytes, crc: Bytes)
    requires HasAt(s, length + (kind + data) + crc, at) && |length| == 4 && |kind| == 4 && |crc| == 4
    ensures HasAt(s, length, at) && at + 12 + |data| <= |s|
    ensures s[at + 4..at + 8 + |data|] == kind + data
    ensures s[at + 4..at + 8] == kind && s[at + 8..at + 8 + |data|] == data
    ensures HasAt(s, crc, at + 8 + |data|)
  {
    HasBoth(s, length + (kind + data), crc, at);
    HasBoth(s, length, kind + data, at);
    HasBoth(s, kind, data, at + 4);
  }

  lemma FourPieces(a: Bytes, b: Bytes, c: Bytes, d: Bytes)
    ensures Flatten([a, b, c, d]) == a + b + c + d
  {
    FlattenAppend([a, b, c], d);
    FlattenAppend([a, b], c);
    FlattenAppend([a], b);
    FlattenAppend([], a);
    assert [a, b, c] + [d] == [a, b, c, d] && [a, b] + [c] == [a, b, c] && [a] + [b] == [a, b] && [] + [a] == [a];
  }

  lemma Places(a: Bytes, b: Bytes, c: Bytes, d: Bytes)
    ensures a <= a + b + c + d
    ensures HasAt(a + b + c + d, b, |a|) && HasAt(a + b + c + d, c, |a + b|) && HasAt(a + b + c + d, d, |a + b + c|)
  {
    HasMiddle(a, b, c + d);
    HasMiddle(a + b, c, d);
    HasMiddle(a + b + c, d, []);
    assert a + b + (c + d) == a + b + c + d && a + b + c + d + [] == a + b + c + d;
  }

  lemma ThreeChunks(chunkAt: nat -> Option<ChunkRead>, at: nat, one: ChunkRead, two: ChunkRead, three: ChunkRead)
    requires chunkAt(at) == Some(one) && chunkAt(one.next) == Some(two) && chunkAt(two.next) == Some(three)
    requires at < one.next < two.next < three.next
    requires one.kind != IEND && two.kind != IEND && three.kind == IEND
    ensures ReadChunks(chunkAt, at, three.next)
            == Some([(one.kind, one.data)] + ([(two.kind, two.data)] + [(three.kind, three.data)]))
  {
    assert ReadChunks(chunkAt, two.next, three.next) == Some([(three.kind, three.data)]);
    assert ReadChunks(chunkAt, one.next, three.next) == Some([(two.kind, two.data)] + [(three.kind, three.data)]);
  }

  lemma ChunksRead(check: Bytes -> int, s: Bytes, header: Bytes, idat: Bytes, second: nat, third: nat)
    requires Fits32(check) && |header| == 13 && |idat| < U32_LIMIT && |s| == third + 12
    requires second == 8 + 12 + 13 && third == second + 12 + |idat|
    requires ReadChunk(check, s, 8) == Some(ChunkRead(IHDR, header, second))
    requires ReadChunk(check, s, second) == Some(ChunkRead(IDAT, idat, third))
    requires ReadChunk(check, s, third) == Some(ChunkRead(IEND, [], |s|))
    ensures ReadChunks(ChunkAt(check, s), 8, |s|) == Some([(IHDR, header)] + ([(IDAT, idat)] + [(IEND, [])]))
  {
    ThreeChunks(ChunkAt(check, s), 8, ChunkRead(IHDR, header, second), ChunkRead(IDAT, idat, third),
                ChunkRead(IEND, [], |s|));
  }

  lemma HeaderReads(width: nat, height: nat)
    requires width < U32_LIMIT && height < U32_LIMIT
    ensures ReadU32BE(Header(width, height), 0) == width && ReadU32BE(Header(width, height), 4) == height
    ensures Header(width, height)[8..] == [8, 2, 0, 0, 0]
  {
    var s := Header(width, height);
    assert s[0..4] == U32BE(width) && s[4..8] == U32BE(height);
    U32BEReads(s, 0, width);
    U32BEReads(s, 4, height);
  }

  lemma PngReads(check: Bytes -> int, inflate: Bytes -> Option<Bytes>, width: nat, height: nat, idat: Bytes, c: Colour)
    requires Fits32(check) && width < U32_LIMIT && height < U32_LIMIT && |idat| < U32_LIMIT
    requires inflate(idat) == Some(Lines(width, height, c))
    ensures ReadPng(check, inflate, Png(check, width, height, idat))
            == Some(Image(width, height, Repeat(Pixels(width, c), height)))
  {
    var header := Header(width, height);
    var s := Png(check, width, height, idat);
    var one, two, three := Chunk(check, IHDR, header), Chunk(check, IDAT, idat), Chunk(check, IEND, []);
    FourPieces(SIGNATURE, one, two, three);
    Places(SIGNATURE, one, two, three);
    var third := 45 + |idat|;
    ChunkReads(check, s, 8, IHDR, header, 33);
    ChunkReads(check, s, 33, IDAT, idat, third);
    ChunkReads(check, s, third, IEND, [], |s|);
    ChunksRead(check, s, header, idat, 33, third);
    HeaderReads(width, height);
    LinesRead(width, height, c);
    ImageDataOf(header, idat);
  }

  lemma ImageDataOf(header: Bytes, idat: Bytes)
    ensures ImageData([(IHDR, header)] + ([(IDAT, idat)] + [(IEND, [])])) == idat
  {
    var rest: seq<(Bytes, Bytes)> := [(IDAT, idat)] + [(IEND, [])];
    assert ImageData([(IEND, [])]) == [];
    assert rest[1..] == [(IEND, [])] && ImageData(rest) == idat + [];
    assert ([(IHDR, header)] + rest)[1..] == rest;
  }

  lemma CrcFits()
    ensures Fits32(CrcOf)
  {
  }

  /** The signature of section 5.2 and the three chunk types, as the specification spells them. */
  lemma FixedBytes()
    ensures SIGNATURE == [137, 80, 78, 71, 13, 10, 26, 10]
    ensures forall i | 0 <= i < 4 ::
              IHDR[i] == "IHDR"[i] as int && IDAT[i] == "IDAT"[i] as int && IEND[i] == "IEND"[i] as int
  {
  }

  /** Three bytes a pixel, in the order red, green, blue. */
  lemma {:induction false} PixelAt(width: nat, c: Colour, x: nat)
    requires x < width
    ensures Pixels(width, c)[3 * x] == c.red && Pixels(width, c)[3 * x + 1] == c.green
    ensures Pixels(width, c)[3 * x + 2] == c.blue
  {
    if x < width - 1 { PixelAt(width - 1, c, x); }
  }

  /** Every pixel of a line of so many has this colour, byte by byte. */
  ghost predicate LineOf(line: Bytes, width: nat, c: Colour) {
    |line| == 3 * width
    && forall x | 0 <= x < width :: line[3 * x] == c.red && line[3 * x + 1] == c.green && line[3 * x + 2] == c.blue
  }

  ghost predicate AllOf(image: Image, c: Colour) {
    |image.lines| == image.height && forall line <- image.lines :: LineOf(line, image.width, c)
  }

  lemma EveryPixel(width: nat, height: nat, c: Colour)
    ensures AllOf(Image(width, height, Repeat(Pixels(width, c), height)), c)
  {
    forall x | 0 <= x < width
      ensures Pixels(width, c)[3 * x] == c.red && Pixels(width, c)[3 * x + 1] == c.green
      ensures Pixels(width, c)[3 * x + 2] == c.blue
    {
      PixelAt(width, c, x);
    }
  }

  /** What `solidPng` writes is an image of exactly that size in which every pixel has that colour. */
  lemma SolidPngRoundTrip(width: nat, height: nat, c: Colour, deflate: Bytes -> Bytes, inflate: Bytes -> Option<Bytes>)
    requires width < U32_LIMIT && height < U32_LIMIT && |deflate(Lines(width, height, c))| < U32_LIMIT
    requires forall raw :: inflate(deflate(raw)) == Some(raw)
    ensures Fits32(CrcOf)
    ensures var read := ReadPng(CrcOf, inflate, Png(CrcOf, width, height, deflate(Lines(width, height, c))));
            read.Some? && read.value.width == width && read.value.height == height && AllOf(read.value, c)
  {
    EveryPixel(width, height, c);
    CrcFits();
    PngReads(CrcOf, inflate, width, height, deflate(Lines(width, height, c)), c);
  }
}
