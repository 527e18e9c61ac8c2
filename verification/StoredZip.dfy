/**
 * The stored (uncompressed) ZIP writer of scripts/attachment-fixtures.ts, and a reader that follows
 * the format of APPNOTE.TXT: from the end record (section 4.3.16) through the central directory
 * (section 4.3.12) to every local header (section 4.3.7).
 */
module StoredZip {
  import opened Prelude
  import opened Pieces
  import opened ByteCodec
  import opened Crc32

  datatype ZipEntry = ZipEntry(name: seq<CodeUnit>, data: Bytes)

  /** The exception Node's `writeUInt*` throws for a value its field cannot hold. */
  datatype WriteError = RangeError

  const LOCAL_SIGNATURE: int := 0x04034b50
  const CENTRAL_SIGNATURE: int := 0x02014b50
  const END_SIGNATURE: int := 0x06054b50

  /** `Buffer.from(name, "latin1")`: the low byte of every code unit. */
  function Latin1(name: seq<CodeUnit>): (r: Bytes)
    ensures |r| == |name|
  {
    seq(|name|, i requires 0 <= i < |name| => name[i] % 256)
  }

  /** `buf.toString("latin1")`. */
  function FromLatin1(bytes: Bytes): (r: seq<CodeUnit>)
    ensures |r| == |bytes|
  {
    seq(|bytes|, i requires 0 <= i < |bytes| => bytes[i] as int)
  }

  // ---------------------------------------------------------------- the bytes the writer produces

  predicate EntryFits(e: ZipEntry) {
    |e.data| < U32_LIMIT && |e.name| < U16_LIMIT
  }

  function LocalFields(crc: int, size: int, nameLength: int): (fields: seq<Field>) {
    [Field32(0, LOCAL_SIGNATURE), Field16(4, 20), Field32(14, crc),
     Field32(18, size), Field32(22, size), Field16(26, nameLength)]
  }

  function CentralFields(crc: int, size: int, nameLength: int, offset: int): (fields: seq<Field>) {
    [Field32(0, CENTRAL_SIGNATURE), Field16(4, 20), Field16(6, 20), Field32(16, crc),
     Field32(20, size), Field32(24, size), Field16(28, nameLength), Field32(42, offset)]
  }

  function EndFields(count: int, centralSize: int, offset: int): (fields: seq<Field>) {
    [Field32(0, END_SIGNATURE), Field16(8, count), Field16(10, count), Field32(12, centralSize), Field32(16, offset)]
  }

  /** How the three kinds of record are encoded. */
  datatype Headers = Headers(local: ZipEntry -> Bytes, central: (ZipEntry, nat) -> Bytes, end: (nat, nat, nat) -> Bytes)

  function LocalHeader(e: ZipEntry): Bytes {
    Layout(30, LocalFields(CrcOf(e.data), |e.data|, |e.name|))
  }

  function CentralHeader(e: ZipEntry, offset: nat): Bytes {
    Layout(46, CentralFields(CrcOf(e.data), |e.data|, |e.name|, offset))
  }

  function EndRecord(count: nat, centralSize: nat, offset: nat): Bytes {
    Layout(22, EndFields(count, centralSize, offset))
  }

  const ZIP: Headers := Headers(LocalHeader, CentralHeader, EndRecord)

  ghost predicate WellSized(h: Headers) {
    && (forall e :: |h.local(e)| == 30)
    && (forall e, offset :: |h.central(e, offset)| == 46)
    && (forall count, size, offset :: |h.end(count, size, offset)| == 22)
  }

  function Local(h: Headers, e: ZipEntry): Bytes {
    h.local(e) + Latin1(e.name) + e.data
  }

  function Central(h: Headers, e: ZipEntry, offset: nat): Bytes {
    h.central(e, offset) + Latin1(e.name)
  }

  /** Where the local header after these entries begins. */
  function OffsetAfter(es: seq<ZipEntry>): nat {
    if es == [] then 0
    else OffsetAfter(es[..|es| - 1]) + 30 + |es[|es| - 1].name| + |es[|es| - 1].data|
  }

  function DirectorySize(es: seq<ZipEntry>): nat {
    if es == [] then 0 else DirectorySize(es[..|es| - 1]) + 46 + |es[|es| - 1].name|
  }

  /** Every field the loop writes can hold its value. */
  predicate EntriesFit(es: seq<ZipEntry>) {
    es == [] || (EntriesFit(es[..|es| - 1]) && EntryFits(es[|es| - 1]) && OffsetAfter(es[..|es| - 1]) < U32_LIMIT)
  }

  predicate Fits(es: seq<ZipEntry>) {
    EntriesFit(es) && |es| < U16_LIMIT && DirectorySize(es) < U32_LIMIT && OffsetAfter(es) < U32_LIMIT
  }

  function LocalPieces(h: Headers, es: seq<ZipEntry>): (r: seq<Bytes>)
    ensures |r| == |es|
  {
    seq(|es|, i requires 0 <= i < |es| => Local(h, es[i]))
  }

  function DirectoryPieces(h: Headers, es: seq<ZipEntry>): (r: seq<Bytes>)
    ensures |r| == |es|
  {
    seq(|es|, i requires 0 <= i < |es| => Central(h, es[i], OffsetAfter(es[..i])))
  }

  function Locals(h: Headers, es: seq<ZipEntry>): Bytes { Flatten(LocalPieces(h, es)) }

  function Directory(h: Headers, es: seq<ZipEntry>): Bytes { Flatten(DirectoryPieces(h, es)) }

  lemma LocalPiecesGrow(h: Headers, es: seq<ZipEntry>, k: nat)
    requires k < |es|
    ensures LocalPieces(h, es[..k + 1]) == LocalPieces(h, es[..k]) + [Local(h, es[k])]
  {
  }

  lemma DirectoryPiecesGrow(h: Headers, es: seq<ZipEntry>, k: nat)
    requires k < |es|
    ensures DirectoryPieces(h, es[..k + 1]) == DirectoryPieces(h, es[..k]) + [Central(h, es[k], OffsetAfter(es[..k]))]
  {
    assert es[..k + 1][..k] == es[..k];
    forall i | 0 <= i < k ensures es[..k + 1][..i] == es[..k][..i] {}
  }

  /** The pieces and the lengths of a prefix grow by one entry's worth. */
  lemma PiecesGrow(h: Headers, es: seq<ZipEntry>, k: nat)
    requires k < |es|
    ensures es[..k + 1][..k] == es[..k]
    ensures LocalPieces(h, es[..k + 1]) == LocalPieces(h, es[..k]) + [Local(h, es[k])]
    ensures DirectoryPieces(h, es[..k + 1]) == DirectoryPieces(h, es[..k]) + [Central(h, es[k], OffsetAfter(es[..k]))]
    ensures Locals(h, es[..k + 1]) == Locals(h, es[..k]) + Local(h, es[k])
    ensures Directory(h, es[..k + 1]) == Directory(h, es[..k]) + Central(h, es[k], OffsetAfter(es[..k]))
    ensures OffsetAfter(es[..k + 1]) == OffsetAfter(es[..k]) + 30 + |es[k].name| + |es[k].data|
    ensures DirectorySize(es[..k + 1]) == DirectorySize(es[..k]) + 46 + |es[k].name|
  {
    assert es[..k + 1][..k] == es[..k];
    LocalPiecesGrow(h, es, k);
    DirectoryPiecesGrow(h, es, k);
    FlattenAppend(LocalPieces(h, es[..k]), Local(h, es[k]));
    FlattenAppend(DirectoryPieces(h, es[..k]), Central(h, es[k], OffsetAfter(es[..k])));
  }

  lemma RecordSizes(h: Headers, e: ZipEntry, offset: nat)
    requires WellSized(h)
    ensures |Local(h, e)| == 30 + |e.name| + |e.data| && |Central(h, e, offset)| == 46 + |e.name|
  {
  }

  lemma {:induction false} Lengths(h: Headers, es: seq<ZipEntry>, k: nat)
    requires k <= |es| && WellSized(h)
    ensures |Locals(h, es[..k])| == OffsetAfter(es[..k]) && |Directory(h, es[..k])| == DirectorySize(es[..k])
  {
    if k > 0 {
      var i := k - 1;
      Lengths(h, es, i);
      PiecesGrow(h, es, i);
      RecordSizes(h, es[i], OffsetAfter(es[..i]));
      assert es[..i + 1] == es[..k];
    } else {
      assert es[..0] == [];
    }
  }

  function Archive(h: Headers, es: seq<ZipEntry>): Bytes {
    Locals(h, es) + Directory(h, es) + h.end(|es|, DirectorySize(es), OffsetAfter(es))
  }

  // ---------------------------------------------------------------- the writer

  /** `buf.writeUInt16LE(n, at)`, in place. */
  method WriteU16LE(buf: array<Byte>, n: int, at: nat)
    requires 0 <= n < U16_LIMIT && at + 2 <= buf.Length
    modifies buf
    ensures buf[..] == Put(old(buf[..]), U16LE(n), at)
  {
    buf[at], buf[at + 1] := n % 256, n / 256;
  }

  /** `buf.writeUInt32LE(n, at)`, in place. */
  method WriteU32LE(buf: array<Byte>, n: int, at: nat)
    requires 0 <= n < U32_LIMIT && at + 4 <= buf.Length
    modifies buf
    ensures buf[..] == Put(old(buf[..]), U32LE(n), at)
  {
    WriteU16LE(buf, n % U16_LIMIT, at);
    WriteU16LE(buf, n / U16_LIMIT, at + 2);
  }

  /** One field write; `fields` remembers what the buffer holds so far. */
  method WriteField(buf: array<Byte>, f: Field, ghost fields: seq<Field>) returns (ghost written: seq<Field>)
    requires f.Fits(buf.Length) && buf[..] == Layout(buf.Length, fields)
    modifies buf
    ensures written == fields + [f] && buf[..] == Layout(buf.Length, written)
  {
    if f.Field16? { WriteU16LE(buf, f.value, f.at); } else { WriteU32LE(buf, f.value, f.at); }
    LayoutAppend(buf.Length, fields, f);
    written := fields + [f];
  }

  method BuildLocalHeader(crc: int, size: int, nameLength: int) returns (header: Bytes)
    requires 0 <= crc < U32_LIMIT && 0 <= size < U32_LIMIT && 0 <= nameLength < U16_LIMIT
    ensures header == Layout(30, LocalFields(crc, size, nameLength))
  {
    var buf := new Byte[30](_ => 0);
    ghost var w: seq<Field> := [];
    assert buf[..] == Zeros(30);
    w := WriteField(buf, Field32(0, LOCAL_SIGNATURE), w);
    w := WriteField(buf, Field16(4, 20), w);
    w := WriteField(buf, Field32(14, crc), w);
    w := WriteField(buf, Field32(18, size), w);
    w := WriteField(buf, Field32(22, size), w);
    w := WriteField(buf, Field16(26, nameLength), w);
    assert w == LocalFields(crc, size, nameLength);
    header := buf[..];
  }

  method BuildCentralHeader(crc: int, size: int, nameLength: int, offset: int) returns (header: Bytes)
    requires 0 <= crc < U32_LIMIT && 0 <= size < U32_LIMIT && 0 <= nameLength < U16_LIMIT && 0 <= offset < U32_LIMIT
    ensures header == Layout(46, CentralFields(crc, size, nameLength, offset))
  {
    var buf := new Byte[46](_ => 0);
    ghost var w: seq<Field> := [];
    assert buf[..] == Zeros(46);
    w := WriteField(buf, Field32(0, CENTRAL_SIGNATURE), w);
    w := WriteField(buf, Field16(4, 20), w);
    w := WriteField(buf, Field16(6, 20), w);
    w := WriteField(buf, Field32(16, crc), w);
    w := WriteField(buf, Field32(20, size), w);
    w := WriteField(buf, Field32(24, size), w);
    w := WriteField(buf, Field16(28, nameLength), w);
    w := WriteField(buf, Field32(42, offset), w);
    assert w == CentralFields(crc, size, nameLength, offset);
    header := buf[..];
  }

  method BuildEndRecord(count: nat, centralSize: nat, offset: nat) returns (record: Bytes)
    requires count < U16_LIMIT && centralSize < U32_LIMIT && offset < U32_LIMIT
    ensures record == Layout(22, EndFields(count, centralSize, offset))
  {
    var buf := new Byte[22](_ => 0);
    ghost var w: seq<Field> := [];
    assert buf[..] == Zeros(22);
    w := WriteField(buf, Field32(0, END_SIGNATURE), w);
    w := WriteField(buf, Field16(8, count), w);
    w := WriteField(buf, Field16(10, count), w);
    w := WriteField(buf, Field32(12, centralSize), w);
    w := WriteField(buf, Field32(16, offset), w);
    assert w == EndFields(count, centralSize, offset);
    record := buf[..];
  }

  /** What one turn of the loop pushes to `locals` and to `central`. */
  method BuildRecords(e: ZipEntry, offset: nat, table: array<bv32>) returns (local: Bytes, central: Bytes)
    requires IsCrcTable(table[..]) && EntryFits(e) && offset < U32_LIMIT
    ensures local == Local(ZIP, e) && central == Central(ZIP, e, offset)
  {
    var crc := Crc32.Crc32(table, BitsOf(e.data));
    var header := BuildLocalHeader(crc as int, |e.data|, |e.name|);
    var directoryHeader := BuildCentralHeader(crc as int, |e.data|, |e.name|, offset);
    local := header + Latin1(e.name) + e.data;
    central := directoryHeader + Latin1(e.name);
  }

  lemma OneMoreFits(es: seq<ZipEntry>, i: nat)
    requires i < |es|
    ensures EntriesFit(es[..i + 1]) <==>
            EntriesFit(es[..i]) && EntryFits(es[i]) && OffsetAfter(es[..i]) < U32_LIMIT
    ensures EntriesFit(es) ==> EntriesFit(es[..i + 1])
  {
    assert es[..i + 1][..i] == es[..i];
    PrefixFits(es, i + 1);
  }

  /** The loop: local records and central records grow side by side, with a running offset. */
  method WriteRecords(entries: seq<ZipEntry>, table: array<bv32>)
    returns (ok: bool, locals: Bytes, central: Bytes, offset: nat)
    requires IsCrcTable(table[..])
    ensures ok <==> EntriesFit(entries)
    ensures ok ==> locals == Locals(ZIP, entries) && central == Directory(ZIP, entries)
    ensures ok ==> offset == OffsetAfter(entries)
  {
    ok, locals, central, offset := true, [], [], 0;
    for i := 0 to |entries|
      invariant ok && EntriesFit(entries[..i]) && offset == OffsetAfter(entries[..i])
      invariant locals == Locals(ZIP, entries[..i]) && central == Directory(ZIP, entries[..i])
    {
      var e := entries[i];
      OneMoreFits(entries, i);
      if !(EntryFits(e) && offset < U32_LIMIT) {
        ok := false;
        return;
      }
      PiecesGrow(ZIP, entries, i);
      var record, directoryRecord := BuildRecords(e, offset, table);
      locals := locals + record;
      central := central + directoryRecord;
      offset := offset + 30 + |e.name| + |e.data|;
    }
    assert entries[..|entries|] == entries;
  }

  lemma DirectoryLength(es: seq<ZipEntry>)
    ensures |Directory(ZIP, es)| == DirectorySize(es)
  {
    assert es[..|es|] == es;
    Lengths(ZIP, es, |es|);
  }

  /** `storedZip`. */
  method StoreZip(entries: seq<ZipEntry>, table: array<bv32>) returns (r: Result<Bytes, WriteError>)
    requires IsCrcTable(table[..])
    ensures r == if Fits(entries) then Ok(Archive(ZIP, entries)) else Err(RangeError)
  {
    var ok, locals, central, offset := WriteRecords(entries, table);
    if !ok { return Err(RangeError); }
    DirectoryLength(entries);
    if !(|entries| < U16_LIMIT && |central| < U32_LIMIT && offset < U32_LIMIT) { return Err(RangeError); }
    var end := BuildEndRecord(|entries|, |central|, offset);
    r := Ok(locals + central + end);
  }

  lemma {:induction false} PrefixFits(es: seq<ZipEntry>, k: nat)
    requires k <= |es|
    ensures EntriesFit(es) ==> EntriesFit(es[..k])
    decreases |es|
  {
    if k < |es| {
      assert es[..|es| - 1][..k] == es[..k];
      PrefixFits(es[..|es| - 1], k);
    } else {
      assert es[..k] == es;
    }
  }
}
