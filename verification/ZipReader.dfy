/**
 * A reader for stored ZIP archives, and the proof that it gets back what `StoredZip` was given.
 */
module ZipReader {
  import opened Prelude
  import opened Pieces
  import opened ByteCodec
  import opened Crc32
  import opened BitConversion
  import opened StoredZip

  datatype Member = Member(name: Bytes, data: Bytes)

  /** What a central directory record says, and where the next one begins. */
  datatype Record = Record(name: Bytes, crc: int, size: nat, offset: nat, next: nat)

  /** Section 4.3.12: one central directory record of a stored member. */
  function ReadRecord(s: Bytes, at: nat): (r: Option<Record>)
    ensures r.Some? ==> at + 46 <= r.value.next <= |s|
  {
    if at + 46 > |s| || ReadU32LE(s, at) != CENTRAL_SIGNATURE then None
    else if ReadU16LE(s, at + 4) != 20 || ReadU16LE(s, at + 6) != 20 || ReadU16LE(s, at + 8) != 0 then None
    else
      var nameLength, extra, comment := ReadU16LE(s, at + 28), ReadU16LE(s, at + 30), ReadU16LE(s, at + 32);
      var next := at + 46 + nameLength + extra + comment;
      if next > |s| || ReadU16LE(s, at + 10) != 0 || ReadU32LE(s, at + 20) != ReadU32LE(s, at + 24) then None
      else Some(Record(s[at + 46..at + 46 + nameLength], ReadU32LE(s, at + 16), ReadU32LE(s, at + 24),
                       ReadU32LE(s, at + 42), next))
  }

  /** Section 4.3.7: the data the local header a record points at announces, if the two agree. */
  function LocateData(s: Bytes, r: Record): Option<Bytes> {
    var at := r.offset;
    if at + 30 > |s| || ReadU32LE(s, at) != LOCAL_SIGNATURE then None
    else if ReadU16LE(s, at + 4) != 20 || ReadU16LE(s, at + 6) != 0 then None
    else
      var nameLength, extra := ReadU16LE(s, at + 26), ReadU16LE(s, at + 28);
      var start := at + 30 + nameLength + extra;
      if start + r.size > |s| || s[at + 30..at + 30 + nameLength] != r.name then None
      else if ReadU16LE(s, at + 8) != 0 || ReadU32LE(s, at + 18) != r.size || ReadU32LE(s, at + 22) != r.size then None
      else if ReadU32LE(s, at + 14) != r.crc then None
      else Some(s[start..start + r.size])
  }

  /** Section 4.3.16: what the final 22 bytes say - how many members, the directory's size and its place. */
  function ReadEnd(s: Bytes): Option<(nat, nat, nat)> {
    if |s| < 22 || ReadU16LE(s, |s| - 2) != 0 then None
    else
      var end := |s| - 22;
      var count, size, offset := ReadU16LE(s, end + 10), ReadU32LE(s, end + 12), ReadU32LE(s, end + 16);
      if ReadU32LE(s, end) != END_SIGNATURE || ReadU16LE(s, end + 8) != count || offset + size != end then None
      else Some((count, size, offset))
  }

  /** The three record readers and the check, so that following the records does not depend on their bytes. */
  datatype Reader = Reader(
    record: (Bytes, nat) -> Option<Record>, data: (Bytes, Record) -> Option<Bytes>,
    end: Bytes -> Option<(nat, nat, nat)>, check: Bytes -> int)

  const ZIP_READER: Reader := Reader(ReadRecord, LocateData, ReadEnd, CrcOf)

  /** One member by its directory record, checked against its CRC, and where the next record begins. */
  function ReadEntry(rd: Reader, s: Bytes, at: nat): Option<(Member, nat)> {
    match rd.record(s, at)
    case None => None
    case Some(r) =>
      match rd.data(s, r)
      case None => None
      case Some(data) => if rd.check(data) == r.crc then Some((Member(r.name, data), r.next)) else None
  }

  /** The next `count` members, read one by one; the last must leave off exactly at `end`. */
  function ReadAll(rd: Reader, s: Bytes, at: nat, count: nat, end: nat): Option<seq<Member>>
    decreases count
  {
    if count == 0 then (if at == end then Some([]) else None)
    else match ReadEntry(rd, s, at)
      case None => None
      case Some((member, next)) =>
        match ReadAll(rd, s, next, count - 1, end)
        case None => None
        case Some(rest) => Some([member] + rest)
  }

  /** Follow the end record to the directory, and the directory to every member. */
  function ReadArchive(rd: Reader, s: Bytes): Option<seq<Member>> {
    match rd.end(s)
    case None => None
    case Some((count, size, offset)) => ReadAll(rd, s, offset, count, offset + size)
  }

  function ReadZip(s: Bytes): Option<seq<Member>> {
    ReadArchive(ZIP_READER, s)
  }

  // ---------------------------------------------------------------- fields of the headers

  /** The three signatures as they stand in a file: PK and two more bytes. */
  lemma SignaturesSpelled()
    ensures U32LE(LOCAL_SIGNATURE) == [0x50, 0x4b, 3, 4]
    ensures U32LE(CENTRAL_SIGNATURE) == [0x50, 0x4b, 1, 2]
    ensures U32LE(END_SIGNATURE) == [0x50, 0x4b, 5, 6]
  {
  }

  lemma LocalHeaderReads(crc: int, size: int, nameLength: int)
    requires 0 <= crc < U32_LIMIT && 0 <= size < U32_LIMIT && 0 <= nameLength < U16_LIMIT
    ensures IsLocalHeader(Layout(30, LocalFields(crc, size, nameLength)), crc, size, nameLength)
  {
    var fields := LocalFields(crc, size, nameLength);
    FieldReads(30, fields, 0);
    FieldReads(30, fields, 1);
    GapReadsZero(30, fields, Field16(6, 0));
    GapReadsZero(30, fields, Field16(8, 0));
    FieldReads(30, fields, 2);
    FieldReads(30, fields, 3);
    FieldReads(30, fields, 4);
    FieldReads(30, fields, 5);
    GapReadsZero(30, fields, Field16(28, 0));
  }

  predicate IsLocalHeader(h: Bytes, crc: int, size: int, nameLength: int) {
    && |h| == 30
    && ReadU32LE(h, 0) == LOCAL_SIGNATURE
    && ReadU16LE(h, 4) == 20 && ReadU16LE(h, 6) == 0 && ReadU16LE(h, 8) == 0
    && ReadU32LE(h, 14) == crc
    && ReadU32LE(h, 18) == size && ReadU32LE(h, 22) == size
    && ReadU16LE(h, 26) == nameLength && ReadU16LE(h, 28) == 0
  }

  lemma CentralHeaderReads(crc: int, size: int, nameLength: int, offset: int)
    requires 0 <= crc < U32_LIMIT && 0 <= size < U32_LIMIT && 0 <= nameLength < U16_LIMIT && 0 <= offset < U32_LIMIT
    ensures IsCentralHeader(Layout(46, CentralFields(crc, size, nameLength, offset)), crc, size, nameLength, offset)
  {
    var fields := CentralFields(crc, size, nameLength, offset);
    FieldReads(46, fields, 0);
    FieldReads(46, fields, 1);
    FieldReads(46, fields, 2);
    GapReadsZero(46, fields, Field16(8, 0));
    GapReadsZero(46, fields, Field16(10, 0));
    FieldReads(46, fields, 3);
    FieldReads(46, fields, 4);
    FieldReads(46, fields, 5);
    FieldReads(46, fields, 6);
    GapReadsZero(46, fields, Field16(30, 0));
    GapReadsZero(46, fields, Field16(32, 0));
    FieldReads(46, fields, 7);
  }

  predicate IsCentralHeader(h: Bytes, crc: int, size: int, nameLength: int, offset: int) {
    && |h| == 46
    && ReadU32LE(h, 0) == CENTRAL_SIGNATURE
    && ReadU16LE(h, 4) == 20 && ReadU16LE(h, 6) == 20 && ReadU16LE(h, 8) == 0 && ReadU16LE(h, 10) == 0
    && ReadU32LE(h, 16) == crc
    && ReadU32LE(h, 20) == size && ReadU32LE(h, 24) == size
    && ReadU16LE(h, 28) == nameLength && ReadU16LE(h, 30) == 0 && ReadU16LE(h, 32) == 0
    && ReadU32LE(h, 42) == offset
  }

  lemma EndRecordReads(count: int, size: int, offset: int)
    requires 0 <= count < U16_LIMIT && 0 <= size < U32_LIMIT && 0 <= offset < U32_LIMIT
    ensures IsEndRecord(Layout(22, EndFields(count, size, offset)), count, size, offset)
  {
    var fields := EndFields(count, size, offset);
    FieldReads(22, fields, 0);
    FieldReads(22, fields, 1);
    FieldReads(22, fields, 2);
    FieldReads(22, fields, 3);
    FieldReads(22, fields, 4);
    GapReadsZero(22, fields, Field16(20, 0));
  }

  predicate IsEndRecord(h: Bytes, count: int, size: int, offset: int) {
    && |h| == 22
    && ReadU32LE(h, 0) == END_SIGNATURE
    && ReadU16LE(h, 8) == count && ReadU16LE(h, 10) == count
    && ReadU32LE(h, 12) == size && ReadU32LE(h, 16) == offset && ReadU16LE(h, 20) == 0
  }

  // ---------------------------------------------------------------- reading one piece back

  lemma RecordReads(s: Bytes, h: Bytes, name: Bytes, at: nat, crc: int, size: nat, offset: nat)
    requires IsCentralHeader(h, crc, size, |name|, offset) && HasAt(s, h + name, at)
    ensures ReadRecord(s, at) == Some(Record(name, crc, size, offset, at + 46 + |name|))
  {
    assert HasAt(h + name, h, 0) && HasAt(h + name, name, 46);
    HasInside(s, h + name, at, h, 0);
    HasInside(s, h + name, at, name, 46);
  }

  /** A local header that stands in `s` reads there as it reads by itself. */
  lemma LocalHeaderReadsAt(s: Bytes, h: Bytes, crc: int, size: int, nameLength: int, at: nat)
    requires IsLocalHeader(h, crc, size, nameLength) && HasAt(s, h, at)
    ensures IsLocalHeader(s[at..at + 30], crc, size, nameLength)
    ensures ReadU32LE(s, at) == LOCAL_SIGNATURE && ReadU16LE(s, at + 4) == 20 && ReadU16LE(s, at + 6) == 0
    ensures ReadU16LE(s, at + 8) == 0 && ReadU32LE(s, at + 14) == crc
    ensures ReadU32LE(s, at + 18) == size && ReadU32LE(s, at + 22) == size
    ensures ReadU16LE(s, at + 26) == nameLength && ReadU16LE(s, at + 28) == 0
  {
  }

  lemma PartsStand(s: Bytes, h: Bytes, name: Bytes, data: Bytes, at: nat)
    requires HasAt(s, h + name + data, at)
    ensures HasAt(s, h, at) && HasAt(s, name, at + |h|) && HasAt(s, data, at + |h| + |name|)
  {
    var whole := h + name + data;
    assert HasAt(whole, h, 0);
    HasMiddle(h, name, data);
    assert HasAt(whole, data, |h| + |name|);
    HasInside(s, whole, at, h, 0);
    HasInside(s, whole, at, name, |h|);
    HasInside(s, whole, at, data, |h| + |name|);
  }

  lemma DataReads(s: Bytes, h: Bytes, name: Bytes, data: Bytes, crc: int, offset: nat, next: nat)
    requires IsLocalHeader(h, crc, |data|, |name|) && HasAt(s, h + name + data, offset)
    ensures LocateData(s, Record(name, crc, |data|, offset, next)) == Some(data)
  {
    PartsStand(s, h, name, data, offset);
    LocalHeaderReadsAt(s, h, crc, |data|, |name|, offset);
  }

  function RecordOf(rd: Reader, e: ZipEntry, offset: nat, at: nat): Record {
    Record(Latin1(e.name), rd.check(e.data), |e.data|, offset, at + 46 + |e.name|)
  }

  ghost predicate FindsRecords(rd: Reader, h: Headers) {
    forall s, e, offset: nat, at: nat | EntryFits(e) && offset < U32_LIMIT && HasAt(s, Central(h, e, offset), at) ::
      rd.record(s, at) == Some(RecordOf(rd, e, offset, at))
  }

  ghost predicate FindsData(rd: Reader, h: Headers) {
    forall s, e, data, offset: nat, at: nat | EntryFits(e) && |data| == |e.data|
                                              && HasAt(s, h.local(e) + Latin1(e.name) + data, offset) ::
      rd.data(s, RecordOf(rd, e, offset, at)) == Some(data)
  }

  ghost predicate FindsEnd(rd: Reader, h: Headers) {
    forall s, count: nat, size: nat, offset: nat
      | count < U16_LIMIT && size < U32_LIMIT && offset < U32_LIMIT && |s| == offset + size + 22
        && HasAt(s, h.end(count, size, offset), offset + size) ::
      rd.end(s) == Some((count, size, offset))
  }

  /** The reader finds, wherever one of these records stands, what the record was made from. */
  ghost predicate Finds(rd: Reader, h: Headers) {
    WellSized(h) && FindsRecords(rd, h) && FindsData(rd, h) && FindsEnd(rd, h)
  }

  lemma ZipFindsRecord(s: Bytes, e: ZipEntry, offset: nat, at: nat)
    requires EntryFits(e) && offset < U32_LIMIT && HasAt(s, Central(ZIP, e, offset), at)
    ensures ReadRecord(s, at) == Some(RecordOf(ZIP_READER, e, offset, at))
  {
    CentralHeaderReads(CrcOf(e.data), |e.data|, |e.name|, offset);
    RecordReads(s, CentralHeader(e, offset), Latin1(e.name), at, CrcOf(e.data), |e.data|, offset);
  }

  lemma ZipFindsRecords()
    ensures FindsRecords(ZIP_READER, ZIP)
  {
    forall s, e, offset: nat, at: nat | EntryFits(e) && offset < U32_LIMIT && HasAt(s, Central(ZIP, e, offset), at)
      ensures ZIP_READER.record(s, at) == Some(RecordOf(ZIP_READER, e, offset, at))
    {
      ZipFindsRecord(s, e, offset, at);
    }
  }

  lemma ZipFindsMember(s: Bytes, e: ZipEntry, data: Bytes, offset: nat, at: nat)
    requires EntryFits(e) && |data| == |e.data| && HasAt(s, LocalHeader(e) + Latin1(e.name) + data, offset)
    ensures LocateData(s, RecordOf(ZIP_READER, e, offset, at)) == Some(data)
  {
    LocalHeaderReads(CrcOf(e.data), |e.data|, |e.name|);
    DataReads(s, LocalHeader(e), Latin1(e.name), data, CrcOf(e.data), offset, at + 46 + |e.name|);
  }

  lemma ZipFindsData()
    ensures FindsData(ZIP_READER, ZIP)
  {
    forall s, e, data, offset: nat, at: nat | EntryFits(e) && |data| == |e.data|
                                              && HasAt(s, ZIP.local(e) + Latin1(e.name) + data, offset)
      ensures ZIP_READER.data(s, RecordOf(ZIP_READER, e, offset, at)) == Some(data)
    {
      ZipFindsMember(s, e, data, offset, at);
    }
  }

  lemma EndReads(s: Bytes, h: Bytes, count: nat, size: nat, offset: nat)
    requires |s| == offset + size + 22 && IsEndRecord(h, count, size, offset) && HasAt(s, h, offset + size)
    ensures ReadEnd(s) == Some((count, size, offset))
  {
  }

  lemma ZipFindsEnd()
    ensures FindsEnd(ZIP_READER, ZIP)
  {
    forall s, count: nat, size: nat, offset: nat
      | count < U16_LIMIT && size < U32_LIMIT && offset < U32_LIMIT && |s| == offset + size + 22
        && HasAt(s, ZIP.end(count, size, offset), offset + size)
      ensures ZIP_READER.end(s) == Some((count, size, offset))
    {
      EndRecordReads(count, size, offset);
      EndReads(s, ZIP.end(count, size, offset), count, size, offset);
    }
  }

  lemma ZipReaderFinds()
    ensures Finds(ZIP_READER, ZIP)
  {
    ZipFindsRecords();
    ZipFindsData();
    ZipFindsEnd();
  }

  // ---------------------------------------------------------------- where the pieces stand

  lemma StandsInTwo(s: Bytes, front: Bytes, back: Bytes, end: Bytes,
                    first: Bytes, firstAt: nat, second: Bytes, inner: nat, secondAt: nat)
    requires s == front + back + end && HasAt(front, first, firstAt)
    requires HasAt(back, second, inner) && secondAt == |front| + inner
    ensures HasAt(s, first, firstAt) && HasAt(s, second, secondAt)
  {
    HasMiddle(front, back, end);
    assert s[0..|front|] == front;
    HasInside(s, front, 0, first, firstAt);
    HasInside(s, back, |front|, second, inner);
  }

  lemma StandsInRuns(s: Bytes, locals: seq<Bytes>, directory: seq<Bytes>, end: Bytes, k: nat,
                     local: Bytes, localAt: nat, central: Bytes, centralAt: nat)
    requires s == Flatten(locals) + Flatten(directory) + end
    requires k < |locals| && local == locals[k] && localAt == |Flatten(locals[..k])|
    requires k < |directory| && central == directory[k]
    requires centralAt == |Flatten(locals)| + |Flatten(directory[..k])|
    ensures HasAt(s, local, localAt) && HasAt(s, central, centralAt)
  {
    PieceStands(locals, k);
    PieceStands(directory, k);
    StandsInTwo(s, Flatten(locals), Flatten(directory), end, local, localAt,
                central, |Flatten(directory[..k])|, centralAt);
  }

  lemma TotalLengths(h: Headers, es: seq<ZipEntry>)
    requires WellSized(h)
    ensures |Locals(h, es)| == OffsetAfter(es) && |Directory(h, es)| == DirectorySize(es)
  {
    assert es[..|es|] == es;
    Lengths(h, es, |es|);
  }

  lemma PrefixPieces(h: Headers, es: seq<ZipEntry>, k: nat)
    requires k <= |es|
    ensures LocalPieces(h, es)[..k] == LocalPieces(h, es[..k])
    ensures DirectoryPieces(h, es)[..k] == DirectoryPieces(h, es[..k])
  {
    forall i | 0 <= i < k ensures es[..k][..i] == es[..i] {}
  }

  lemma PrefixLengths(h: Headers, es: seq<ZipEntry>, k: nat)
    requires k <= |es| && WellSized(h)
    ensures |Flatten(LocalPieces(h, es)[..k])| == OffsetAfter(es[..k])
    ensures |Flatten(DirectoryPieces(h, es)[..k])| == DirectorySize(es[..k])
  {
    PrefixPieces(h, es, k);
    Lengths(h, es, k);
  }

  /** Where the k-th directory record of an archive begins. */
  function RecordPlace(es: seq<ZipEntry>, k: nat): nat {
    if k <= |es| then OffsetAfter(es) + DirectorySize(es[..k]) else 0
  }

  /** Where every record of an archive stands. */
  lemma ArchiveStands(h: Headers, es: seq<ZipEntry>, k: nat)
    requires k < |es| && WellSized(h)
    ensures HasAt(Archive(h, es), Local(h, es[k]), OffsetAfter(es[..k]))
    ensures HasAt(Archive(h, es), Central(h, es[k], OffsetAfter(es[..k])), RecordPlace(es, k))
  {
    PrefixLengths(h, es, k);
    TotalLengths(h, es);
    StandsInRuns(Archive(h, es), LocalPieces(h, es), DirectoryPieces(h, es),
                 h.end(|es|, DirectorySize(es), OffsetAfter(es)), k, Local(h, es[k]), OffsetAfter(es[..k]),
                 Central(h, es[k], OffsetAfter(es[..k])), RecordPlace(es, k));
  }

  /** Where the end record begins. */
  function EndPlace(es: seq<ZipEntry>): nat { OffsetAfter(es) + DirectorySize(es) }

  lemma EndStands(h: Headers, es: seq<ZipEntry>)
    requires WellSized(h)
    ensures |Archive(h, es)| == OffsetAfter(es) + DirectorySize(es) + 22
    ensures HasAt(Archive(h, es), h.end(|es|, DirectorySize(es), OffsetAfter(es)), EndPlace(es))
  {
    TotalLengths(h, es);
    LastStands(Locals(h, es), Directory(h, es), h.end(|es|, DirectorySize(es), OffsetAfter(es)), EndPlace(es));
  }

  lemma LastStands(a: Bytes, b: Bytes, c: Bytes, at: nat)
    requires at == |a| + |b|
    ensures |a + b + c| == at + |c| && HasAt(a + b + c, c, at)
  {
    assert (a + b + c)[at..] == c;
  }

  lemma {:induction false} EachFits(es: seq<ZipEntry>, k: nat)
    requires k < |es| && EntriesFit(es)
    ensures EntryFits(es[k]) && OffsetAfter(es[..k]) < U32_LIMIT
    decreases |es|
  {
    var n := |es| - 1;
    if k < n {
      assert es[..n][..k] == es[..k];
      EachFits(es[..n], k);
    }
  }

  // ---------------------------------------------------------------- reading them all

  lemma RecordPlaceAdvances(es: seq<ZipEntry>, k: nat)
    requires k < |es|
    ensures RecordPlace(es, k + 1) == RecordPlace(es, k) + 46 + |es[k].name|
  {
    assert es[..k + 1][..k] == es[..k];
  }

  function Members(es: seq<ZipEntry>): (r: seq<Member>)
    ensures |r| == |es|
  {
    seq(|es|, i requires 0 <= i < |es| => Member(Latin1(es[i].name), es[i].data))
  }

  /** A directory record and a local record that carries `data` in the place of its entry's data. */
  lemma FoundEntryReads(rd: Reader, h: Headers, s: Bytes, e: ZipEntry, data: Bytes, offset: nat, at: nat)
    requires Finds(rd, h) && EntryFits(e) && offset < U32_LIMIT && |data| == |e.data|
    requires HasAt(s, Central(h, e, offset), at)
    requires HasAt(s, h.local(e) + Latin1(e.name) + data, offset)
    ensures ReadEntry(rd, s, at) == if rd.check(data) == rd.check(e.data)
                                    then Some((Member(Latin1(e.name), data), at + 46 + |e.name|)) else None
  {
    assert rd.record(s, at) == Some(RecordOf(rd, e, offset, at));
    assert rd.data(s, RecordOf(rd, e, offset, at)) == Some(data);
  }

  lemma EndFound(rd: Reader, h: Headers, s: Bytes, count: nat, size: nat, offset: nat)
    requires FindsEnd(rd, h) && count < U16_LIMIT && size < U32_LIMIT && offset < U32_LIMIT
    requires |s| == offset + size + 22 && HasAt(s, h.end(count, size, offset), offset + size)
    ensures rd.end(s) == Some((count, size, offset))
  {
  }

  lemma RecordEnds(es: seq<ZipEntry>)
    ensures RecordPlace(es, 0) == OffsetAfter(es) && RecordPlace(es, |es|) == OffsetAfter(es) + DirectorySize(es)
  {
    assert es[..0] == [] && es[..|es|] == es;
  }

  lemma EndAnswers(rd: Reader, h: Headers, es: seq<ZipEntry>, s: Bytes)
    requires FindsEnd(rd, h) && Fits(es) && |s| == EndPlace(es) + 22
    requires HasAt(s, h.end(|es|, DirectorySize(es), OffsetAfter(es)), EndPlace(es))
    ensures rd.end(s) == Some((|es|, DirectorySize(es), OffsetAfter(es)))
  {
    EndFound(rd, h, s, |es|, DirectorySize(es), OffsetAfter(es));
  }

  lemma EndLeadsToAll(rd: Reader, s: Bytes, count: nat, size: nat, offset: nat, first: nat, last: nat)
    requires rd.end(s) == Some((count, size, offset)) && first == offset && last == offset + size
    ensures ReadArchive(rd, s) == ReadAll(rd, s, first, count, last)
  {
  }

  /** With the end record in its place, reading the archive is reading its members one by one. */
  lemma ArchiveReadsAll(rd: Reader, h: Headers, es: seq<ZipEntry>, s: Bytes)
    requires FindsEnd(rd, h) && Fits(es) && |s| == EndPlace(es) + 22
    requires HasAt(s, h.end(|es|, DirectorySize(es), OffsetAfter(es)), EndPlace(es))
    ensures ReadArchive(rd, s) == ReadAll(rd, s, RecordPlace(es, 0), |es|, RecordPlace(es, |es|))
  {
    var first, last := RecordPlace(es, 0), RecordPlace(es, |es|);
    EndAnswers(rd, h, es, s);
    RecordEnds(es);
    EndLeadsToAll(rd, s, |es|, DirectorySize(es), OffsetAfter(es), first, last);
  }

  ghost predicate ReadsAt(rd: Reader, es: seq<ZipEntry>, t: Bytes, i: nat)
    requires i < |es|
  {
    ReadEntry(rd, t, RecordPlace(es, i)) == Some((Members(es)[i], RecordPlace(es, i + 1)))
  }

  /** Where both of an entry's records stand, the entry reads. */
  lemma StandingEntryReads(rd: Reader, h: Headers, es: seq<ZipEntry>, t: Bytes, i: nat)
    requires Finds(rd, h) && Fits(es) && i < |es|
    requires HasAt(t, Central(h, es[i], OffsetAfter(es[..i])), RecordPlace(es, i))
    requires HasAt(t, Local(h, es[i]), OffsetAfter(es[..i]))
    ensures ReadsAt(rd, es, t, i)
  {
    EachFits(es, i);
    RecordPlaceAdvances(es, i);
    FoundEntryReads(rd, h, t, es[i], es[i].data, OffsetAfter(es[..i]), RecordPlace(es, i));
  }

  lemma {:induction false} AllEntriesRead(rd: Reader, es: seq<ZipEntry>, t: Bytes, k: nat)
    requires k <= |es| && forall j: nat | j < |es| :: ReadsAt(rd, es, t, j)
    ensures ReadAll(rd, t, RecordPlace(es, k), |es| - k, RecordPlace(es, |es|)) == Some(Members(es)[k..])
    decreases |es| - k
  {
    if k < |es| {
      AllEntriesRead(rd, es, t, k + 1);
      assert ReadsAt(rd, es, t, k);
      assert Members(es)[k..] == [Members(es)[k]] + Members(es)[k + 1..];
    } else {
      assert Members(es)[k..] == [];
    }
  }

  lemma RoundTripFor(rd: Reader, h: Headers, es: seq<ZipEntry>)
    requires Finds(rd, h) && Fits(es)
    ensures ReadArchive(rd, Archive(h, es)) == Some(Members(es))
  {
    var s := Archive(h, es);
    forall j: nat | j < |es| ensures ReadsAt(rd, es, s, j)
    {
      ArchiveStands(h, es, j);
      StandingEntryReads(rd, h, es, s, j);
    }
    AllEntriesRead(rd, es, s, 0);
    EndStands(h, es);
    ArchiveReadsAll(rd, h, es, s);
  }

  /** Every archive the writer produces reads back as exactly the entries it was given, in order. */
  lemma ZipRoundTrip(es: seq<ZipEntry>)
    requires Fits(es)
    ensures ReadZip(Archive(ZIP, es)) == Some(Members(es))
  {
    ZipReaderFinds();
    RoundTripFor(ZIP_READER, ZIP, es);
  }

  /** A member's name decodes to the entry's own name exactly when the name is Latin-1. */
  lemma NameSurvivesIff(name: seq<CodeUnit>)
    ensures FromLatin1(Latin1(name)) == name <==> forall c <- name :: c < 256
  {
    var back := FromLatin1(Latin1(name));
    forall i | 0 <= i < |name| ensures back[i] == name[i] % 256 {}
    if forall c <- name :: c < 256 {
      forall i | 0 <= i < |name| ensures back[i] == name[i]
      {
        assert name[i] in name;
      }
    } else {
      var i :| 0 <= i < |name| && name[i] >= 256;
      assert back[i] != name[i];
    }
  }

  // ---------------------------------------------------------------- damage is noticed

  lemma OneByteChangesCrcOf(data: Bytes, at: nat, b: Byte)
    requires at < |data| && b != data[at]
    ensures CrcOf(data[at := b]) != CrcOf(data)
  {
    ByteRoundTrip(b);
    ByteRoundTrip(data[at]);
    assert BitsOf(data[at := b]) == BitsOf(data)[at := b as bv8];
    OneByteChangesCrc(BitsOf(data), at, b as bv8);
    WordRoundTrip(Crc(BitsOf(data[at := b])));
    WordRoundTrip(Crc(BitsOf(data)));
  }

  lemma {:induction false} MemberEndsBefore(es: seq<ZipEntry>, k: nat, j: nat)
    requires k < j <= |es|
    ensures OffsetAfter(es[..k]) + 30 + |es[k].name| + |es[k].data| <= OffsetAfter(es[..j])
    decreases j
  {
    assert es[..j][..j - 1] == es[..j - 1];
    if k < j - 1 { MemberEndsBefore(es, k, j - 1); }
  }

  lemma ChangedInside(a: Bytes, data: Bytes, at: nat, b: Byte)
    requires at < |data|
    ensures (a + data)[|a| + at := b] == a + data[at := b]
  {
  }

  /** Where the data of the k-th member begins. */
  function DataPlace(es: seq<ZipEntry>, k: nat): nat
    requires k < |es|
  {
    OffsetAfter(es[..k]) + 30 + |es[k].name|
  }

  /** An archive in which one byte of the k-th member's data has been changed. */
  ghost predicate Changed(h: Headers, es: seq<ZipEntry>, k: nat, at: nat, b: Byte, t: Bytes) {
    && k < |es| && at < |es[k].data| && DataPlace(es, k) + at < |Archive(h, es)|
    && t == Archive(h, es)[DataPlace(es, k) + at := b]
  }

  lemma ChangeIsInside(h: Headers, es: seq<ZipEntry>, k: nat, at: nat)
    requires WellSized(h) && k < |es| && at < |es[k].data|
    ensures DataPlace(es, k) + at < OffsetAfter(es) <= |Archive(h, es)|
  {
    assert es[..|es|] == es;
    MemberEndsBefore(es, k, |es|);
    EndStands(h, es);
  }

  /** The directory still stands after the change. */
  lemma CentralStillStands(h: Headers, es: seq<ZipEntry>, k: nat, at: nat, b: Byte, t: Bytes, i: nat)
    requires WellSized(h) && Changed(h, es, k, at, b, t) && i < |es|
    ensures HasAt(t, Central(h, es[i], OffsetAfter(es[..i])), RecordPlace(es, i))
  {
    ChangeIsInside(h, es, k, at);
    ArchiveStands(h, es, i);
  }

  /** So does every other member's record. */
  lemma OtherStillStands(h: Headers, es: seq<ZipEntry>, k: nat, at: nat, b: Byte, t: Bytes, i: nat)
    requires WellSized(h) && Changed(h, es, k, at, b, t) && i < |es| && i != k
    ensures HasAt(t, Local(h, es[i]), OffsetAfter(es[..i]))
  {
    ArchiveStands(h, es, i);
    if i < k { MemberEndsBefore(es, i, k); } else { MemberEndsBefore(es, k, i); }
  }

  /** The changed member's record stands with the changed data in it. */
  lemma ChangedStands(h: Headers, es: seq<ZipEntry>, k: nat, at: nat, b: Byte, t: Bytes)
    requires WellSized(h) && Changed(h, es, k, at, b, t)
    ensures HasAt(t, h.local(es[k]) + Latin1(es[k].name) + es[k].data[at := b], OffsetAfter(es[..k]))
  {
    ArchiveStands(h, es, k);
    ChangedInside(h.local(es[k]) + Latin1(es[k].name), es[k].data, at, b);
  }

  lemma ChangedEntryFails(rd: Reader, h: Headers, es: seq<ZipEntry>, k: nat, at: nat, b: Byte, t: Bytes)
    requires Finds(rd, h) && Fits(es) && Changed(h, es, k, at, b, t)
    requires rd.check(es[k].data[at := b]) != rd.check(es[k].data)
    ensures ReadEntry(rd, t, RecordPlace(es, k)) == None
  {
    EachFits(es, k);
    CentralStillStands(h, es, k, at, b, t, k);
    ChangedStands(h, es, k, at, b, t);
    FoundEntryReads(rd, h, t, es[k], es[k].data[at := b], OffsetAfter(es[..k]), RecordPlace(es, k));
  }

  lemma OtherEntryReads(rd: Reader, h: Headers, es: seq<ZipEntry>, k: nat, at: nat, b: Byte, t: Bytes, i: nat)
    requires Finds(rd, h) && Fits(es) && Changed(h, es, k, at, b, t) && i < |es| && i != k
    ensures ReadsAt(rd, es, t, i)
  {
    CentralStillStands(h, es, k, at, b, t, i);
    OtherStillStands(h, es, k, at, b, t, i);
    StandingEntryReads(rd, h, es, t, i);
  }

  /** One member cannot be read, and every other reads as it should. */
  ghost predicate OnlyBad(rd: Reader, es: seq<ZipEntry>, k: nat, t: Bytes) {
    && k < |es| && ReadEntry(rd, t, RecordPlace(es, k)) == None
    && (forall i: nat | i < |es| && i != k :: ReadsAt(rd, es, t, i))
  }

  lemma OnlyChangedIsBad(rd: Reader, h: Headers, es: seq<ZipEntry>, k: nat, at: nat, b: Byte, t: Bytes)
    requires Finds(rd, h) && Fits(es) && Changed(h, es, k, at, b, t)
    requires rd.check(es[k].data[at := b]) != rd.check(es[k].data)
    ensures OnlyBad(rd, es, k, t)
  {
    ChangedEntryFails(rd, h, es, k, at, b, t);
    forall i: nat | i < |es| && i != k ensures ReadsAt(rd, es, t, i)
    {
      OtherEntryReads(rd, h, es, k, at, b, t, i);
    }
  }

  lemma {:induction false} OnlyBadStopsAll(rd: Reader, es: seq<ZipEntry>, k: nat, t: Bytes, j: nat)
    requires j <= k && OnlyBad(rd, es, k, t)
    ensures ReadAll(rd, t, RecordPlace(es, j), |es| - j, RecordPlace(es, |es|)) == None
    decreases k - j
  {
    if j < k {
      OnlyBadStopsAll(rd, es, k, t, j + 1);
      assert ReadsAt(rd, es, t, j);
    }
  }

  /** After the change the reader still finds the end record and goes from there to the members. */
  lemma ChangedReadsAll(rd: Reader, h: Headers, es: seq<ZipEntry>, k: nat, at: nat, b: Byte, t: Bytes)
    requires Finds(rd, h) && Fits(es) && Changed(h, es, k, at, b, t)
    ensures ReadArchive(rd, t) == ReadAll(rd, t, RecordPlace(es, 0), |es|, RecordPlace(es, |es|))
  {
    ChangeIsInside(h, es, k, at);
    EndStands(h, es);
    ArchiveReadsAll(rd, h, es, t);
  }

  lemma DamageIsNoticedFor(rd: Reader, h: Headers, es: seq<ZipEntry>, k: nat, at: nat, b: Byte, t: Bytes)
    requires Finds(rd, h) && Fits(es) && Changed(h, es, k, at, b, t)
    requires rd.check(es[k].data[at := b]) != rd.check(es[k].data)
    ensures ReadArchive(rd, t) == None
  {
    ChangedReadsAll(rd, h, es, k, at, b, t);
    OnlyChangedIsBad(rd, h, es, k, at, b, t);
    OnlyBadStopsAll(rd, es, k, t, 0);
  }

  /** Changing any single byte of any member's data makes the archive unreadable. */
  lemma DamageIsNoticed(es: seq<ZipEntry>, k: nat, at: nat, b: Byte)
    requires Fits(es) && k < |es| && at < |es[k].data| && b != es[k].data[at]
    ensures DataPlace(es, k) + at < |Archive(ZIP, es)|
    ensures ReadZip(Archive(ZIP, es)[DataPlace(es, k) + at := b]) == None
  {
    ZipReaderFinds();
    OneByteChangesCrcOf(es[k].data, at, b);
    ChangeIsInside(ZIP, es, k, at);
    DamageIsNoticedFor(ZIP_READER, ZIP, es, k, at, b, Archive(ZIP, es)[DataPlace(es, k) + at := b]);
  }

  // ---------------------------------------------------------------- what fits

  lemma {:induction false} PrefixesFit(es: seq<ZipEntry>)
    requires OffsetAfter(es) < U32_LIMIT && forall i | 0 <= i < |es| :: EntryFits(es[i])
    ensures EntriesFit(es)
  {
    if es != [] { PrefixesFit(es[..|es| - 1]); }
  }

  /**
   * Exactly what fits an archive: fewer than 2^16 entries, names shorter than 2^16 and data shorter than
   * 2^32 bytes, and local records and a directory shorter than 2^32 bytes each.
   */
  lemma FitsIff(es: seq<ZipEntry>)
    ensures Fits(es) <==>
            && |es| < 65_536
            && (forall i | 0 <= i < |es| :: |es[i].name| < 65_536 && |es[i].data| < 4_294_967_296)
            && |Locals(ZIP, es)| < 4_294_967_296 && |Directory(ZIP, es)| < 4_294_967_296
  {
    ZipReaderFinds();
    TotalLengths(ZIP, es);
    if EntriesFit(es) {
      forall i | 0 <= i < |es| ensures EntryFits(es[i]) { EachFits(es, i); }
    } else if OffsetAfter(es) < U32_LIMIT && forall i | 0 <= i < |es| :: EntryFits(es[i]) {
      PrefixesFit(es);
    }
  }
}
