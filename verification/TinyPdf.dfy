/**
 * The PDF writer of scripts/doc-fixtures.ts and a reader of its cross-reference table
 * (ISO 32000-1, sections 7.5.4 and 7.5.5).
 *
 * The file is `Buffer.from(body, "latin1")`: the low byte of each code unit of `body`, so a position
 * in the text is a position in the file. Text stands for its bytes here, one character below 256
 * each, and a label enters as those bytes (`AsWritten`).
 */
module TinyPdf {
  import opened Pieces
  import opened Prelude
  import opened Decimal

  const HEADER: string := "%PDF-1.4\n"

  // ---------------------------------------------------------------- what is written

  function Content(title: string): string {
    "BT /F1 18 Tf 72 720 Td (" + title + ") Tj ET"
  }

  const LENGTH: string := "<< /Length "
  const STREAM: string := " >>\nstream\n"
  const END_STREAM: string := "\nendstream"

  function StreamObject(content: string): string {
    LENGTH + Dec(|content|) + STREAM + content + END_STREAM
  }

  /** A dictionary of these entries; each brings the space before its key. */
  function Bracketed(entries: seq<string>): string { "<<" + Closed(entries) }

  function Closed(entries: seq<string>): string {
    if entries == [] then " >>" else entries[0] + Closed(entries[1..])
  }

  const CATALOG: string := Bracketed([" /Type /Catalog", " /Pages 2 0 R"])
  const PAGES: string := Bracketed([" /Type /Pages", " /Kids [3 0 R]", " /Count 1"])
  const RESOURCES: string := Bracketed([" /Font " + Bracketed([" /F1 5 0 R"])])
  const PAGE: string :=
    Bracketed([" /Type /Page", " /Parent 2 0 R", " /MediaBox [0 0 612 792]", " /Contents 4 0 R",
               " /Resources " + RESOURCES])
  const FONT: string := Bracketed([" /Type /Font", " /Subtype /Type1", " /BaseFont /Helvetica"])

  function Objects(title: string): seq<string> {
    [CATALOG, PAGES, PAGE, StreamObject(Content(title)), FONT]
  }

  function ObjectHead(number: nat): string { Dec(number) + " 0 obj\n" }

  const END_OBJECT: string := "\nendobj\n"

  function ObjectText(number: nat, object_: string): string { ObjectHead(number) + (object_ + END_OBJECT) }

  function Numbered(objects: seq<string>): (r: seq<string>)
    ensures |r| == |objects|
  {
    seq(|objects|, i requires 0 <= i < |objects| => ObjectText(i + 1, objects[i]))
  }

  function Body(objects: seq<string>): string { HEADER + Flatten(Numbered(objects)) }

  /** `body` when object `i + 1` is about to be appended. */
  function BodyBefore(objects: seq<string>, i: nat): string
    requires i <= |objects|
  {
    HEADER + Flatten(Numbered(objects)[..i])
  }

  function Offset(objects: seq<string>, i: nat): nat
    requires i <= |objects|
  {
    |BodyBefore(objects, i)|
  }

  function Offsets(objects: seq<string>): (r: seq<nat>)
    ensures |r| == |objects|
  {
    seq(|objects|, i requires 0 <= i < |objects| => Offset(objects, i))
  }

  function XrefEntry(offset: nat): string { PadStart(Dec(offset), 10) + " 00000 n \n" }

  function XrefHead(count: nat): string { "xref\n0 " + (Dec(count) + ("\n" + FREE_ENTRY)) }

  const FREE_ENTRY: string := "0000000000 65535 f \n"

  function Table(offsets: seq<nat>): string { XrefHead(|offsets| + 1) + Flatten(Each(XrefEntry, offsets)) }

  function Trailer(count: nat): string {
    "trailer\n<< /Size " + Dec(count) + " /Root 1 0 R >>\n"
  }

  const START_XREF: string := "startxref\n"

  const EOF_MARK: string := "\n%%EOF\n"

  function Assemble(body: string, table: string, trailer: string): string {
    body + table + (trailer + START_XREF + Dec(|body|)) + EOF_MARK
  }

  function Pdf(objects: seq<string>): string {
    Assemble(Body(objects), Table(Offsets(objects)), Trailer(|objects| + 1))
  }

  lemma BodyGrows(objects: seq<string>, i: nat)
    requires i < |objects|
    ensures BodyBefore(objects, i + 1) == BodyBefore(objects, i) + ObjectText(i + 1, objects[i])
    ensures Offsets(objects)[..i + 1] == Offsets(objects)[..i] + [Offset(objects, i)]
  {
    FlattenGrows(Numbered(objects), i);
  }

  /** The loop over the objects: the text grows while the offsets are pushed beside it. */
  method WriteObjects(objects: seq<string>) returns (body: string, offsets: seq<nat>)
    ensures body == Body(objects) && offsets == Offsets(objects)
  {
    body := HEADER;
    offsets := [];
    for i := 0 to |objects|
      invariant body == BodyBefore(objects, i) && offsets == Offsets(objects)[..i]
    {
      BodyGrows(objects, i);
      offsets := offsets + [|body|];
      body := body + ObjectText(i + 1, objects[i]);
    }
    assert Numbered(objects)[..|objects|] == Numbered(objects);
  }

  /** The loop over the offsets. */
  method WriteEntries(head: string, entry: nat -> string, offsets: seq<nat>) returns (table: string)
    ensures table == head + Flatten(Each(entry, offsets))
  {
    table := head;
    for k := 0 to |offsets|
      invariant table == head + Flatten(Each(entry, offsets)[..k])
    {
      EachGrows(entry, offsets, k);
      table := table + entry(offsets[k]);
    }
    assert Each(entry, offsets)[..|offsets|] == Each(entry, offsets);
  }

  /** `tinyPdf`. */
  method BuildTinyPdf(title: string) returns (pdf: string)
    ensures pdf == Pdf(Objects(title))
  {
    var objects := Objects(title);
    var body, offsets := WriteObjects(objects);
    var table := WriteEntries(XrefHead(|offsets| + 1), XrefEntry, offsets);
    pdf := body + table + (Trailer(|objects| + 1) + START_XREF + Dec(|body|)) + EOF_MARK;
  }

  // ---------------------------------------------------------------- what is read

  /** Section 7.5.5: the number on the line after `startxref`, read from the end of the file. */
  function ReadStartXref(pdf: string): Option<nat> {
    if |pdf| < |EOF_MARK| || pdf[|pdf| - |EOF_MARK|..] != EOF_MARK then None
    else
      var head := pdf[..|pdf| - |EOF_MARK|];
      var digits := TrailingDigits(head);
      var before := head[..|head| - |digits|];
      if digits == [] || |before| < 10 || before[|before| - 10..] != "startxref\n" then None
      else Some(Value(digits))
  }

  /** Section 7.5.4: where the entries of the table at `xref` begin, and how many it announces. */
  function ReadXrefHead(pdf: string, xref: nat): Option<(nat, nat)> {
    if !HasAt(pdf, "xref\n0 ", xref) then None
    else
      var digits := DigitsAt(pdf, xref + 7);
      var next := xref + 7 + |digits|;
      if digits == [] || !HasAt(pdf, "\n", next) then None else Some((next + 1, Value(digits)))
  }

  /** The offset in entry `i` of a table whose 20-byte entries begin at `start`. */
  function ReadXrefEntry(pdf: string, start: nat, i: nat): Option<nat> {
    var at := start + 20 * i;
    if at + 20 > |pdf| || !HasAt(pdf, " 00000 n \n", at + 10) then None
    else
      var digits := DigitsAt(pdf, at);
      if |digits| != 10 then None else Some(Value(digits))
  }

  /** The whole way to one object: `startxref`, the table, its entry, and the object's own header. */
  function FindObject(pdf: string, number: nat): Option<nat> {
    match ReadStartXref(pdf)
    case None => None
    case Some(xref) =>
      match ReadXrefHead(pdf, xref)
      case None => None
      case Some((start, count)) =>
        if number >= count then None
        else match ReadXrefEntry(pdf, start, number)
          case None => None
          case Some(offset) => if HasAt(pdf, ObjectHead(number), offset) then Some(offset) else None
  }

  /** Data between `opening` and `closing`, as long as the number between `first` and `opening` says. */
  function ReadCounted(s: string, at: nat, first: string, opening: string, closing: string): Option<string> {
    if !HasAt(s, first, at) then None
    else
      var digits := DigitsAt(s, at + |first|);
      var place := at + |first| + |digits|;
      var start := place + |opening|;
      if digits == [] || !HasAt(s, opening, place) || !HasAt(s, closing, start + Value(digits)) then None
      else Some(s[start..start + Value(digits)])
  }

  /** The data of the stream whose dictionary begins at `at`, cut out by its own `/Length`. */
  function ReadStream(pdf: string, at: nat): Option<string> {
    ReadCounted(pdf, at, LENGTH, STREAM, END_STREAM)
  }

  // ---------------------------------------------------------------- reading the pieces back

  lemma StartXrefReads(before: string, xref: nat)
    ensures ReadStartXref(before + START_XREF + Dec(xref) + EOF_MARK) == Some(xref)
  {
    var front, digits := before + START_XREF, Dec(xref);
    var pdf := front + digits + EOF_MARK;
    assert pdf[|pdf| - |EOF_MARK|..] == EOF_MARK;
    assert pdf[..|pdf| - |EOF_MARK|] == front + digits;
    assert front[|front| - 1] == '\n';
    TrailingFound(front, digits);
    assert (front + digits)[..|front + digits| - |digits|] == front;
    assert front[|front| - 10..] == START_XREF;
    ValueDec(xref);
  }

  lemma DigitsThen(s: string, ds: string, after: string, at: nat)
    requires HasAt(s, ds, at) && HasAt(s, after, at + |ds|) && AllDigits(ds) && after != [] && !IsDigit(after[0])
    ensures DigitsAt(s, at) == ds
  {
    assert s[at + |ds|] == s[at + |ds|..at + |ds| + |after|][0];
    DigitsFound(s, at, ds);
  }

  lemma NumberBetween(s: string, before: string, n: nat, newline: string, after: string, at: nat,
                      place: nat, middle: nat)
    requires HasAt(s, before + (Dec(n) + (newline + after)), at) && newline != [] && !IsDigit(newline[0])
    requires place == at + |before| && middle == place + |Dec(n)|
    ensures HasAt(s, before, at) && DigitsAt(s, place) == Dec(n) && Value(DigitsAt(s, place)) == n
    ensures HasAt(s, newline, middle)
  {
    HasBothAt(s, before, Dec(n) + (newline + after), at, place);
    HasBothAt(s, Dec(n), newline + after, place, middle);
    HasBoth(s, newline, after, middle);
    CountFound(s, place, n, newline, middle);
  }

  lemma XrefHeadReads(pdf: string, xref: nat, count: nat, start: nat)
    requires HasAt(pdf, XrefHead(count), xref) && start == xref + |XrefHead(count)| - |FREE_ENTRY|
    ensures ReadXrefHead(pdf, xref) == Some((start, count))
  {
    NumberBetween(pdf, "xref\n0 ", count, "\n", FREE_ENTRY, xref, xref + 7, xref + 7 + |Dec(count)|);
  }

  lemma XrefEntryReads(pdf: string, start: nat, i: nat, offset: nat, at: nat)
    requires offset < PowerOfTen(10) && HasAt(pdf, XrefEntry(offset), at) && at == start + 20 * i
    ensures ReadXrefEntry(pdf, start, i) == Some(offset)
  {
    var digits, after := PadStart(Dec(offset), 10), " 00000 n \n";
    DecLength(offset, 10);
    HasBoth(pdf, digits, after, at);
    assert pdf[at + 10] == pdf[at + 10..at + 20][0];
    DigitsFound(pdf, at, digits);
    ValuePadded(offset, 10);
  }

  /** An entry is 20 bytes exactly when its offset has at most ten digits. */
  lemma EntryIsTwentyBytes(offset: nat)
    ensures |XrefEntry(offset)| == 20 <==> offset < PowerOfTen(10)
  {
    DecLength(offset, 10);
  }

  ghost predicate FitTenDigits(offsets: seq<nat>) {
    forall offset <- offsets :: offset < PowerOfTen(10)
  }

  /** Entry `i` of a table that begins at `at`. */
  lemma EntryStands(pdf: string, offsets: seq<nat>, at: nat, i: nat, place: nat)
    requires i < |offsets| && FitTenDigits(offsets)
    requires HasAt(pdf, Flatten(Each(XrefEntry, offsets)), at) && place == at + 20 * i
    ensures HasAt(pdf, XrefEntry(offsets[i]), place)
  {
    forall x <- offsets ensures |XrefEntry(x)| == 20 { EntryIsTwentyBytes(x); }
    EqualEach(XrefEntry, offsets, 20, i, 20 * i);
    HasInside(pdf, Flatten(Each(XrefEntry, offsets)), at, XrefEntry(offsets[i]), 20 * i);
  }

  lemma EntryReads(pdf: string, offsets: seq<nat>, at: nat, i: nat, start: nat)
    requires i < |offsets| && FitTenDigits(offsets)
    requires HasAt(pdf, Flatten(Each(XrefEntry, offsets)), at) && at == start + 20
    ensures ReadXrefEntry(pdf, start, i + 1) == Some(offsets[i])
  {
    var place := at + 20 * i;
    EntryStands(pdf, offsets, at, i, place);
    assert offsets[i] in offsets;
    XrefEntryReads(pdf, start, i + 1, offsets[i], place);
  }

  /** The table, wherever it stands, announces one entry more than there are offsets and gives each of them. */
  lemma TableReads(pdf: string, xref: nat, offsets: seq<nat>, i: nat, start: nat)
    requires i < |offsets| && FitTenDigits(offsets)
    requires HasAt(pdf, Table(offsets), xref) && start == xref + |XrefHead(|offsets| + 1)| - |FREE_ENTRY|
    ensures ReadXrefHead(pdf, xref) == Some((start, |offsets| + 1))
    ensures ReadXrefEntry(pdf, start, i + 1) == Some(offsets[i])
  {
    var head := XrefHead(|offsets| + 1);
    HasBoth(pdf, head, Flatten(Each(XrefEntry, offsets)), xref);
    XrefHeadReads(pdf, xref, |offsets| + 1, start);
    EntryReads(pdf, offsets, xref + |head|, i, start);
  }

  // ---------------------------------------------------------------- the whole way

  lemma Reassociate(a: string, b: string, c: string, d: string, e: string, f: string)
    ensures a + b + (c + d + e) + f == (a + b + c) + d + e + f
    ensures HasAt(a + b + (c + d + e) + f, a, 0) && HasAt(a + b + (c + d + e) + f, b, |a|)
  {
    var rest := c + d + e + f;
    assert a + b + (c + d + e) + f == a + b + rest;
    HasMiddle(a, b, rest);
    assert HasAt(a + b + rest, a, 0);
  }

  /** Where the parts of the file stand, and that `startxref` tells the place of the second. */
  lemma AssembledParts(body: string, table: string, trailer: string)
    ensures HasAt(Assemble(body, table, trailer), body, 0)
    ensures HasAt(Assemble(body, table, trailer), table, |body|)
    ensures ReadStartXref(Assemble(body, table, trailer)) == Some(|body|)
  {
    Reassociate(body, table, trailer, START_XREF, Dec(|body|), EOF_MARK);
    StartXrefReads(body + table + trailer, |body|);
  }

  lemma FindObjectSteps(pdf: string, number: nat, xref: nat, start: nat, count: nat, offset: nat)
    requires ReadStartXref(pdf) == Some(xref) && ReadXrefHead(pdf, xref) == Some((start, count))
    requires number < count && ReadXrefEntry(pdf, start, number) == Some(offset)
    requires HasAt(pdf, ObjectHead(number), offset)
    ensures FindObject(pdf, number) == Some(offset)
  {
  }

  /** A file of these parts leads from its end to the object whose head stands at the i-th offset. */
  lemma FollowsTo(pdf: string, body: string, offsets: seq<nat>, trailer: string, i: nat)
    requires pdf == Assemble(body, Table(offsets), trailer) && i < |offsets| && FitTenDigits(offsets)
    requires HasAt(body, ObjectHead(i + 1), offsets[i])
    ensures FindObject(pdf, i + 1) == Some(offsets[i])
  {
    var head, count := ObjectHead(i + 1), |offsets| + 1;
    assert |FREE_ENTRY| == 20;
    var start := |body| + |XrefHead(count)| - |FREE_ENTRY|;
    AssembledParts(body, Table(offsets), trailer);
    HasInside(pdf, body, 0, head, offsets[i]);
    TableReads(pdf, |body|, offsets, i, start);
    FindObjectSteps(pdf, i + 1, |body|, start, count, offsets[i]);
  }

  /** Object `i + 1` stands in the body at the i-th offset, first its head and then, at `at`, itself. */
  lemma ObjectStands(objects: seq<string>, i: nat, at: nat)
    requires i < |objects| && at == Offset(objects, i) + |ObjectHead(i + 1)|
    ensures HasAt(Body(objects), ObjectHead(i + 1), Offset(objects, i))
    ensures HasAt(Body(objects), objects[i], at)
  {
    PieceStands(Numbered(objects), i);
    HasBoth(Body(objects), ObjectHead(i + 1), objects[i] + END_OBJECT, Offset(objects, i));
    HasBoth(Body(objects), objects[i], END_OBJECT, at);
  }

  /**
   * The cross-references land: following `startxref`, the table and entry `i + 1` leads to the
   * position where object `i + 1` begins, for every list of objects whose offsets fit ten digits.
   */
  lemma CrossReferencesLand(objects: seq<string>, i: nat)
    requires i < |objects| && FitTenDigits(Offsets(objects))
    ensures FindObject(Pdf(objects), i + 1) == Some(Offset(objects, i))
  {
    ObjectStands(objects, i, Offset(objects, i) + |ObjectHead(i + 1)|);
    FollowsTo(Pdf(objects), Body(objects), Offsets(objects), Trailer(|objects| + 1), i);
  }

  lemma HasBothAt(s: string, first: string, rest: string, at: nat, place: nat)
    requires HasAt(s, first + rest, at) && place == at + |first|
    ensures HasAt(s, first, at) && HasAt(s, rest, place)
  {
    HasBoth(s, first, rest, at);
  }

  lemma CountedParts(s: string, at: nat, first: string, count: string,
                     opening: string, content: string, closing: string,
                     place: nat, middle: nat, start: nat, end: nat)
    requires HasAt(s, first + count + opening + content + closing, at)
    requires place == at + |first| && middle == place + |count|
    requires start == middle + |opening| && end == start + |content|
    ensures HasAt(s, first, at) && HasAt(s, count, place) && HasAt(s, opening, middle)
    ensures HasAt(s, content, start) && HasAt(s, closing, end)
  {
    HasBothAt(s, first + count + opening + content, closing, at, end);
    HasBothAt(s, first + count + opening, content, at, start);
    HasBothAt(s, first + count, opening, at, middle);
    HasBothAt(s, first, count, at, place);
  }

  lemma CountFound(s: string, place: nat, n: nat, opening: string, middle: nat)
    requires HasAt(s, Dec(n), place) && HasAt(s, opening, middle) && middle == place + |Dec(n)|
    requires opening != [] && !IsDigit(opening[0])
    ensures place <= |s| && DigitsAt(s, place) == Dec(n) && Value(DigitsAt(s, place)) == n
  {
    DigitsThen(s, Dec(n), opening, place);
    ValueDec(n);
  }

  lemma CountedReads(s: string, at: nat, first: string, digits: string, opening: string, content: string,
                     closing: string, place: nat, middle: nat, start: nat)
    requires place == at + |first| && middle == place + |digits| && start == middle + |opening|
    requires place <= |s| && digits != [] && DigitsAt(s, place) == digits && Value(digits) == |content|
    requires HasAt(s, first, at) && HasAt(s, opening, middle)
    requires HasAt(s, content, start) && HasAt(s, closing, start + |content|)
    ensures ReadCounted(s, at, first, opening, closing) == Some(content)
  {
  }

  lemma StreamReads(pdf: string, content: string, at: nat)
    requires HasAt(pdf, StreamObject(content), at)
    ensures ReadStream(pdf, at) == Some(content)
  {
    var digits := Dec(|content|);
    var place := at + |LENGTH|;
    var middle := place + |digits|;
    var start := middle + |STREAM|;
    CountedParts(pdf, at, LENGTH, digits, STREAM, content, END_STREAM, place, middle, start, start + |content|);
    CountFound(pdf, place, |content|, STREAM, middle);
    CountedReads(pdf, at, LENGTH, digits, STREAM, content, END_STREAM, place, middle, start);
  }

  lemma InAssembled(body: string, table: string, trailer: string, piece: string, at: nat)
    requires HasAt(body, piece, at)
    ensures HasAt(Assemble(body, table, trailer), piece, at)
  {
    AssembledParts(body, table, trailer);
    HasInside(Assemble(body, table, trailer), body, 0, piece, at);
  }

  lemma ObjectInPdf(objects: seq<string>, i: nat, at: nat)
    requires i < |objects| && at == Offset(objects, i) + |ObjectHead(i + 1)|
    ensures HasAt(Pdf(objects), objects[i], at)
  {
    ObjectStands(objects, i, at);
    InAssembled(Body(objects), Table(Offsets(objects)), Trailer(|objects| + 1), objects[i], at);
  }

  lemma ObjectEnds(objects: seq<string>, i: nat, text: string, at: nat)
    requires i < |objects| && at == Offset(objects, i) + |ObjectHead(i + 1)| && text == objects[i] + END_OBJECT
    ensures HasAt(Body(objects), text, at)
  {
    PieceStands(Numbered(objects), i);
    HasBoth(Body(objects), ObjectHead(i + 1), text, Offset(objects, i));
  }

  lemma ObjectEndsInPdf(objects: seq<string>, i: nat, at: nat)
    requires i < |objects| && at == Offset(objects, i) + |ObjectHead(i + 1)|
    ensures HasAt(Pdf(objects), objects[i] + END_OBJECT, at)
  {
    var text := objects[i] + END_OBJECT;
    ObjectEnds(objects, i, text, at);
    InAssembled(Body(objects), Table(Offsets(objects)), Trailer(|objects| + 1), text, at);
  }

  /** The stream of object `i + 1` reads back by its own `/Length`, whatever its content holds. */
  lemma StreamInPdf(objects: seq<string>, i: nat, content: string, at: nat)
    requires i < |objects| && objects[i] == StreamObject(content)
    requires at == Offset(objects, i) + |ObjectHead(i + 1)|
    ensures ReadStream(Pdf(objects), at) == Some(content)
  {
    ObjectInPdf(objects, i, at);
    StreamReads(Pdf(objects), content, at);
  }

  // ---------------------------------------------------------------- for every label

  /** More code units than a JavaScript string can have. */
  const STRING_LIMIT: int := 0x4000_0000

  lemma {:induction false} BracketedBound(entries: seq<string>)
    requires forall i | 0 <= i < |entries| :: |entries[i]| <= 50
    ensures |Bracketed(entries)| <= 5 + 50 * |entries|
  {
    if entries != [] { BracketedBound(entries[1..]); }
  }

  lemma ResourcesLength()
    ensures |RESOURCES| <= 36
  {
    var inner := [" /F1 5 0 R"];
    assert inner[1..] == [] && |Bracketed(inner)| == 15;
    var outer := [" /Font " + Bracketed(inner)];
    assert outer[1..] == [] && |Bracketed(outer)| == 27;
  }

  lemma FixedObjects()
    ensures |CATALOG| <= 300 && |PAGES| <= 300 && |PAGE| <= 300 && |FONT| <= 300
  {
    BracketedBound([" /Type /Catalog", " /Pages 2 0 R"]);
    BracketedBound([" /Type /Pages", " /Kids [3 0 R]", " /Count 1"]);
    BracketedBound([" /Type /Font", " /Subtype /Type1", " /BaseFont /Helvetica"]);
    ResourcesLength();
    BracketedBound([" /Type /Page", " /Parent 2 0 R", " /MediaBox [0 0 612 792]", " /Contents 4 0 R",
                    " /Resources " + RESOURCES]);
  }

  lemma ObjectLengths(title: string, i: nat)
    requires |title| < STRING_LIMIT && i < 5
    ensures |Numbered(Objects(title))[i]| <= STRING_LIMIT + 400
  {
    FixedObjects();
    DecLength(i + 1, 1);
    DecLength(|Content(title)|, 10);
  }

  lemma LabelFits(title: string)
    requires |title| < STRING_LIMIT
    ensures FitTenDigits(Offsets(Objects(title)))
  {
    var objects := Objects(title);
    forall i | 0 <= i < |objects| ensures |Numbered(objects)[i]| <= STRING_LIMIT + 400 { ObjectLengths(title, i); }
    forall offset | offset in Offsets(objects) ensures offset < PowerOfTen(10)
    {
      var i :| 0 <= i < |objects| && offset == Offsets(objects)[i];
      FlattenBound(Numbered(objects), STRING_LIMIT + 400, i);
    }
  }

  lemma ObjectsShape(title: string)
    ensures |Objects(title)| == 5 && Objects(title)[3] == StreamObject(Content(title))
  {
  }

  /** What the file holds of a label: the low byte of each of its code units. */
  function AsWritten(label_: seq<CodeUnit>): (title: string)
    ensures |title| == |label_|
  {
    Each((u: CodeUnit) => (u % 256) as char, label_)
  }

  /** For every label a string can hold, every cross-reference lands on its object. */
  lemma EveryLabelLands(label_: seq<CodeUnit>, i: nat)
    requires |label_| < STRING_LIMIT && i < 5
    ensures var objects := Objects(AsWritten(label_));
            |objects| == 5 && FindObject(Pdf(objects), i + 1) == Some(Offset(objects, i))
  {
    var title := AsWritten(label_);
    LabelFits(title);
    CrossReferencesLand(Objects(title), i);
  }

  /**
   * And `/Length` is the stream's true length: it cuts out exactly the content, also where the label
   * holds `endstream` or a whole object.
   */
  lemma EveryLabelReads(label_: seq<CodeUnit>, at: nat)
    requires at == Offset(Objects(AsWritten(label_)), 3) + |ObjectHead(4)|
    ensures ReadStream(Pdf(Objects(AsWritten(label_))), at) == Some(Content(AsWritten(label_)))
  {
    var title := AsWritten(label_);
    ObjectsShape(title);
    StreamInPdf(Objects(title), 3, Content(title), at);
  }
}
