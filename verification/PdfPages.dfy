/**
 * A reader that opens the documents of scripts/doc-fixtures.ts as a viewer does (ISO 32000-1, sections
 * 7.5.5, 7.7.2 and 7.7.3): from the end of the file to the trailer, from its root to the catalogue, the
 * page tree, the page, its content and its font, every hop by way of the cross-reference table.
 */
module PdfPages {
  import opened Prelude
  import opened Pieces
  import opened TinyPdf
  import opened PdfValues
  import Decimal

  // ---------------------------------------------------------------- what a viewer finds

  datatype Document = Document(content: string, mediaBox: seq<string>, subtype: string, baseFont: string)

  function NumberOf(w: string): Option<nat> {
    if w != "" && forall c <- w :: Decimal.IsDigit(c) then Some(Decimal.Value(w)) else None
  }

  /** `n 0 R`, as the words of a value or the first of an array. */
  function ReferenceIn(words: seq<string>): Option<nat> {
    if |words| >= 3 && words[1] == "0" && words[2] == "R" then NumberOf(words[0]) else None
  }

  function Reference(entries: seq<Entry>, key: string): Option<nat> {
    match Lookup(entries, key)
    case Some(Words(words)) => ReferenceIn(words)
    case _ => None
  }

  function FirstKid(entries: seq<Entry>): Option<nat> {
    match Lookup(entries, "Kids")
    case Some(Array(words)) => ReferenceIn(words)
    case _ => None
  }

  function Inner(entries: seq<Entry>, key: string): seq<Entry> {
    match Lookup(entries, key)
    case Some(Dictionary(inner)) => inner
    case _ => []
  }

  /** A dictionary that begins at `at`, and what follows it. */
  function DictionaryAt(pdf: string, at: nat, after: string): Option<seq<Entry>> {
    if !HasAt(pdf, "<<", at) then None
    else match ReadEntries(pdf[at + 2..])
      case None => None
      case Some((entries, rest)) => if after <= rest then Some(entries) else None
  }

  /** Where an object's header stands, for every number. */
  type Finder = nat -> Option<nat>

  /** Where object `number` itself begins, behind its header. */
  function ObjectAt(find: Finder, number: nat): Option<nat> {
    match find(number)
    case None => None
    case Some(offset) => Some(offset + |Decimal.Dec(number)| + 7)
  }

  /** The dictionary that object `number` is, if it says that it is of this type. */
  function Typed(pdf: string, find: Finder, number: Option<nat>, kind: string): Option<seq<Entry>> {
    if number.None? then None
    else match ObjectAt(find, number.value)
      case None => None
      case Some(at) =>
        match DictionaryAt(pdf, at, "\nendobj\n")
        case None => None
        case Some(entries) => if Lookup(entries, "Type") == Some(Name(kind)) then Some(entries) else None
  }

  /** The trailer stands behind the `count` entries of the table, the first of which is the free one. */
  function TrailerBehind(pdf: string, start: nat, count: nat): Option<seq<Entry>> {
    if !HasAt(pdf, "0000000000 65535 f \n", start) || !HasAt(pdf, "trailer\n", start + 20 * count) then None
    else match DictionaryAt(pdf, start + 20 * count + 8, "\nstartxref\n")
      case None => None
      case Some(entries) =>
        if Lookup(entries, "Size") == Some(Words([Decimal.Dec(count)])) then Some(entries) else None
  }

  function ReadTrailer(pdf: string): Option<seq<Entry>> {
    match ReadStartXref(pdf)
    case None => None
    case Some(xref) =>
      match ReadXrefHead(pdf, xref)
      case None => None
      case Some((start, count)) => TrailerBehind(pdf, start, count)
  }

  /** The font that a page's resources call F1. */
  function ReadFont(pdf: string, find: Finder, page: seq<Entry>): Option<(string, string)> {
    match Typed(pdf, find, Reference(Inner(Inner(page, "Resources"), "Font"), "F1"), "Font")
    case None => None
    case Some(font) =>
      match (Lookup(font, "Subtype"), Lookup(font, "BaseFont"))
      case (Some(Name(subtype)), Some(Name(baseFont))) => Some((subtype, baseFont))
      case _ => None
  }

  function ReadContents(pdf: string, find: Finder, page: seq<Entry>): Option<string> {
    match Reference(page, "Contents")
    case None => None
    case Some(number) =>
      match ObjectAt(find, number)
      case None => None
      case Some(at) => ReadStream(pdf, at)
  }

  function ReadPage(pdf: string, find: Finder, page: seq<Entry>): Option<Document> {
    match (ReadContents(pdf, find, page), ReadFont(pdf, find, page), Lookup(page, "MediaBox"))
    case (Some(content), Some((subtype, baseFont)), Some(Array(mediaBox))) =>
      Some(Document(content, mediaBox, subtype, baseFont))
    case _ => None
  }

  /** The first page, by way of the catalogue and a page tree that counts one page and is its parent. */
  function Walk(pdf: string, find: Finder, trailer: seq<Entry>): Option<Document> {
    match Typed(pdf, find, Reference(trailer, "Root"), "Catalog")
    case None => None
    case Some(catalog) =>
      match Typed(pdf, find, Reference(catalog, "Pages"), "Pages")
      case None => None
      case Some(pages) =>
        match Typed(pdf, find, FirstKid(pages), "Page")
        case None => None
        case Some(page) =>
          if Reference(page, "Parent") != Reference(catalog, "Pages") then None
          else if Lookup(pages, "Count") != Some(Words(["1"])) then None
          else ReadPage(pdf, find, page)
  }

  function ReadDocument(pdf: string): Option<Document> {
    if !HasAt(pdf, "%PDF-1.4\n", 0) then None
    else match ReadTrailer(pdf)
      case None => None
      case Some(trailer) => Walk(pdf, number => FindObject(pdf, number), trailer)
  }

  // ---------------------------------------------------------------- the five objects

  function Ref(number: string): Value { Words([number, "0", "R"]) }

  const CATALOG_ENTRIES: seq<Entry> := [Entry("Type", Name("Catalog")), Entry("Pages", Ref("2"))]

  const PAGES_ENTRIES: seq<Entry> :=
    [Entry("Type", Name("Pages")), Entry("Kids", Array(["3", "0", "R"])), Entry("Count", Words(["1"]))]

  const FONT_USED: seq<Entry> := [Entry("F1", Ref("5"))]

  const RESOURCE_ENTRIES: seq<Entry> := [Entry("Font", Dictionary(FONT_USED))]

  const PAGE_ENTRIES: seq<Entry> :=
    [Entry("Type", Name("Page")), Entry("Parent", Ref("2")), Entry("MediaBox", Array(["0", "0", "612", "792"])),
     Entry("Contents", Ref("4")), Entry("Resources", Dictionary(RESOURCE_ENTRIES))]

  const FONT_ENTRIES: seq<Entry> :=
    [Entry("Type", Name("Font")), Entry("Subtype", Name("Type1")), Entry("BaseFont", Name("Helvetica"))]

  function TrailerEntries(count: nat): seq<Entry> {
    [Entry("Size", Words([Decimal.Dec(count)])), Entry("Root", Ref("1"))]
  }

  function EntryText(e: Entry): string { " /" + (e.key + (" " + Spell(e.value))) }

  lemma SpellStep(entries: seq<Entry>)
    requires entries != []
    ensures SpellEntries(entries) == EntryText(entries[0]) + SpellEntries(entries[1..])
  {
    var key, value, more := entries[0].key, Spell(entries[0].value), SpellEntries(entries[1..]);
    assert " /" + (key + (" " + (value + more))) == " /" + (key + (" " + value)) + more;
  }

  lemma Associative(a: string, b: string, c: string)
    ensures (a + b) + c == a + (b + c)
  {
  }

  /** A dictionary whose entries are spelled by these texts is spelled by them in brackets. */
  lemma {:induction false} SpelledBy(entries: seq<Entry>, texts: seq<string>)
    requires |entries| == |texts| && forall i | 0 <= i < |texts| :: EntryText(entries[i]) == texts[i]
    ensures SpellEntries(entries) + " >>" == Closed(texts)
    decreases |entries|
  {
    if entries == [] {
      assert "" + " >>" == " >>";
    } else {
      SpelledBy(entries[1..], texts[1..]);
      SpellStep(entries);
      Associative(texts[0], SpellEntries(entries[1..]), " >>");
    }
  }

  lemma NameEntry(key: string, name: string, text: string)
    requires text == " /" + key + " /" + name
    ensures EntryText(Entry(key, Name(name))) == text
  {
  }

  lemma SpellRef(number: string)
    ensures SpellWords([number, "0", "R"]) == number + " 0 R"
  {
    assert [number, "0", "R"][1..] == ["0", "R"] && ["0", "R"][1..] == ["R"];
    assert SpellWords(["R"]) == "R" && SpellWords(["0", "R"]) == "0" + (" " + "R");
    assert number + (" " + ("0" + (" " + "R"))) == number + " 0 R";
  }

  lemma RefEntry(key: string, number: string, text: string)
    requires text == " /" + key + " " + number + " 0 R"
    ensures EntryText(Entry(key, Ref(number))) == text
  {
    SpellRef(number);
    assert " /" + (key + (" " + (number + " 0 R"))) == text;
  }

  lemma CatalogSpelled()
    ensures Spell(Dictionary(CATALOG_ENTRIES)) == CATALOG
  {
    NameEntry("Type", "Catalog", " /Type /Catalog");
    RefEntry("Pages", "2", " /Pages 2 0 R");
    SpelledBy(CATALOG_ENTRIES, [" /Type /Catalog", " /Pages 2 0 R"]);
  }

  lemma PagesSpelled()
    ensures Spell(Dictionary(PAGES_ENTRIES)) == PAGES
  {
    NameEntry("Type", "Pages", " /Type /Pages");
    SpellRef("3");
    assert " /" + ("Kids" + (" " + ("[" + ("3 0 R" + "]")))) == " /Kids [3 0 R]";
    assert " /" + ("Count" + (" " + "1")) == " /Count 1";
    SpelledBy(PAGES_ENTRIES, [" /Type /Pages", " /Kids [3 0 R]", " /Count 1"]);
  }

  lemma FontSpelled()
    ensures Spell(Dictionary(FONT_ENTRIES)) == FONT
  {
    NameEntry("Type", "Font", " /Type /Font");
    NameEntry("Subtype", "Type1", " /Subtype /Type1");
    NameEntry("BaseFont", "Helvetica", " /BaseFont /Helvetica");
    SpelledBy(FONT_ENTRIES, [" /Type /Font", " /Subtype /Type1", " /BaseFont /Helvetica"]);
  }

  lemma InnerEntry(key: string, inner: seq<Entry>, text: string, spelled: string)
    requires Spell(Dictionary(inner)) == spelled && text == " /" + key + " " + spelled
    ensures EntryText(Entry(key, Dictionary(inner))) == text
  {
  }

  lemma ResourcesSpelled()
    ensures Spell(Dictionary(RESOURCE_ENTRIES)) == RESOURCES
  {
    RefEntry("F1", "5", " /F1 5 0 R");
    SpelledBy(FONT_USED, [" /F1 5 0 R"]);
    var used := Bracketed([" /F1 5 0 R"]);
    assert " /Font " + used == " /" + "Font" + " " + used;
    InnerEntry("Font", FONT_USED, " /Font " + used, used);
    SpelledBy(RESOURCE_ENTRIES, [" /Font " + used]);
  }

  lemma BoxSpelled()
    ensures EntryText(Entry("MediaBox", Array(["0", "0", "612", "792"]))) == " /MediaBox [0 0 612 792]"
  {
    assert ["0", "0", "612", "792"][1..] == ["0", "612", "792"] && ["0", "612", "792"][1..] == ["612", "792"];
    assert ["612", "792"][1..] == ["792"] && SpellWords(["792"]) == "792";
    assert SpellWords(["612", "792"]) == "612" + (" " + "792");
    assert "0" + (" " + ("0" + (" " + ("612" + (" " + "792"))))) == "0 0 612 792";
    assert " /" + ("MediaBox" + (" " + ("[" + ("0 0 612 792" + "]")))) == " /MediaBox [0 0 612 792]";
  }

  lemma PageEntriesSpelled()
    ensures EntryText(PAGE_ENTRIES[0]) == " /Type /Page" && EntryText(PAGE_ENTRIES[1]) == " /Parent 2 0 R"
    ensures EntryText(PAGE_ENTRIES[2]) == " /MediaBox [0 0 612 792]" && EntryText(PAGE_ENTRIES[3]) == " /Contents 4 0 R"
  {
    NameEntry("Type", "Page", " /Type /Page");
    RefEntry("Parent", "2", " /Parent 2 0 R");
    BoxSpelled();
    RefEntry("Contents", "4", " /Contents 4 0 R");
  }

  lemma ResourcesEntrySpelled()
    ensures EntryText(PAGE_ENTRIES[4]) == " /Resources " + RESOURCES
  {
    ResourcesSpelled();
    assert " /Resources " + RESOURCES == " /" + "Resources" + " " + RESOURCES;
    InnerEntry("Resources", RESOURCE_ENTRIES, " /Resources " + RESOURCES, RESOURCES);
  }

  lemma PageSpelled()
    ensures Spell(Dictionary(PAGE_ENTRIES)) == PAGE
  {
    PageEntriesSpelled();
    ResourcesEntrySpelled();
    SpelledBy(PAGE_ENTRIES, [" /Type /Page", " /Parent 2 0 R", " /MediaBox [0 0 612 792]", " /Contents 4 0 R",
                             " /Resources " + RESOURCES]);
  }

  // ---------------------------------------------------------------- the walk

  lemma DictionaryReads(pdf: string, at: nat, entries: seq<Entry>, after: string)
    requires AllProper(entries) && HasAt(pdf, Spell(Dictionary(entries)) + after, at)
    ensures DictionaryAt(pdf, at, after) == Some(entries)
  {
    var inner := SpellEntries(entries);
    var tail := pdf[at + |inner| + 5 + |after|..];
    Opened(pdf, at, inner, after, tail);
    EntriesRead(pdf[at + 2..], entries, after + tail);
    assert after <= after + tail;
  }

  lemma Opened(pdf: string, at: nat, inner: string, after: string, tail: string)
    requires HasAt(pdf, "<<" + (inner + " >>") + after, at) && tail == pdf[at + |inner| + 5 + |after|..]
    ensures HasAt(pdf, "<<", at) && pdf[at + 2..] == inner + (" >>" + (after + tail))
  {
    var text := "<<" + (inner + " >>") + after;
    HasBoth(pdf, "<<" + (inner + " >>"), after, at);
    HasBoth(pdf, "<<", inner + " >>", at);
    assert pdf[at + 2..at + |text|] == text[2..] == inner + (" >>" + after);
    assert pdf[at + 2..] == pdf[at + 2..at + |text|] + tail;
  }

  /** This object stands, with its end, where a finder says that its number is. */
  predicate Stands(pdf: string, find: Finder, number: nat, text: string) {
    find(number).Some? && HasAt(pdf, text + "\nendobj\n", find(number).value + |Decimal.Dec(number)| + 7)
  }

  lemma TypedReads(pdf: string, find: Finder, number: nat, text: string, kind: string, entries: seq<Entry>)
    requires Stands(pdf, find, number, text) && text == Spell(Dictionary(entries))
    requires AllProper(entries) && Lookup(entries, "Type") == Some(Name(kind))
    ensures Typed(pdf, find, Some(number), kind) == Some(entries)
  {
    DictionaryReads(pdf, find(number).value + |Decimal.Dec(number)| + 7, entries, "\nendobj\n");
  }

  // ---------------------------------------------------------------- the trailer

  lemma TrailerSpelled(count: nat)
    ensures Trailer(count) + START_XREF
            == "trailer\n" + (Spell(Dictionary(TrailerEntries(count))) + "\nstartxref\n")
  {
    var digits := Decimal.Dec(count);
    var size, root := " /Size " + digits, " /Root 1 0 R";
    assert " /" + ("Size" + (" " + digits)) == size;
    RefEntry("Root", "1", root);
    SpelledBy(TrailerEntries(count), [size, root]);
    assert [size, root][1..] == [root] && [root][1..] == [];
    assert Closed([root]) == root + " >>";
    TrailerText(digits, size, root);
  }

  lemma TrailerText(digits: string, size: string, root: string)
    requires size == " /Size " + digits && root == " /Root 1 0 R"
    ensures "trailer\n<< /Size " + digits + " /Root 1 0 R >>\n" + START_XREF
            == "trailer\n" + ("<<" + (size + (root + " >>")) + "\nstartxref\n")
  {
    assert "trailer\n<< /Size " == "trailer\n" + ("<<" + " /Size ");
    assert " /Root 1 0 R >>\n" == root + (" >>" + "\n");
    assert "\nstartxref\n" == "\n" + START_XREF;
  }

  /** The free entry and the trailer enclose the others, which are 20 bytes each. */
  lemma TrailerStands(pdf: string, body: string, offsets: seq<nat>, trailer: string, start: nat, at: nat)
    requires pdf == Assemble(body, Table(offsets), trailer) && FitTenDigits(offsets)
    requires start == |body| + |XrefHead(|offsets| + 1)| - 20 && at == start + 20 * (|offsets| + 1)
    ensures HasAt(pdf, FREE_ENTRY, start) && HasAt(pdf, trailer + START_XREF, at)
  {
    var table, head := Table(offsets), XrefHead(|offsets| + 1);
    TableLength(offsets);
    TrailerInAssembled(body, table, trailer);
    AssembledParts(body, table, trailer);
    FreeEntryEndsHead(|offsets| + 1);
    FreeStands(pdf, table, head, Flatten(Each(XrefEntry, offsets)), |body|, start);
  }

  lemma FreeStands(pdf: string, table: string, head: string, entries: string, at: nat, start: nat)
    requires HasAt(pdf, table, at) && table == head + entries && |head| >= 20 && start == at + |head| - 20
    requires HasAt(head, FREE_ENTRY, |head| - 20)
    ensures HasAt(pdf, FREE_ENTRY, start)
  {
    HasBoth(pdf, head, entries, at);
    HasInside(pdf, head, at, FREE_ENTRY, |head| - 20);
  }

  lemma TableLength(offsets: seq<nat>)
    requires FitTenDigits(offsets)
    ensures |Table(offsets)| == |XrefHead(|offsets| + 1)| + 20 * |offsets|
  {
    var entries := Each(XrefEntry, offsets);
    forall i | 0 <= i < |entries| ensures |entries[i]| == 20 {
      assert offsets[i] in offsets;
      EntryIsTwentyBytes(offsets[i]);
    }
    EqualPieces(entries, 20, |entries|);
    assert entries[..|entries|] == entries;
  }

  lemma FreeEntryEndsHead(count: nat)
    ensures |FREE_ENTRY| == 20 && |XrefHead(count)| >= 20
    ensures HasAt(XrefHead(count), FREE_ENTRY, |XrefHead(count)| - 20)
  {
    var front := "xref\n0 " + (Decimal.Dec(count) + "\n");
    assert XrefHead(count) == front + FREE_ENTRY + "";
    HasMiddle(front, FREE_ENTRY, "");
  }

  lemma TrailerInAssembled(body: string, table: string, trailer: string)
    ensures HasAt(Assemble(body, table, trailer), trailer + START_XREF, |body| + |table|)
  {
    var rest := Decimal.Dec(|body|) + EOF_MARK;
    assert Assemble(body, table, trailer) == (body + table) + (trailer + START_XREF) + rest;
    HasMiddle(body + table, trailer + START_XREF, rest);
  }

  lemma BehindSteps(pdf: string, start: nat, count: nat, at: nat, entries: seq<Entry>)
    requires at == start + 20 * count && HasAt(pdf, FREE_ENTRY, start) && HasAt(pdf, "trailer\n", at)
    requires DictionaryAt(pdf, at + 8, "\nstartxref\n") == Some(entries)
    requires Lookup(entries, "Size") == Some(Words([Decimal.Dec(count)]))
    ensures TrailerBehind(pdf, start, count) == Some(entries)
  {
  }

  lemma TrailerFound(pdf: string, body: string, offsets: seq<nat>, count: nat, start: nat, at: nat)
    requires FitTenDigits(offsets) && count == |offsets| + 1 && pdf == Assemble(body, Table(offsets), Trailer(count))
    requires start == |body| + |XrefHead(count)| - 20 && at == start + 20 * count
    ensures HasAt(pdf, FREE_ENTRY, start)
    ensures HasAt(pdf, "trailer\n" + (Spell(Dictionary(TrailerEntries(count))) + "\nstartxref\n"), at)
  {
    TrailerStands(pdf, body, offsets, Trailer(count), start, at);
    TrailerSpelled(count);
  }

  lemma TrailerReadsAt(pdf: string, start: nat, count: nat, at: nat)
    requires at == start + 20 * count && HasAt(pdf, FREE_ENTRY, start)
    requires HasAt(pdf, "trailer\n" + (Spell(Dictionary(TrailerEntries(count))) + "\nstartxref\n"), at)
    ensures TrailerBehind(pdf, start, count) == Some(TrailerEntries(count))
  {
    var entries := TrailerEntries(count);
    TrailerProper(count);
    TrailerDictionary(pdf, at, entries);
    BehindSteps(pdf, start, count, at, entries);
  }

  lemma TableFound(pdf: string, body: string, offsets: seq<nat>, trailer: string, count: nat, start: nat)
    requires offsets != [] && FitTenDigits(offsets) && pdf == Assemble(body, Table(offsets), trailer)
    requires count == |offsets| + 1 && start == |body| + |XrefHead(count)| - |FREE_ENTRY|
    ensures ReadStartXref(pdf) == Some(|body|) && ReadXrefHead(pdf, |body|) == Some((start, count))
  {
    AssembledParts(body, Table(offsets), trailer);
    TableReads(pdf, |body|, offsets, 0, start);
  }

  lemma TrailerSteps(pdf: string, xref: nat, start: nat, count: nat, entries: seq<Entry>)
    requires ReadStartXref(pdf) == Some(xref) && ReadXrefHead(pdf, xref) == Some((start, count))
    requires TrailerBehind(pdf, start, count) == Some(entries)
    ensures ReadTrailer(pdf) == Some(entries)
  {
  }

  /** The trailer reads, and states the number of entries that the table announces. */
  lemma TrailerReads(pdf: string, body: string, offsets: seq<nat>, count: nat)
    requires offsets != [] && FitTenDigits(offsets) && count == |offsets| + 1
    requires pdf == Assemble(body, Table(offsets), Trailer(count))
    ensures ReadTrailer(pdf) == Some(TrailerEntries(count))
  {
    FreeEntryEndsHead(count);
    var start: nat := |body| + |XrefHead(count)| - 20;
    TrailerReadsFrom(pdf, body, offsets, count, start, start + 20 * count);
  }

  lemma TrailerReadsFrom(pdf: string, body: string, offsets: seq<nat>, count: nat, start: nat, at: nat)
    requires offsets != [] && FitTenDigits(offsets) && count == |offsets| + 1
    requires pdf == Assemble(body, Table(offsets), Trailer(count))
    requires start == |body| + |XrefHead(count)| - |FREE_ENTRY| && |FREE_ENTRY| == 20 && at == start + 20 * count
    ensures ReadTrailer(pdf) == Some(TrailerEntries(count))
  {
    TableFound(pdf, body, offsets, Trailer(count), count, start);
    TrailerFound(pdf, body, offsets, count, start, at);
    TrailerReadsAt(pdf, start, count, at);
    TrailerSteps(pdf, |body|, start, count, TrailerEntries(count));
  }

  lemma TrailerDictionary(pdf: string, at: nat, entries: seq<Entry>)
    requires AllProper(entries)
    requires HasAt(pdf, "trailer\n" + (Spell(Dictionary(entries)) + "\nstartxref\n"), at)
    ensures HasAt(pdf, "trailer\n", at) && DictionaryAt(pdf, at + 8, "\nstartxref\n") == Some(entries)
  {
    HasBoth(pdf, "trailer\n", Spell(Dictionary(entries)) + "\nstartxref\n", at);
    DictionaryReads(pdf, at + 8, entries, "\nstartxref\n");
  }

  // ---------------------------------------------------------------- the entries are proper

  lemma ProperStep(e: Entry, rest: seq<Entry>)
    requires IsWord(e.key) && Proper(e.value) && AllProper(rest)
    ensures AllProper([e] + rest)
  {
    assert ([e] + rest)[1..] == rest;
  }

  lemma ProperRef(number: string)
    requires IsWord(number)
    ensures Proper(Ref(number))
  {
    assert IsWord("0") && IsWord("R");
  }

  lemma TrailerProper(count: nat)
    ensures AllProper(TrailerEntries(count))
  {
    assert IsWord("Root") && IsWord("1");
    ProperRef("1");
    ProperStep(Entry("Root", Ref("1")), []);
    DecIsWord(count);
    assert IsWord("Size");
    ProperStep(Entry("Size", Words([Decimal.Dec(count)])), [Entry("Root", Ref("1"))]);
  }

  lemma DecIsWord(n: nat)
    ensures IsWord(Decimal.Dec(n))
  {
  }

  lemma KeyWords()
    ensures IsWord("Type") && IsWord("Pages") && IsWord("Kids") && IsWord("Count") && IsWord("Page")
  {
  }

  lemma PageWords()
    ensures IsWord("Parent") && IsWord("Contents") && IsWord("Resources") && IsWord("MediaBox") && IsWord("Font")
  {
  }

  lemma FontWords()
    ensures IsWord("Subtype") && IsWord("Type1") && IsWord("BaseFont") && IsWord("Helvetica") && IsWord("F1")
  {
  }

  lemma NumberWords()
    ensures IsWord("0") && IsWord("1") && IsWord("2") && IsWord("3") && IsWord("4") && IsWord("5") && IsWord("R")
    ensures IsWord("612") && IsWord("792") && IsWord("Catalog")
  {
  }

  lemma CatalogProper()
    ensures AllProper(CATALOG_ENTRIES)
  {
    KeyWords();
    NumberWords();
    ProperRef("2");
    ProperStep(Entry("Pages", Ref("2")), []);
    ProperStep(Entry("Type", Name("Catalog")), [Entry("Pages", Ref("2"))]);
  }

  lemma PagesProper()
    ensures AllProper(PAGES_ENTRIES)
  {
    KeyWords();
    NumberWords();
    var type_, kids, count := PAGES_ENTRIES[0], PAGES_ENTRIES[1], PAGES_ENTRIES[2];
    ProperStep(count, []);
    ProperStep(kids, [count]);
    ProperStep(type_, [kids, count]);
  }

  lemma FontProper()
    ensures AllProper(FONT_ENTRIES)
  {
    KeyWords();
    PageWords();
    FontWords();
    var type_, subtype, base := FONT_ENTRIES[0], FONT_ENTRIES[1], FONT_ENTRIES[2];
    ProperStep(base, []);
    ProperStep(subtype, [base]);
    ProperStep(type_, [subtype, base]);
  }

  lemma ResourcesProper()
    ensures Proper(Dictionary(RESOURCE_ENTRIES))
  {
    PageWords();
    FontWords();
    NumberWords();
    ProperRef("5");
    ProperStep(Entry("F1", Ref("5")), []);
    ProperStep(Entry("Font", Dictionary(FONT_USED)), []);
  }

  lemma LastEntriesProper()
    ensures AllProper([PAGE_ENTRIES[3], PAGE_ENTRIES[4]])
  {
    ResourcesProper();
    PageWords();
    NumberWords();
    ProperRef("4");
    ProperStep(PAGE_ENTRIES[4], []);
    ProperStep(PAGE_ENTRIES[3], [PAGE_ENTRIES[4]]);
  }

  lemma PageProper()
    ensures AllProper(PAGE_ENTRIES)
  {
    LastEntriesProper();
    KeyWords();
    PageWords();
    NumberWords();
    ProperRef("2");
    var es := PAGE_ENTRIES;
    ProperStep(es[2], [es[3], es[4]]);
    ProperStep(es[1], [es[2], es[3], es[4]]);
    ProperStep(es[0], [es[1], es[2], es[3], es[4]]);
  }

  // ---------------------------------------------------------------- the way to the page

  lemma SmallNumbers()
    ensures NumberOf("1") == Some(1) && NumberOf("2") == Some(2) && NumberOf("3") == Some(3)
    ensures NumberOf("4") == Some(4) && NumberOf("5") == Some(5)
  {
    assert "1"[..0] == "" && "2"[..0] == "" && "3"[..0] == "" && "4"[..0] == "" && "5"[..0] == "";
  }

  lemma Skips(entries: seq<Entry>, key: string)
    requires entries != [] && entries[0].key != key
    ensures Lookup(entries, key) == Lookup(entries[1..], key)
  {
  }

  lemma TrailerPoints(count: nat)
    ensures Reference(TrailerEntries(count), "Root") == Some(1)
  {
    SmallNumbers();
    Skips(TrailerEntries(count), "Root");
  }

  lemma CatalogPoints()
    ensures Lookup(CATALOG_ENTRIES, "Type") == Some(Name("Catalog")) && Reference(CATALOG_ENTRIES, "Pages") == Some(2)
  {
    SmallNumbers();
    Skips(CATALOG_ENTRIES, "Pages");
  }

  lemma PagesPoint()
    ensures Lookup(PAGES_ENTRIES, "Type") == Some(Name("Pages")) && FirstKid(PAGES_ENTRIES) == Some(3)
    ensures Lookup(PAGES_ENTRIES, "Count") == Some(Words(["1"]))
  {
    SmallNumbers();
    Skips(PAGES_ENTRIES, "Kids");
    Skips(PAGES_ENTRIES, "Count");
    Skips(PAGES_ENTRIES[1..], "Count");
  }

  lemma FontPoints()
    ensures Lookup(FONT_ENTRIES, "Type") == Some(Name("Font")) && Lookup(FONT_ENTRIES, "Subtype") == Some(Name("Type1"))
    ensures Lookup(FONT_ENTRIES, "BaseFont") == Some(Name("Helvetica"))
  {
    Skips(FONT_ENTRIES, "Subtype");
    Skips(FONT_ENTRIES, "BaseFont");
    Skips(FONT_ENTRIES[1..], "BaseFont");
  }

  lemma PagePoints()
    ensures Lookup(PAGE_ENTRIES, "Type") == Some(Name("Page")) && Reference(PAGE_ENTRIES, "Parent") == Some(2)
    ensures Lookup(PAGE_ENTRIES, "MediaBox") == Some(Array(["0", "0", "612", "792"]))
    ensures Reference(PAGE_ENTRIES, "Contents") == Some(4)
    ensures Lookup(PAGE_ENTRIES, "Resources") == Some(Dictionary(RESOURCE_ENTRIES))
  {
    var es := PAGE_ENTRIES;
    SmallNumbers();
    assert es[1..][1..] == es[2..] && es[2..][1..] == es[3..] && es[3..][1..] == es[4..];
    Skips(es, "Parent");
    Skips(es, "MediaBox");
    Skips(es[1..], "MediaBox");
    Skips(es, "Contents");
    Skips(es[1..], "Contents");
    Skips(es[2..], "Contents");
    Skips(es, "Resources");
    Skips(es[1..], "Resources");
    Skips(es[2..], "Resources");
    Skips(es[3..], "Resources");
  }

  lemma ResourcesPoint()
    ensures Reference(Inner(Inner(PAGE_ENTRIES, "Resources"), "Font"), "F1") == Some(5)
  {
    PagePoints();
    SmallNumbers();
  }

  // ---------------------------------------------------------------- every document opens

  lemma HeadLength(number: nat)
    ensures |ObjectHead(number)| == |Decimal.Dec(number)| + 7
  {
  }

  /** The cross-reference table finds every object. */
  lemma ObjectStandsFor(objects: seq<string>, i: nat, pdf: string, find: Finder, at: nat)
    requires i < |objects| && pdf == Pdf(objects) && at == Offset(objects, i) + |ObjectHead(i + 1)|
    requires find(i + 1) == Some(Offset(objects, i))
    ensures Stands(pdf, find, i + 1, objects[i])
  {
    ObjectEndsInPdf(objects, i, at);
    HeadLength(i + 1);
    FoundStands(pdf, find, i + 1, objects[i], Offset(objects, i), at);
  }

  lemma FoundStands(pdf: string, find: Finder, number: nat, text: string, offset: nat, at: nat)
    requires find(number) == Some(offset) && at == offset + |Decimal.Dec(number)| + 7
    requires HasAt(pdf, text + END_OBJECT, at)
    ensures Stands(pdf, find, number, text)
  {
  }

  lemma FiveStand(objects: seq<string>, pdf: string, find: Finder)
    requires |objects| == 5 && FitTenDigits(Offsets(objects)) && pdf == Pdf(objects)
    requires forall number :: find(number) == FindObject(pdf, number)
    ensures Stands(pdf, find, 1, objects[0]) && Stands(pdf, find, 2, objects[1]) && Stands(pdf, find, 3, objects[2])
    ensures Stands(pdf, find, 4, objects[3]) && Stands(pdf, find, 5, objects[4])
  {
    forall i: nat | i < 5 ensures Stands(pdf, find, i + 1, objects[i]) {
      CrossReferencesLand(objects, i);
      ObjectStandsFor(objects, i, pdf, find, Offset(objects, i) + |ObjectHead(i + 1)|);
    }
    assert Stands(pdf, find, 0 + 1, objects[0]) && Stands(pdf, find, 1 + 1, objects[1]);
    assert Stands(pdf, find, 2 + 1, objects[2]) && Stands(pdf, find, 3 + 1, objects[3]);
    assert Stands(pdf, find, 4 + 1, objects[4]);
  }

  lemma ContentsRead(pdf: string, find: Finder, content: string, page: seq<Entry>, number: nat)
    requires Reference(page, "Contents") == Some(number) && Stands(pdf, find, number, StreamObject(content))
    ensures ReadContents(pdf, find, page) == Some(content)
  {
    var at := find(number).value + |Decimal.Dec(number)| + 7;
    HasBoth(pdf, StreamObject(content), "\nendobj\n", at);
    StreamReads(pdf, content, at);
  }

  lemma FontTyped(pdf: string, find: Finder)
    requires Stands(pdf, find, 5, FONT)
    ensures Typed(pdf, find, Some(5), "Font") == Some(FONT_ENTRIES)
  {
    FontSpelled();
    FontProper();
    FontPoints();
    TypedReads(pdf, find, 5, FONT, "Font", FONT_ENTRIES);
  }

  lemma FontRead(pdf: string, find: Finder, page: seq<Entry>, font: seq<Entry>)
    requires Reference(Inner(Inner(page, "Resources"), "Font"), "F1") == Some(5)
    requires Typed(pdf, find, Some(5), "Font") == Some(font)
    requires Lookup(font, "Subtype") == Some(Name("Type1")) && Lookup(font, "BaseFont") == Some(Name("Helvetica"))
    ensures ReadFont(pdf, find, page) == Some(("Type1", "Helvetica"))
  {
  }

  lemma WalkSteps(pdf: string, find: Finder, trailer: seq<Entry>, document: Document)
    requires Reference(trailer, "Root") == Some(1) && Typed(pdf, find, Some(1), "Catalog") == Some(CATALOG_ENTRIES)
    requires Typed(pdf, find, Some(2), "Pages") == Some(PAGES_ENTRIES)
    requires Typed(pdf, find, Some(3), "Page") == Some(PAGE_ENTRIES)
    requires ReadPage(pdf, find, PAGE_ENTRIES) == Some(document)
    ensures Walk(pdf, find, trailer) == Some(document)
  {
    CatalogPoints();
    PagesPoint();
    PagePoints();
  }

  lemma CatalogTyped(pdf: string, find: Finder)
    requires Stands(pdf, find, 1, CATALOG)
    ensures Typed(pdf, find, Some(1), "Catalog") == Some(CATALOG_ENTRIES)
  {
    CatalogSpelled();
    CatalogProper();
    CatalogPoints();
    TypedReads(pdf, find, 1, CATALOG, "Catalog", CATALOG_ENTRIES);
  }

  lemma PagesTyped(pdf: string, find: Finder)
    requires Stands(pdf, find, 2, PAGES)
    ensures Typed(pdf, find, Some(2), "Pages") == Some(PAGES_ENTRIES)
  {
    PagesSpelled();
    PagesProper();
    PagesPoint();
    TypedReads(pdf, find, 2, PAGES, "Pages", PAGES_ENTRIES);
  }

  lemma PageTyped(pdf: string, find: Finder)
    requires Stands(pdf, find, 3, PAGE)
    ensures Typed(pdf, find, Some(3), "Page") == Some(PAGE_ENTRIES)
  {
    PageSpelled();
    PageProper();
    PagePoints();
    TypedReads(pdf, find, 3, PAGE, "Page", PAGE_ENTRIES);
  }

  lemma HeaderStands(objects: seq<string>)
    ensures HasAt(Pdf(objects), HEADER, 0)
  {
    AssembledParts(Body(objects), Table(Offsets(objects)), Trailer(|objects| + 1));
    HasBoth(Pdf(objects), HEADER, Flatten(Numbered(objects)), 0);
  }

  lemma PageSteps(pdf: string, find: Finder, page: seq<Entry>, content: string)
    requires ReadContents(pdf, find, page) == Some(content) && ReadFont(pdf, find, page) == Some(("Type1", "Helvetica"))
    requires Lookup(page, "MediaBox") == Some(Array(["0", "0", "612", "792"]))
    ensures ReadPage(pdf, find, page) == Some(Document(content, ["0", "0", "612", "792"], "Type1", "Helvetica"))
  {
  }

  lemma PageRead(pdf: string, find: Finder, content: string)
    requires Stands(pdf, find, 4, StreamObject(content)) && Stands(pdf, find, 5, FONT)
    ensures ReadPage(pdf, find, PAGE_ENTRIES)
            == Some(Document(content, ["0", "0", "612", "792"], "Type1", "Helvetica"))
  {
    PagePoints();
    ContentsRead(pdf, find, content, PAGE_ENTRIES, 4);
    FontTyped(pdf, find);
    ResourcesPoint();
    FontPoints();
    FontRead(pdf, find, PAGE_ENTRIES, FONT_ENTRIES);
    PageSteps(pdf, find, PAGE_ENTRIES, content);
  }

  /** Where the five objects stand, the way from the root to the content is clear. */
  lemma FiveLeadToPage(pdf: string, find: Finder, trailer: seq<Entry>, content: string)
    requires Reference(trailer, "Root") == Some(1)
    requires Stands(pdf, find, 1, CATALOG) && Stands(pdf, find, 2, PAGES) && Stands(pdf, find, 3, PAGE)
    requires Stands(pdf, find, 4, StreamObject(content)) && Stands(pdf, find, 5, FONT)
    ensures Walk(pdf, find, trailer)
            == Some(Document(content, ["0", "0", "612", "792"], "Type1", "Helvetica"))
  {
    CatalogTyped(pdf, find);
    PagesTyped(pdf, find);
    PageTyped(pdf, find);
    PageRead(pdf, find, content);
    WalkSteps(pdf, find, trailer, Document(content, ["0", "0", "612", "792"], "Type1", "Helvetica"));
  }

  lemma DocumentSteps(pdf: string, trailer: seq<Entry>, find: Finder, document: Document)
    requires HasAt(pdf, HEADER, 0) && ReadTrailer(pdf) == Some(trailer)
    requires find == (number => FindObject(pdf, number)) && Walk(pdf, find, trailer) == Some(document)
    ensures ReadDocument(pdf) == Some(document)
  {
  }

  /**
   * For every label, a viewer that follows the references from the trailer finds one page of US-letter
   * size, set in Helvetica, and its content.
   */
  lemma EveryDocumentOpens(label_: seq<CodeUnit>)
    requires |label_| < STRING_LIMIT
    ensures ReadDocument(Pdf(Objects(AsWritten(label_))))
            == Some(Document(Content(AsWritten(label_)), ["0", "0", "612", "792"], "Type1", "Helvetica"))
  {
    var title := AsWritten(label_);
    var objects := Objects(title);
    var pdf := Pdf(objects);
    var find: Finder := number => FindObject(pdf, number);
    var document := Document(Content(title), ["0", "0", "612", "792"], "Type1", "Helvetica");
    LabelFits(title);
    HeaderStands(objects);
    TrailerReads(pdf, Body(objects), Offsets(objects), 6);
    TrailerPoints(6);
    FiveStand(objects, pdf, find);
    FiveLeadToPage(pdf, find, TrailerEntries(6), Content(title));
    DocumentSteps(pdf, TrailerEntries(6), find, document);
  }
}
