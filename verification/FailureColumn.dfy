/**
 * The `deliveryFailureReason` column (src/server/repositories/lead.ts).
 *
 * One nullable text column serves two independent sends: entries `kind:code` joined by `;`.
 * The functions below are the column arithmetic of `recordDeliveryFailure` and
 * `markDeliverySent`, character for character; the lemmas show that it is a map from
 * kind to code in disguise.
 */
module FailureColumn {
  import opened Pieces
  import opened Prelude

  datatype DeliveryKind = Notify | Confirm
  datatype FailureCode = Provider | Transport | Unconfigured

  function KindText(kind: DeliveryKind): string {
    match kind case Notify => "notify" case Confirm => "confirm"
  }

  function CodeText(code: FailureCode): string {
    match code case Provider => "provider" case Transport => "transport" case Unconfigured => "unconfigured"
  }

  function DeliveryFailure(kind: DeliveryKind, code: FailureCode): string {
    KindText(kind) + ":" + CodeText(code)
  }

  type Column = Option<string>

  // ---------------------------------------------------------- the column operations

  predicate IsBlank(s: string) {
    forall c <- s :: IsSpace(c)
  }

  /** The `filter` both writers apply: drop blank pieces and the pieces of one kind. */
  function Keep(parts: seq<string>, kind: string): seq<string> {
    if parts == [] then []
    else
      var rest := Keep(parts[1..], kind);
      if !IsBlank(parts[0]) && Split(parts[0], ':')[0] != kind then [parts[0]] + rest else rest
  }

  function Kept(column: Column, kind: string): seq<string> {
    Keep(Split(if column.Some? then column.value else "", ';'), kind)
  }

  /** Of a column's pieces, whatever they are, exactly the blank ones and those of one kind go. */
  lemma {:induction false} KeepsIff(parts: seq<string>, kind: string, piece: string)
    ensures piece in Keep(parts, kind) <==> piece in parts && !IsBlank(piece) && Split(piece, ':')[0] != kind
  {
    if parts != [] {
      KeepsIff(parts[1..], kind, piece);
      assert piece in parts <==> piece == parts[0] || piece in parts[1..];
    }
  }

  /** What `recordDeliveryFailure` writes. */
  function RecordFailure(column: Column, reason: string): Column {
    Some(Join(Kept(column, Split(reason, ':')[0]) + [reason], ";"))
  }

  /** What `markDeliverySent` writes to the column. */
  function MarkSent(column: Column, kind: DeliveryKind): Column {
    var kept := Kept(column, KindText(kind));
    if |kept| > 0 then Some(Join(kept, ";")) else None
  }

  /** The reason half of the replay query's `where`: null, or containing `notify:unconfigured`. */
  predicate ReplayableColumn(column: Column) {
    column.None? || Contains(column.value, "notify:unconfigured")
  }

  // ---------------------------------------------------------- its meaning as a map

  type Entry = (DeliveryKind, FailureCode)

  /** A list of entries holding at most one entry per kind. */
  ghost predicate OnePerKind(es: seq<Entry>) {
    forall i, j | 0 <= i < j < |es| :: es[i].0 != es[j].0
  }

  function Texts(es: seq<Entry>): (ts: seq<string>)
    ensures |ts| == |es|
    ensures forall i | 0 <= i < |es| :: ts[i] == DeliveryFailure(es[i].0, es[i].1)
  {
    seq(|es|, i requires 0 <= i < |es| => DeliveryFailure(es[i].0, es[i].1))
  }

  function Encode(es: seq<Entry>): Column {
    if es == [] then None else Some(Join(Texts(es), ";"))
  }

  function Without(es: seq<Entry>, kind: DeliveryKind): (r: seq<Entry>)
    ensures forall e :: e in r <==> e in es && e.0 != kind
    ensures OnePerKind(es) ==> OnePerKind(r)
  {
    if es == [] then []
    else if es[0].0 == kind then Without(es[1..], kind)
    else [es[0]] + Without(es[1..], kind)
  }

  function AsMap(es: seq<Entry>): (m: map<DeliveryKind, FailureCode>)
    ensures forall k :: k in m <==> exists c :: (k, c) in es
    ensures forall k | k in m :: (k, m[k]) in es
  {
    if es == [] then map[] else AsMap(es[1..])[es[0].0 := es[0].1]
  }

  /** The six reasons, as the operator reads them and as the replay query spells one of them. */
  lemma ReasonTexts()
    ensures DeliveryFailure(Notify, Provider) == "notify:provider"
    ensures DeliveryFailure(Notify, Transport) == "notify:transport"
    ensures DeliveryFailure(Notify, Unconfigured) == "notify:unconfigured"
    ensures DeliveryFailure(Confirm, Provider) == "confirm:provider"
    ensures DeliveryFailure(Confirm, Transport) == "confirm:transport"
    ensures DeliveryFailure(Confirm, Unconfigured) == "confirm:unconfigured"
  {
  }

  lemma EntryText(kind: DeliveryKind, code: FailureCode)
    ensures Split(DeliveryFailure(kind, code), ':')[0] == KindText(kind)
    ensures !IsBlank(DeliveryFailure(kind, code))
    ensures ';' !in DeliveryFailure(kind, code)
  {
    var head, tail := KindText(kind), CodeText(code);
    EntryShape(head, tail);
  }

  lemma EntryShape(head: string, tail: string)
    requires ':' !in head && ';' !in head && ';' !in tail
    requires head != [] && !IsSpace(head[0])
    ensures Split(head + ":" + tail, ':')[0] == head
    ensures !IsBlank(head + ":" + tail)
    ensures ';' !in head + ":" + tail
  {
    SplitHead(head, tail, ':');
    assert (head + ":" + tail)[0] == head[0];
  }

  lemma KeepStep(first: string, head: string, rest: seq<string>, kind: string)
    requires !IsBlank(first) && Split(first, ':')[0] == head
    ensures Keep([first] + rest, kind) == if head == kind then Keep(rest, kind) else [first] + Keep(rest, kind)
  {
    assert ([first] + rest)[1..] == rest;
  }

  lemma {:induction false} KeepTextsBy(text: Entry -> string, head: DeliveryKind -> string,
                                       es: seq<Entry>, kind: DeliveryKind)
    requires forall e :: !IsBlank(text(e)) && Split(text(e), ':')[0] == head(e.0)
    requires forall a, b | head(a) == head(b) :: a == b
    ensures Keep(Each(text, es), head(kind)) == Each(text, Without(es, kind))
  {
    if es == [] {
    } else {
      KeepTextsBy(text, head, es[1..], kind);
      EachStep(text, es[0], es[1..]);
      EachStep(text, es[0], Without(es[1..], kind));
      assert es == [es[0]] + es[1..];
      KeepStep(text(es[0]), head(es[0].0), Each(text, es[1..]), head(kind));
    }
  }

  lemma KeepTexts(es: seq<Entry>, kind: DeliveryKind)
    ensures Keep(Texts(es), KindText(kind)) == Texts(Without(es, kind))
  {
    var text := (e: Entry) => DeliveryFailure(e.0, e.1);
    var head := (k: DeliveryKind) => KindText(k);
    forall e: Entry ensures !IsBlank(text(e)) && Split(text(e), ':')[0] == head(e.0) {
      EntryText(e.0, e.1);
    }
    KeepTextsBy(text, head, es, kind);
    assert Each(text, es) == Texts(es) && Each(text, Without(es, kind)) == Texts(Without(es, kind));
  }

  lemma KeptEncoded(es: seq<Entry>, kind: DeliveryKind)
    ensures Kept(Encode(es), KindText(kind)) == Texts(Without(es, kind))
  {
    if es != [] {
      forall t <- Texts(es) ensures ';' !in t {
        var i :| 0 <= i < |es| && Texts(es)[i] == t;
        EntryText(es[i].0, es[i].1);
      }
      SplitJoin(Texts(es), ';');
      KeepTexts(es, kind);
    } else {
      assert Split("", ';') == [""];
      assert IsBlank("");
      assert Keep([""], KindText(kind)) == Keep([""][1..], KindText(kind));
    }
  }

  /** The entries of a list with one entry per kind are the items of its map. */
  lemma {:induction false} Items(es: seq<Entry>)
    requires OnePerKind(es)
    ensures forall k, c :: (k, c) in es <==> k in AsMap(es) && AsMap(es)[k] == c
  {
    if es != [] {
      Items(es[1..]);
      assert forall e :: e in es <==> e == es[0] || e in es[1..];
    }
  }

  lemma SameMap(es: seq<Entry>, m: map<DeliveryKind, FailureCode>)
    requires OnePerKind(es)
    requires forall k, c :: (k, c) in es <==> k in m && m[k] == c
    ensures AsMap(es) == m
  {
    Items(es);
    var n := AsMap(es);
    forall k ensures k in n <==> k in m
    {
      if k in n { assert (k, n[k]) in es; }
      if k in m { assert (k, m[k]) in es; }
    }
    forall k | k in n ensures n[k] == m[k]
    {
      assert (k, n[k]) in es;
    }
  }

  /** Recording a failure replaces that kind's entry and leaves the other kind alone. */
  lemma RecordReplacesOneKind(es: seq<Entry>, kind: DeliveryKind, code: FailureCode)
    requires OnePerKind(es)
    ensures RecordFailure(Encode(es), DeliveryFailure(kind, code)) == Encode(Without(es, kind) + [(kind, code)])
    ensures OnePerKind(Without(es, kind) + [(kind, code)])
    ensures AsMap(Without(es, kind) + [(kind, code)]) == AsMap(es)[kind := code]
  {
    RecordText(es, kind, code);
    RecordMap(es, kind, code);
  }

  lemma RecordText(es: seq<Entry>, kind: DeliveryKind, code: FailureCode)
    ensures RecordFailure(Encode(es), DeliveryFailure(kind, code)) == Encode(Without(es, kind) + [(kind, code)])
  {
    EntryText(kind, code);
    KeptEncoded(es, kind);
    assert Texts(Without(es, kind) + [(kind, code)]) == Texts(Without(es, kind)) + [DeliveryFailure(kind, code)];
  }

  lemma RecordMap(es: seq<Entry>, kind: DeliveryKind, code: FailureCode)
    requires OnePerKind(es)
    ensures OnePerKind(Without(es, kind) + [(kind, code)])
    ensures AsMap(Without(es, kind) + [(kind, code)]) == AsMap(es)[kind := code]
  {
    var next, m := Without(es, kind) + [(kind, code)], AsMap(es)[kind := code];
    forall i | 0 <= i < |next| - 1 ensures next[i].0 != kind
    {
      assert next[i] in Without(es, kind);
    }
    Items(es);
    forall k, c ensures (k, c) in next <==> k in m && m[k] == c
    {
      assert (k, c) in next <==> (k, c) in Without(es, kind) || (k, c) == (kind, code);
    }
    SameMap(next, m);
  }

  /** A successful send removes that kind's entry and leaves the other kind alone. */
  lemma SentRemovesOneKind(es: seq<Entry>, kind: DeliveryKind)
    requires OnePerKind(es)
    ensures MarkSent(Encode(es), kind) == Encode(Without(es, kind))
    ensures AsMap(Without(es, kind)) == AsMap(es) - {kind}
  {
    KeptEncoded(es, kind);
    Items(es);
    SameMap(Without(es, kind), AsMap(es) - {kind});
  }

  /** The query's null test and substring test together are a lookup in the map. */
  lemma ReplayableIsMapLookup(es: seq<Entry>)
    requires OnePerKind(es)
    ensures Encode(es) == None <==> AsMap(es) == map[]
    ensures ReplayableColumn(Encode(es)) <==>
            var m := AsMap(es); m == map[] || (Notify in m && m[Notify] == Unconfigured)
  {
    Items(es);
    if es != [] {
      assert (es[0].0, es[0].1) in es;
      NeedleInEntries(es);
    }
  }

  lemma NeedleInEntries(es: seq<Entry>)
    ensures Contains(Join(Texts(es), ";"), "notify:unconfigured") <==> (Notify, Unconfigured) in es
  {
    var needle := "notify:unconfigured";
    ContainsJoin(Texts(es), ';', needle);
    forall i | 0 <= i < |es| ensures Contains(Texts(es)[i], needle) <==> es[i] == (Notify, Unconfigured)
    {
      NeedleInEntry(es[i].0, es[i].1);
    }
    if (Notify, Unconfigured) in es {
      var i :| 0 <= i < |es| && es[i] == (Notify, Unconfigured);
      assert Texts(es)[i] in Texts(es);
    }
  }

  /** A text as long as the needle, or one longer, holds it only where its first letter is. */
  lemma NeedleInText(text: string, needle: string)
    requires needle != "" && text != needle && |text| <= |needle| + 1
    requires text != "" && text[0] != needle[0] && (|text| > 1 ==> text[1] != needle[0])
    ensures !Contains(text, needle)
  {
    if i: nat :| i <= |text| && HasAt(text, needle, i) { OccurrenceCovers(text, needle, i, i); }
  }

  lemma TooShortForNeedle(text: string, needle: string)
    requires |text| < |needle|
    ensures !Contains(text, needle)
  {
  }

  lemma NeedleInEntry(kind: DeliveryKind, code: FailureCode)
    ensures Contains(DeliveryFailure(kind, code), "notify:unconfigured") <==> kind == Notify && code == Unconfigured
  {
    var text, needle := DeliveryFailure(kind, code), "notify:unconfigured";
    ReasonTexts();
    if kind == Notify && code == Unconfigured {
      assert needle[0..0 + |needle|] == needle;
      assert HasAt(text, needle, 0);
    } else if kind == Confirm && code == Unconfigured {
      NeedleInText(text, needle);
    } else {
      TooShortForNeedle(text, needle);
    }
  }

  // ---------------------------------------------------------- over any run of writes

  datatype Write = Recorded(kind: DeliveryKind, code: FailureCode) | Sent(kind: DeliveryKind)

  function ApplyColumn(column: Column, writes: seq<Write>): Column
    decreases |writes|
  {
    if writes == [] then column
    else
      var next := match writes[0]
        case Recorded(kind, code) => RecordFailure(column, DeliveryFailure(kind, code))
        case Sent(kind) => MarkSent(column, kind);
      ApplyColumn(next, writes[1..])
  }

  function ApplyMap(m: map<DeliveryKind, FailureCode>, writes: seq<Write>): map<DeliveryKind, FailureCode>
    decreases |writes|
  {
    if writes == [] then m
    else
      var next := match writes[0] case Recorded(kind, code) => m[kind := code] case Sent(kind) => m - {kind};
      ApplyMap(next, writes[1..])
  }

  /**
   * The column refines the map: after any writes to an empty column, the text is the encoding of
   * some list with at most one entry per kind, that list is the map, and the replay query answers
   * what the map answers.
   */
  lemma {:induction false} ColumnRefinesMap(es: seq<Entry>, writes: seq<Write>) returns (final: seq<Entry>)
    requires OnePerKind(es)
    ensures OnePerKind(final)
    ensures ApplyColumn(Encode(es), writes) == Encode(final)
    ensures AsMap(final) == ApplyMap(AsMap(es), writes)
    ensures ReplayableColumn(ApplyColumn(Encode(es), writes)) <==>
            var m := ApplyMap(AsMap(es), writes); m == map[] || (Notify in m && m[Notify] == Unconfigured)
    decreases |writes|
  {
    if writes == [] {
      final := es;
      ReplayableIsMapLookup(es);
    } else {
      match writes[0]
      case Recorded(kind, code) =>
        RecordReplacesOneKind(es, kind, code);
        final := ColumnRefinesMap(Without(es, kind) + [(kind, code)], writes[1..]);
      case Sent(kind) =>
        SentRemovesOneKind(es, kind);
        final := ColumnRefinesMap(Without(es, kind), writes[1..]);
    }
  }
}
