/**
 * The values a PDF is made of (ISO 32000-1, section 7.3), as far as the writer of
 * scripts/doc-fixtures.ts uses them: names, runs of numbers and references, arrays of those, and
 * dictionaries; how they are spelled, and a reader that gets them back from any spelling.
 */
module PdfValues {
  import opened Prelude

  /** `Words` is what stands between a key and the next one: a number, or the three words of a reference. */
  datatype Value =
    | Name(text: string)
    | Words(words: seq<string>)
    | Array(words: seq<string>)
    | Dictionary(entries: seq<Entry>)

  datatype Entry = Entry(key: string, value: Value)

  predicate IsRegular(c: char) { c !in {' ', '\n', '/', '<', '>', '[', ']', '(', ')'} }

  predicate IsWord(w: string) { w != "" && forall c <- w :: IsRegular(c) }

  // ---------------------------------------------------------------- spelling

  function SpellWords(words: seq<string>): string {
    if words == [] then "" else if |words| == 1 then words[0] else words[0] + (" " + SpellWords(words[1..]))
  }

  function Spell(v: Value): string
    decreases v, 1
  {
    match v
    case Name(text) => "/" + text
    case Words(words) => SpellWords(words)
    case Array(words) => "[" + (SpellWords(words) + "]")
    case Dictionary(entries) => "<<" + (SpellEntries(entries) + " >>")
  }

  function SpellEntries(entries: seq<Entry>): string
    decreases entries, 0
  {
    if entries == [] then ""
    else " /" + (entries[0].key + (" " + (Spell(entries[0].value) + SpellEntries(entries[1..]))))
  }

  predicate Proper(v: Value)
    decreases v, 1
  {
    match v
    case Name(text) => IsWord(text)
    case Words(words) => words != [] && forall w <- words :: IsWord(w)
    case Array(words) => words != [] && forall w <- words :: IsWord(w)
    case Dictionary(entries) => AllProper(entries)
  }

  predicate AllProper(entries: seq<Entry>)
    decreases entries, 0
  {
    entries == [] || (IsWord(entries[0].key) && Proper(entries[0].value) && AllProper(entries[1..]))
  }

  // ---------------------------------------------------------------- reading

  /** How many regular characters a text begins with. */
  function WordLength(s: string): (n: nat)
    ensures n <= |s|
  {
    if s == "" || !IsRegular(s[0]) then 0 else 1 + WordLength(s[1..])
  }

  /** Words with single spaces between them. */
  function ReadWords(s: string): (r: Option<(seq<string>, string)>)
    ensures r.Some? ==> |r.value.1| < |s|
    decreases |s|
  {
    var n := WordLength(s);
    if n == 0 then None
    else if n + 1 < |s| && s[n] == ' ' && IsRegular(s[n + 1]) then
      match ReadWords(s[n + 1..])
      case None => None
      case Some((more, rest)) => Some(([s[..n]] + more, rest))
    else Some(([s[..n]], s[n..]))
  }

  function ReadValue(s: string): (r: Option<(Value, string)>)
    ensures r.Some? ==> |r.value.1| < |s|
    decreases |s|, 0
  {
    if s == "" then None
    else if s[0] == '/' then
      var n := WordLength(s[1..]);
      Some((Name(s[1..1 + n]), s[1 + n..]))
    else if s[0] == '[' then
      match ReadWords(s[1..])
      case None => None
      case Some((words, rest)) =>
        if rest != "" && rest[0] == ']' then Some((Array(words), rest[1..])) else None
    else if |s| > 1 && s[0] == '<' && s[1] == '<' then
      match ReadEntries(s[2..])
      case None => None
      case Some((entries, rest)) => Some((Dictionary(entries), rest))
    else match ReadWords(s)
      case None => None
      case Some((words, rest)) => Some((Words(words), rest))
  }

  /** The entries up to and with the closing brackets. */
  function ReadEntries(s: string): (r: Option<(seq<Entry>, string)>)
    ensures r.Some? ==> |r.value.1| < |s|
    decreases |s|, 1
  {
    if |s| >= 3 && s[0] == ' ' && s[1] == '>' && s[2] == '>' then Some(([], s[3..]))
    else if |s| < 2 || s[0] != ' ' || s[1] != '/' then None
    else
      var n := WordLength(s[2..]);
      if n + 2 >= |s| || s[n + 2] != ' ' then None
      else match ReadValue(s[n + 3..])
        case None => None
        case Some((value, rest)) =>
          match ReadEntries(rest)
          case None => None
          case Some((more, end)) => Some(([Entry(s[2..n + 2], value)] + more, end))
  }

  // ---------------------------------------------------------------- the round trip

  lemma {:induction false} WordEnds(w: string, rest: string)
    requires IsWord(w) && (rest == "" || !IsRegular(rest[0]))
    ensures WordLength(w + rest) == |w|
    decreases |w|
  {
    assert w[0] in w;
    assert (w + rest)[1..] == w[1..] + rest;
    if |w| > 1 {
      assert forall c <- w[1..] :: c in w;
      WordEnds(w[1..], rest);
    } else {
      assert w[1..] + rest == rest;
    }
  }

  /** What may follow a run of words: no further word. */
  predicate StopsWords(rest: string) {
    rest != "" && !IsRegular(rest[0]) && (rest[0] == ' ' ==> |rest| == 1 || !IsRegular(rest[1]))
  }

  /** The first of several words, where `more` begins with the second. */
  lemma FirstWordReads(s: string, w: string, more: string)
    requires s == w + (" " + more) && IsWord(w) && more != "" && IsRegular(more[0])
    ensures ReadWords(s) == match ReadWords(more)
                            case None => None
                            case Some((words, rest)) => Some(([w] + words, rest))
  {
    WordEnds(w, " " + more);
    assert s[..|w|] == w && s[|w| + 1..] == more && s[|w|] == ' ' && s[|w| + 1] == more[0];
  }

  lemma LastWordReads(s: string, w: string, rest: string)
    requires s == w + rest && IsWord(w) && StopsWords(rest)
    ensures ReadWords(s) == Some(([w], rest))
  {
    WordEnds(w, rest);
    assert s[..|w|] == w && s[|w|..] == rest;
  }

  lemma SpelledBegins(words: seq<string>, s: string, rest: string)
    requires words != [] && (forall w <- words :: IsWord(w)) && s == SpellWords(words) + rest
    ensures s != "" && IsRegular(s[0])
  {
    assert words[0] in words && words[0][0] in words[0];
    assert s[0] == words[0][0];
  }

  lemma SpelledLonger(words: seq<string>, s: string, more: string, rest: string)
    requires |words| > 1 && s == SpellWords(words) + rest && more == SpellWords(words[1..]) + rest
    ensures s == words[0] + (" " + more)
  {
  }

  lemma {:induction false} WordsRead(s: string, words: seq<string>, rest: string)
    requires words != [] && (forall w <- words :: IsWord(w)) && StopsWords(rest)
    requires s == SpellWords(words) + rest
    ensures ReadWords(s) == Some((words, rest))
    decreases |words|
  {
    assert words[0] in words;
    if |words| == 1 {
      LastWordReads(s, words[0], rest);
      assert words == [words[0]];
    } else {
      var others := words[1..];
      assert forall x <- others :: x in words;
      var more := SpellWords(others) + rest;
      SpelledBegins(others, more, rest);
      SpelledLonger(words, s, more, rest);
      FirstWordReads(s, words[0], more);
      WordsRead(more, others, rest);
      assert words == [words[0]] + others;
    }
  }

  /** What follows a value in a dictionary: the next key, or the end. */
  predicate FollowsValue(rest: string) {
    |rest| >= 2 && rest[0] == ' ' && (rest[1] == '/' || rest[1] == '>')
  }

  lemma NameReads(s: string, text: string, rest: string)
    requires IsWord(text) && FollowsValue(rest) && s == ("/" + text) + rest
    ensures ReadValue(s) == Some((Name(text), rest))
  {
    assert s[1..] == text + rest;
    WordEnds(text, rest);
    assert s[1..1 + |text|] == text && s[1 + |text|..] == rest;
  }

  lemma WordsValueReads(s: string, words: seq<string>, rest: string)
    requires words != [] && (forall w <- words :: IsWord(w)) && FollowsValue(rest) && s == SpellWords(words) + rest
    ensures ReadValue(s) == Some((Words(words), rest))
  {
    SpelledBegins(words, s, rest);
    WordsRead(s, words, rest);
  }

  lemma ArrayReads(s: string, words: seq<string>, rest: string)
    requires words != [] && (forall w <- words :: IsWord(w)) && s == "[" + (SpellWords(words) + "]") + rest
    ensures ReadValue(s) == Some((Array(words), rest))
  {
    assert s[1..] == SpellWords(words) + ("]" + rest);
    WordsRead(s[1..], words, "]" + rest);
    assert ("]" + rest)[1..] == rest;
  }

  lemma DictionaryValueReads(s: string, entries: seq<Entry>, inner: string, rest: string)
    requires s == "<<" + inner && ReadEntries(inner) == Some((entries, rest))
    ensures ReadValue(s) == Some((Dictionary(entries), rest))
  {
    assert s[2..] == inner;
  }

  lemma {:induction false} ValueReads(s: string, v: Value, rest: string)
    requires Proper(v) && FollowsValue(rest) && s == Spell(v) + rest
    ensures ReadValue(s) == Some((v, rest))
    decreases v, 1
  {
    match v
    case Name(text) => NameReads(s, text, rest);
    case Words(words) => WordsValueReads(s, words, rest);
    case Array(words) => ArrayReads(s, words, rest);
    case Dictionary(entries) =>
      var inner := SpellEntries(entries) + (" >>" + rest);
      assert s == "<<" + inner;
      EntriesRead(inner, entries, rest);
      DictionaryValueReads(s, entries, inner, rest);
  }

  /** One entry, where `more` is what follows its value. */
  lemma FirstEntryReads(s: string, key: string, value: Value, behind: string, more: string)
    requires s == " /" + (key + (" " + behind)) && IsWord(key) && ReadValue(behind) == Some((value, more))
    ensures ReadEntries(s) == match ReadEntries(more)
                              case None => None
                              case Some((entries, end)) => Some(([Entry(key, value)] + entries, end))
  {
    assert s[2..] == key + (" " + behind);
    WordEnds(key, " " + behind);
    assert s[2..|key| + 2] == key && s[|key| + 2] == ' ' && s[|key| + 3..] == behind;
  }

  lemma NoEntryReads(s: string, rest: string)
    requires s == "" + (" >>" + rest)
    ensures ReadEntries(s) == Some(([], rest))
  {
    assert s[3..] == rest;
  }

  lemma SpelledEntries(entries: seq<Entry>, s: string, end: string, behind: string, more: string)
    requires entries != [] && s == SpellEntries(entries) + end
    requires more == SpellEntries(entries[1..]) + end && behind == Spell(entries[0].value) + more
    ensures s == " /" + (entries[0].key + (" " + behind))
  {
    SpelledJoins(entries[0].key, Spell(entries[0].value), SpellEntries(entries[1..]), end);
  }

  lemma SpelledJoins(key: string, spelled: string, others: string, end: string)
    ensures " /" + (key + (" " + (spelled + others))) + end == " /" + (key + (" " + (spelled + (others + end))))
  {
  }

  /** Every dictionary reads back entry by entry, whatever follows it. */
  lemma {:induction false} EntriesRead(s: string, entries: seq<Entry>, rest: string)
    requires AllProper(entries) && s == SpellEntries(entries) + (" >>" + rest)
    ensures ReadEntries(s) == Some((entries, rest))
    decreases entries, 0
  {
    if entries == [] {
      NoEntryReads(s, rest);
    } else {
      var end := " >>" + rest;
      var more := SpellEntries(entries[1..]) + end;
      var behind := Spell(entries[0].value) + more;
      SpelledEntries(entries, s, end, behind, more);
      MoreFollows(entries[1..], rest);
      ValueReads(behind, entries[0].value, more);
      EntriesRead(more, entries[1..], rest);
      FirstEntryReads(s, entries[0].key, entries[0].value, behind, more);
      assert entries == [Entry(entries[0].key, entries[0].value)] + entries[1..];
    }
  }

  lemma MoreFollows(entries: seq<Entry>, rest: string)
    ensures FollowsValue(SpellEntries(entries) + (" >>" + rest))
  {
    if entries != [] {
      var tail := entries[0].key + (" " + (Spell(entries[0].value) + SpellEntries(entries[1..])));
      assert (SpellEntries(entries) + (" >>" + rest))[..2] == (" /" + tail)[..2];
    }
  }

  // ---------------------------------------------------------------- looking up

  function Lookup(entries: seq<Entry>, key: string): Option<Value> {
    if entries == [] then None
    else if entries[0].key == key then Some(entries[0].value)
    else Lookup(entries[1..], key)
  }
}
