/**
 * What a PDF reader shows of the label that scripts/doc-fixtures.ts writes between two parentheses:
 * literal strings as section 7.3.4.2 of ISO 32000-1 reads them.
 */
module PdfText {
  import opened Prelude
  import opened TinyPdf
  import opened PdfPages

  // ---------------------------------------------------------------- reading a literal string

  predicate IsOctal(c: char) { '0' <= c <= '7' }

  /** How many of the up to three octal digits of a character code stand here. */
  function OctalDigits(s: string, most: nat): (n: nat)
    ensures n <= most && n <= |s|
    ensures forall i | 0 <= i < n :: IsOctal(s[i])
  {
    if most == 0 || s == "" || !IsOctal(s[0]) then 0 else 1 + OctalDigits(s[1..], most - 1)
  }

  function OctalValue(digits: string): nat
    requires forall i | 0 <= i < |digits| :: IsOctal(digits[i])
  {
    if digits == "" then 0
    else
      var last := digits[|digits| - 1];
      assert IsOctal(last);
      8 * OctalValue(digits[..|digits| - 1]) + (last - '0') as nat
  }

  /** An end of line: how many characters it takes. */
  function LineEnd(s: string): (n: nat)
    ensures n <= |s|
  {
    if |s| >= 2 && s[0] == '\r' && s[1] == '\n' then 2
    else if s != "" && (s[0] == '\r' || s[0] == '\n') then 1 else 0
  }

  /** What stands for one escape, from behind its backslash, and how many characters it takes. */
  function Escape(s: string): (r: (string, nat))
    requires s != ""
    ensures |r.0| <= 1 <= r.1 <= |s|
  {
    if LineEnd(s) > 0 then ("", LineEnd(s))
    else if OctalDigits(s, 3) > 0 then
      var n := OctalDigits(s, 3);
      ([(OctalValue(s[..n]) % 256) as char], n)
    else match s[0]
      case 'n' => ("\n", 1)
      case 'r' => ("\r", 1)
      case 't' => ("\t", 1)
      case 'b' => ([8 as char], 1)
      case 'f' => ([12 as char], 1)
      case c => ([c], 1)
  }

  function Prepend(head: string, rest: Option<string>): Option<string> {
    if rest.Some? then Some(head + rest.value) else None
  }

  /** The rest of a literal string inside `depth` parentheses of its own; None if it never closes. */
  function ReadLiteral(s: string, depth: nat): Option<string>
    decreases |s|
  {
    if s == "" then None
    else match s[0]
      case ')' => if depth == 0 then Some("") else Prepend(")", ReadLiteral(s[1..], depth - 1))
      case '(' => Prepend("(", ReadLiteral(s[1..], depth + 1))
      case '\\' =>
        if |s| == 1 then None
        else var (text, taken) := Escape(s[1..]); Prepend(text, ReadLiteral(s[1 + taken..], depth))
      case '\r' => Prepend("\n", ReadLiteral(s[LineEnd(s)..], depth))
      case c => Prepend([c], ReadLiteral(s[1..], depth))
  }

  // ---------------------------------------------------------------- what reads back

  predicate Plain(s: string) { '\\' !in s && '\r' !in s }

  /** How deep the parentheses of a text nest behind it; None if one closes that was not open. */
  function DepthAfter(s: string, depth: nat): Option<nat>
    decreases |s|
  {
    if s == "" then Some(depth)
    else if s[0] == '(' then DepthAfter(s[1..], depth + 1)
    else if s[0] == ')' then (if depth == 0 then None else DepthAfter(s[1..], depth - 1))
    else DepthAfter(s[1..], depth)
  }

  predicate Balanced(s: string) { DepthAfter(s, 0) == Some(0) }

  /** A plain text that closes all it opens reads back, up to the parenthesis behind it. */
  lemma {:induction false} BalancedReads(s: string, tail: string, depth: nat)
    requires Plain(s) && DepthAfter(s, depth) == Some(0)
    ensures ReadLiteral(s + (")" + tail), depth) == Some(s)
    decreases |s|
  {
    var all := s + (")" + tail);
    if s == "" {
      assert all == ")" + tail;
    } else {
      assert all[1..] == s[1..] + (")" + tail) && all[0] == s[0];
      assert [s[0]] + s[1..] == s && s[0] in s;
      assert forall c <- s[1..] :: c in s;
      var next := if s[0] == '(' then depth + 1 else if s[0] == ')' then depth - 1 else depth;
      BalancedReads(s[1..], tail, next);
    }
  }

  lemma {:induction false} NothingCloses(s: string, depth: nat)
    requires ')' !in s
    ensures ReadLiteral(s, depth) == None
    decreases |s|
  {
    if s != "" {
      assert s[0] in s;
      forall n: nat | n <= |s| ensures ')' !in s[n..] {}
      match s[0]
      case '(' => NothingCloses(s[1..], depth + 1);
      case '\\' => if |s| > 1 { NothingCloses(s[1 + Escape(s[1..]).1..], depth); }
      case '\r' => NothingCloses(s[LineEnd(s)..], depth);
      case _ => NothingCloses(s[1..], depth);
    }
  }

  /** An escape that begins before a closing parenthesis ends before it, unless it escapes it. */
  lemma EscapeStaysInside(s: string, tail: string)
    requires s != ""
    ensures Escape(s + (")" + tail)).1 <= |s|
  {
    var all := s + (")" + tail);
    assert all[|s|] == ')' && !IsOctal(all[|s|]);
  }

  lemma PlainStep(s: string)
    requires s != ""
    ensures Plain(s) <==> s[0] != '\\' && s[0] != '\r' && Plain(s[1..])
  {
    assert s == [s[0]] + s[1..];
  }

  /** An escape that takes the closing parenthesis leaves nothing that closes. */
  lemma EscapedEnd(tail: string, depth: nat)
    requires ')' !in tail
    ensures ReadLiteral("\\" + (")" + tail), depth) == None
  {
    var all := "\\" + (")" + tail);
    assert all[1..] == ")" + tail && all[2..] == tail;
    assert OctalDigits(all[1..], 3) == 0;
    NothingCloses(tail, depth);
  }

  /**
   * Before a closing parenthesis behind which nothing closes, no text reads as more than itself, and
   * one that reads as itself is plain and closes all it opens.
   */
  lemma {:induction false} ReadsAtMost(s: string, tail: string, depth: nat)
    requires ')' !in tail
    ensures var r := ReadLiteral(s + (")" + tail), depth);
            r.Some? ==> |r.value| <= |s| && (r.value == s ==> Plain(s) && DepthAfter(s, depth) == Some(0))
    decreases |s|
  {
    var all := s + (")" + tail);
    if s == "" {
      assert all == ")" + tail && all[1..] == tail;
      if depth > 0 { NothingCloses(tail, depth - 1); }
    } else {
      assert all[0] == s[0] && all[1..] == s[1..] + (")" + tail);
      PlainStep(s);
      match s[0]
      case ')' => if depth > 0 { ReadsAtMost(s[1..], tail, depth - 1); }
      case '(' => ReadsAtMost(s[1..], tail, depth + 1);
      case '\\' =>
        if s[1..] == "" {
          assert s == "\\";
          EscapedEnd(tail, depth);
        } else {
          var taken := Escape(all[1..]).1;
          EscapeStaysInside(s[1..], tail);
          assert all[1 + taken..] == s[1 + taken..] + (")" + tail);
          ReadsAtMost(s[1 + taken..], tail, depth);
        }
      case '\r' =>
        var taken := LineEnd(all);
        assert taken <= |s| by { assert |s| == 1 ==> all[1] == ')'; }
        assert all[taken..] == s[taken..] + (")" + tail);
        ReadsAtMost(s[taken..], tail, depth);
      case _ => ReadsAtMost(s[1..], tail, depth);
    }
  }

  lemma ReadsBackIff(s: string, tail: string)
    requires ')' !in tail
    ensures ReadLiteral(s + (")" + tail), 0) == Some(s) <==> Plain(s) && Balanced(s)
  {
    ReadsAtMost(s, tail, 0);
    if Plain(s) && Balanced(s) { BalancedReads(s, tail, 0); }
  }

  // ---------------------------------------------------------------- the label of a document

  const BEFORE_LABEL: string := "BT /F1 18 Tf 72 720 Td ("
  const AFTER_LABEL: string := " Tj ET"

  /** The string that a content stream of this writer shows. */
  function ShownText(content: string): Option<string> {
    if BEFORE_LABEL <= content then ReadLiteral(content[|BEFORE_LABEL|..], 0) else None
  }

  lemma ShownTextOf(title: string)
    ensures ShownText(Content(title)) == ReadLiteral(title + (")" + AFTER_LABEL), 0)
  {
    assert Content(title) == BEFORE_LABEL + (title + (")" + AFTER_LABEL));
  }

  /**
   * The document displays its label - opening it from the trailer to the page's content and reading
   * the string there gives what was written - exactly when the label holds no backslash and no
   * carriage return and its parentheses are balanced.
   */
  lemma LabelReadsBackIff(label_: seq<CodeUnit>)
    requires |label_| < STRING_LIMIT
    ensures var title := AsWritten(label_);
            var document := ReadDocument(Pdf(Objects(title)));
            document.Some? && (ShownText(document.value.content) == Some(title) <==> Plain(title) && Balanced(title))
  {
    EveryDocumentOpens(label_);
    ShowsIff(AsWritten(label_));
  }

  lemma ShowsIff(title: string)
    ensures ShownText(Content(title)) == Some(title) <==> Plain(title) && Balanced(title)
  {
    ShownTextOf(title);
    ReadsBackIff(title, AFTER_LABEL);
  }

  /** A label that closes a parenthesis it did not open is cut off there. */
  lemma LabelCanBeCutOff()
    ensures ShownText(Content("a)b")) == Some("a")
  {
    ShownTextOf("a)b");
    var all := "a)b" + (")" + AFTER_LABEL);
    assert all[0] == 'a' && all[1..][0] == ')';
    assert ReadLiteral(all[1..], 0) == Some("");
    assert "a" + "" == "a";
  }
}
