/** How src/lib/clamav.ts turns the daemon's reply into an outcome. */
module ClamdReply {
  import opened Prelude

  datatype FailureReason = Timeout | Unreachable | Protocol

  datatype ScanOutcome = Clean | Infected(signature: string) | Failed(reason: FailureReason)

  const NUL: char := '\0'

  /** `\w` of a regular expression. */
  predicate IsWordChar(c: char) {
    'a' <= c <= 'z' || 'A' <= c <= 'Z' || '0' <= c <= '9' || c == '_'
  }

  /** `.replace(/\0+$/, "")`. */
  function StripNuls(s: string): (r: string)
    ensures r == [] || r[|r| - 1] != NUL
  {
    if s != [] && s[|s| - 1] == NUL then StripNuls(s[..|s| - 1]) else s
  }

  function Line(reply: string): string { Trim(StripNuls(reply)) }

  predicate EndsWith(s: string, w: string) {
    |w| <= |s| && s[|s| - |w|..] == w
  }

  /** `/\bw$/.test(line)` for a word `w`. */
  predicate EndsWithWord(line: string, w: string) {
    EndsWith(line, w) && (|line| == |w| || !IsWordChar(line[|line| - |w| - 1]))
  }

  function Upper(c: char): char {
    if 'a' <= c <= 'z' then 'A' + (c - 'a') else c
  }

  predicate HasStreamPrefix(line: string) {
    |line| >= 7 && forall i | 0 <= i < 7 :: Upper(line[i]) == "STREAM:"[i]
  }

  /** `.replace(/^stream:\s*\/i, "")`. */
  function DropStreamPrefix(line: string): string {
    if HasStreamPrefix(line) then TrimStart(line[7..]) else line
  }

  /** `.replace(/\s+FOUND$/, "")`: the whole run of white space goes with the word. */
  function DropFoundSuffix(s: string): (r: string)
    ensures r <= s
  {
    if EndsWith(s, "FOUND") && |s| > 5 && IsSpace(s[|s| - 6]) then TrimEnd(s[..|s| - 5]) else s
  }

  function Signature(line: string): string { DropFoundSuffix(DropStreamPrefix(line)) }

  /** `interpretClamdReply`. */
  function Interpret(reply: string): ScanOutcome {
    var line := Line(reply);
    if EndsWithWord(line, "FOUND") then
      var signature := Signature(line);
      Infected(if signature != "" then signature else "unknown")
    else if EndsWithWord(line, "OK") then Clean
    else Failed(Protocol)
  }

  // ---------------------------------------------------------------- the verdict is the last word

  /** The longest run of word characters at the end of a line. */
  function LastWord(line: string): (w: string)
    ensures |w| <= |line| && line[|line| - |w|..] == w
    ensures forall c <- w :: IsWordChar(c)
  {
    if line != [] && IsWordChar(line[|line| - 1]) then LastWord(line[..|line| - 1]) + [line[|line| - 1]] else []
  }

  /** A word with its last letter taken off ends the line with its last letter taken off. */
  lemma ShorterWord(line: string, w: string)
    requires |w| > 1 && EndsWithWord(line, w)
    ensures EndsWithWord(line[..|line| - 1], w[..|w| - 1]) && line[|line| - 1] == w[|w| - 1]
  {
    var n := |line| - 1;
    assert line[|line| - |w|..][|w| - 1] == line[n];
    assert line[..n][n - (|w| - 1)..] == line[|line| - |w|..][..|w| - 1];
  }

  lemma {:induction false} WordIsLast(line: string, w: string)
    requires w != [] && EndsWithWord(line, w)
    requires forall c <- w :: IsWordChar(c)
    ensures LastWord(line) == w
    decreases |w|
  {
    var n := |line| - 1;
    if |w| == 1 {
      assert line[n..] == w && line[n] in w;
      assert LastWord(line[..n]) == [];
    } else {
      ShorterWord(line, w);
      WordIsLast(line[..n], w[..|w| - 1]);
      assert line[n] in w;
      assert w == w[..|w| - 1] + [line[n]];
    }
  }

  lemma {:induction false} LastWordMaximal(line: string)
    ensures |LastWord(line)| < |line| ==> !IsWordChar(line[|line| - |LastWord(line)| - 1])
    decreases |line|
  {
    if line != [] && IsWordChar(line[|line| - 1]) { LastWordMaximal(line[..|line| - 1]); }
  }

  lemma WordsApart(line: string, w: string)
    requires w != [] && forall c <- w :: IsWordChar(c)
    ensures EndsWithWord(line, w) <==> LastWord(line) == w
  {
    if EndsWithWord(line, w) { WordIsLast(line, w); }
    if LastWord(line) == w { LastWordMaximal(line); }
  }

  /** The verdict is the last word of the line, so the order of the two tests does not matter. */
  lemma VerdictIsLastWord(reply: string)
    ensures Interpret(reply).Infected? <==> LastWord(Line(reply)) == "FOUND"
    ensures Interpret(reply).Clean? <==> LastWord(Line(reply)) == "OK"
    ensures Interpret(reply).Failed? ==> Interpret(reply).reason == Protocol
  {
    WordsApart(Line(reply), "FOUND");
    WordsApart(Line(reply), "OK");
  }

  lemma {:induction false} SpacesTrimmed(before: string, body: string, after: string)
    requires (forall c <- before :: IsSpace(c)) && forall c <- after :: IsSpace(c)
    requires body != "" && !IsSpace(body[0]) && !IsSpace(body[|body| - 1])
    ensures Trim(before + body + after) == body
    decreases |before| + |after|
  {
    var s := before + body + after;
    if before != "" {
      assert s[0] == before[0] && before[0] in before;
      assert s[1..] == before[1..] + body + after;
      assert forall c <- before[1..] :: c in before;
      SpacesTrimmed(before[1..], body, after);
    } else {
      assert s == body + after && s[0] == body[0];
      EndTrimmed(body, after);
    }
  }

  lemma {:induction false} EndTrimmed(body: string, after: string)
    requires body != "" && !IsSpace(body[|body| - 1]) && forall c <- after :: IsSpace(c)
    ensures TrimEnd(body + after) == body
    decreases |after|
  {
    if after == "" {
      assert body + after == body;
    } else {
      var n := |after| - 1;
      assert after[n] in after && forall c <- after[..n] :: c in after;
      assert (body + after)[..|body| + n] == body + after[..n];
      EndTrimmed(body, after[..n]);
    }
  }

  lemma {:induction false} NulsStripped(text: string, nuls: string)
    requires (text == "" || text[|text| - 1] != NUL) && forall c <- nuls :: c == NUL
    ensures StripNuls(text + nuls) == text
    decreases |nuls|
  {
    if nuls == "" {
      assert text + nuls == text;
    } else {
      var n := |nuls| - 1;
      assert nuls[n] in nuls && forall c <- nuls[..n] :: c in nuls;
      assert (text + nuls)[..|text| + n] == text + nuls[..n];
      NulsStripped(text, nuls[..n]);
    }
  }

  /** White space around the daemon's line and the NULs behind it do not matter. */
  lemma LineIs(before: string, body: string, after: string, nuls: string)
    requires (forall c <- before :: IsSpace(c)) && (forall c <- after :: IsSpace(c)) && forall c <- nuls :: c == NUL
    requires body != "" && !IsSpace(body[0]) && !IsSpace(body[|body| - 1]) && body[|body| - 1] != NUL
    ensures Line(before + body + after + nuls) == body
  {
    var text := before + body + after;
    assert after != "" ==> after[|after| - 1] in after;
    assert text[|text| - 1] == if after != "" then after[|after| - 1] else body[|body| - 1];
    NulsStripped(text, nuls);
    SpacesTrimmed(before, body, after);
  }

  // ---------------------------------------------------------------- the signature

  /** The prefix and the word do not overlap: the prefix ends in a colon. */
  lemma LongEnough(line: string)
    requires HasStreamPrefix(line) && EndsWith(line, "FOUND")
    ensures |line| >= 12
  {
    assert "STREAM:"[6] == ':';
  }

  lemma FoundLineKeepsText(line: string)
    requires line != [] && !IsSpace(line[0]) && EndsWith(line, "FOUND")
    ensures DropStreamPrefix(line) != [] && !IsSpace(DropStreamPrefix(line)[0])
  {
    if HasStreamPrefix(line) {
      var rest := line[7..];
      LongEnough(line);
      assert rest[|rest| - 1] == line[|line| - 1] == line[|line| - 5..][4];
      TrimStartKeeps(rest);
    }
  }

  lemma {:induction false} TrimStartKeeps(s: string)
    requires s != [] && !IsSpace(s[|s| - 1])
    ensures TrimStart(s) != []
  {
    if IsSpace(s[0]) { TrimStartKeeps(s[1..]); }
  }

  /** The signature is never empty: the fallback `"unknown"` is never taken. */
  lemma SignatureNeverEmpty(reply: string)
    requires Interpret(reply).Infected?
    ensures Signature(Line(reply)) != "" && Interpret(reply) == Infected(Signature(Line(reply)))
  {
    var line := Line(reply);
    FoundLineKeepsText(line);
    DropFoundKeeps(DropStreamPrefix(line));
  }

  lemma DropFoundKeeps(s: string)
    requires s != [] && !IsSpace(s[0])
    ensures DropFoundSuffix(s) != [] && DropFoundSuffix(s)[0] == s[0]
  {
    if EndsWith(s, "FOUND") && |s| > 5 && IsSpace(s[|s| - 6]) { TrimEndKeeps(s[..|s| - 5]); }
  }

  lemma {:induction false} TrimEndKeeps(s: string)
    requires s != [] && !IsSpace(s[0])
    ensures TrimEnd(s) != []
  {
    if IsSpace(s[|s| - 1]) { TrimEndKeeps(s[..|s| - 1]); }
  }

  predicate SameLetter(a: char, b: char) {
    a == b || ('a' <= a <= 'z' && a as int - 32 == b as int) || ('a' <= b <= 'z' && b as int - 32 == a as int)
  }

  /** The word characters of a regular expression, by their codes. */
  lemma WordCharIs(c: char)
    ensures IsWordChar(c) <==>
            var n := c as int; 48 <= n <= 57 || 65 <= n <= 90 || n == 95 || 97 <= n <= 122
  {
  }

  /** The prefix is `stream:` in any case, and may be all there is. */
  lemma StreamPrefixIff(line: string)
    ensures HasStreamPrefix(line) <==> |line| >= 7 && forall i | 0 <= i < 7 :: SameLetter(line[i], "stream:"[i])
  {
    forall i | 0 <= i < 7 && i < |line| ensures Upper(line[i]) == "STREAM:"[i] <==> SameLetter(line[i], "stream:"[i]) {
    }
  }

  function FoundReply(signature: string): string {
    "stream: " + signature + " FOUND" + [NUL]
  }

  lemma FoundReplyLine(signature: string)
    ensures Line(FoundReply(signature)) == "stream: " + signature + " FOUND"
  {
    var line := "stream: " + signature + " FOUND";
    var reply := FoundReply(signature);
    assert reply[..|reply| - 1] == line && reply[|reply| - 1] == NUL;
    assert line[|line| - 1] == 'D' && line[0] == 's';
    assert StripNuls(line) == line && TrimStart(line) == line;
  }

  lemma DropPrefixOf(signature: string)
    ensures DropStreamPrefix("stream: " + signature + " FOUND") == TrimStart(signature + " FOUND")
  {
    var line := "stream: " + signature + " FOUND";
    forall i | 0 <= i < 7 ensures Upper(line[i]) == "STREAM:"[i] { assert line[i] == "stream:"[i]; }
    assert line[7..] == " " + (signature + " FOUND");
    assert (" " + (signature + " FOUND"))[1..] == signature + " FOUND";
  }

  lemma AroundFound(signature: string)
    ensures var s := signature + " FOUND";
            s[|s| - 5..] == "FOUND" && s[|s| - 6] == ' ' && s[..|s| - 5] == signature + " "
  {
    assert " FOUND" == " " + "FOUND";
    assert signature + " FOUND" == (signature + " ") + "FOUND";
  }

  lemma TrimEndDropsSpace(s: string)
    ensures TrimEnd(s + " ") == TrimEnd(s)
  {
    assert (s + " ")[..|s|] == s;
  }

  lemma DropSuffixOf(signature: string)
    ensures DropFoundSuffix(signature + " FOUND") == TrimEnd(signature)
  {
    AroundFound(signature);
    TrimEndDropsSpace(signature);
  }

  /** What the daemon names is reported verbatim exactly when it neither begins nor ends with white space. */
  lemma SignatureReportedIff(signature: string)
    ensures Interpret(FoundReply(signature)) == Infected(signature)
      <==> signature != "" && !IsSpace(signature[0]) && !IsSpace(signature[|signature| - 1])
  {
    var line := "stream: " + signature + " FOUND";
    FoundReplyLine(signature);
    assert line[|line| - 5..] == "FOUND" && line[|line| - 6] == ' ';
    assert EndsWithWord(line, "FOUND");
    assert Interpret(FoundReply(signature)).Infected?;
    SignatureNeverEmpty(FoundReply(signature));
    DropPrefixOf(signature);
    if signature != "" {
      if IsSpace(signature[0]) {
        var rest := signature + " FOUND";
        TrimStartKeeps(rest);
        DropFoundKeeps(TrimStart(rest));
      } else {
        assert (signature + " FOUND")[0] == signature[0];
        DropSuffixOf(signature);
      }
    }
  }
}
