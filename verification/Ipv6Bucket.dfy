/**
 * `ipv6Bucket` of src/lib/rate-limit.ts against the text forms of an address (RFC 4291, section 2.2):
 * eight groups of one to four hexadecimal digits, a run of zero groups left out as `::`, and the
 * last 32 bits optionally in dotted decimal.
 */
module Ipv6Bucket {
  import opened Prelude
  import opened Pieces

  // ---------------------------------------------------------------- hexadecimal

  function Lower(c: char): char {
    if 'A' <= c <= 'Z' then 'a' + (c - 'A') else c
  }

  predicate IsHex(c: char) { '0' <= c <= '9' || 'a' <= c <= 'f' || 'A' <= c <= 'F' }

  function Digit(c: char): (d: nat)
    requires IsHex(c)
    ensures d < 16
  {
    if c <= '9' then (c - '0') as int else (Lower(c) - 'a') as int + 10
  }

  function DigitChar(d: nat): (c: char)
    requires d < 16
    ensures IsHex(c) && Digit(c) == d && Lower(c) == c
  {
    if d < 10 then '0' + d as char else 'a' + (d - 10) as char
  }

  predicate AllHex(s: string) {
    s == [] || (IsHex(s[|s| - 1]) && AllHex(s[..|s| - 1]))
  }

  function HexValue(s: string): nat
    requires AllHex(s)
  {
    if s == [] then 0 else 16 * HexValue(s[..|s| - 1]) + Digit(s[|s| - 1])
  }

  /** The shortest lower-case spelling of a number. */
  function HexText(n: nat): (s: string)
    ensures s != [] && AllHex(s) && HexValue(s) == n
  {
    if n < 16 then [DigitChar(n)] else HexText(n / 16) + [DigitChar(n % 16)]
  }

  /** `.replace(/^0+(?=.)/, "")`. */
  function StripZeros(s: string): (r: string)
    ensures s != [] ==> r != []
  {
    if |s| > 1 && s[0] == '0' then StripZeros(s[1..]) else s
  }

  /** `group.toLowerCase().replace(/^0+(?=.)/, "")`. */
  function Canonical(group: string): string { StripZeros(Each(Lower, group)) }

  lemma {:induction false} AllHexTail(s: string)
    requires AllHex(s) && s != []
    ensures IsHex(s[0]) && AllHex(s[1..])
    ensures s[0] == '0' ==> HexValue(s[1..]) == HexValue(s)
  {
    if |s| > 1 {
      AllHexTail(s[..|s| - 1]);
      assert s[1..][..|s| - 2] == s[..|s| - 1][1..];
    }
  }

  lemma {:induction false} StripKeepsValue(s: string)
    requires AllHex(s)
    ensures AllHex(StripZeros(s)) && HexValue(StripZeros(s)) == HexValue(s)
    ensures |StripZeros(s)| > 1 ==> StripZeros(s)[0] != '0'
  {
    if |s| > 1 && s[0] == '0' {
      AllHexTail(s);
      StripKeepsValue(s[1..]);
    }
  }

  lemma {:induction false} LowerKeepsValue(s: string)
    requires AllHex(s)
    ensures AllHex(Each(Lower, s)) && HexValue(Each(Lower, s)) == HexValue(s)
  {
    if s != [] {
      LowerKeepsValue(s[..|s| - 1]);
      assert Each(Lower, s)[..|s| - 1] == Each(Lower, s[..|s| - 1]);
    }
  }

  ghost predicate IsLower(s: string) { forall i | 0 <= i < |s| :: Lower(s[i]) == s[i] }

  lemma {:induction false} StripKeepsLower(s: string)
    requires IsLower(s)
    ensures IsLower(StripZeros(s))
  {
    if |s| > 1 && s[0] == '0' { StripKeepsLower(s[1..]); }
  }

  lemma {:induction false} NonZero(s: string)
    requires AllHex(s) && s != [] && s[0] != '0'
    ensures HexValue(s) > 0
  {
    if |s| > 1 { NonZero(s[..|s| - 1]); }
  }

  /** Lower case, and no zero before another digit. */
  ghost predicate Shortest(s: string) {
    AllHex(s) && s != [] && IsLower(s) && (|s| > 1 ==> s[0] != '0')
  }

  lemma ShortestPrefix(s: string)
    requires Shortest(s) && |s| > 1
    ensures Shortest(s[..|s| - 1]) && HexValue(s[..|s| - 1]) > 0
  {
    NonZero(s[..|s| - 1]);
  }

  /** A number has one shortest spelling. */
  lemma {:induction false} ShortestIsUnique(a: string, b: string)
    requires Shortest(a) && Shortest(b) && HexValue(a) == HexValue(b)
    ensures a == b
    decreases |a|
  {
    var m, n := |a| - 1, |b| - 1;
    if m > 0 { ShortestPrefix(a); } else { assert a[..m] == []; }
    if n > 0 { ShortestPrefix(b); } else { assert b[..n] == []; }
    if m > 0 && n > 0 { ShortestIsUnique(a[..m], b[..n]); }
    assert a == a[..m] + [a[m]] && b == b[..n] + [b[n]];
  }

  lemma {:induction false} HexTextIsShortest(n: nat)
    ensures Shortest(HexText(n)) && (n > 0 ==> HexText(n)[0] != '0')
  {
    if n >= 16 { HexTextIsShortest(n / 16); }
  }

  lemma StrippedIsShortest(s: string)
    requires AllHex(s) && s != [] && IsLower(s)
    ensures StripZeros(s) == HexText(HexValue(s))
  {
    StripKeepsValue(s);
    StripKeepsLower(s);
    HexTextIsShortest(HexValue(s));
    ShortestIsUnique(StripZeros(s), HexText(HexValue(s)));
  }

  lemma {:induction false} LoweredIsLower(s: string)
    ensures |Each(Lower, s)| == |s| && IsLower(Each(Lower, s))
  {
    forall i | 0 <= i < |s| ensures Lower(Each(Lower, s)[i]) == Each(Lower, s)[i] {
      assert Each(Lower, s)[i] == Lower(s[i]);
    }
  }

  /** All spellings of one group - any case, any leading zeros - have the same canonical form. */
  lemma CanonicalIsHexText(group: string)
    requires AllHex(group) && group != []
    ensures Canonical(group) == HexText(HexValue(group))
  {
    var lowered := Each(Lower, group);
    LowerKeepsValue(group);
    LoweredIsLower(group);
    StrippedIsShortest(lowered);
  }

  // ---------------------------------------------------------------- the function

  /** The place of the first `::` at or after `i`, or the end. */
  function FindDouble(s: string, i: nat): (k: nat)
    requires i <= |s|
    ensures i <= k <= |s|
    decreases |s| - i
  {
    if i == |s| || (i + 1 < |s| && s[i] == ':' && s[i + 1] == ':') then i else FindDouble(s, i + 1)
  }

  /** `text ? text.split(":").filter(Boolean) : []`. */
  function Groups(text: string): seq<string> {
    if text == "" then [] else Filter(group => group != "", Split(text, ':'))
  }

  function Zeros(n: nat): (r: seq<string>)
    ensures |r| == n
  {
    seq(n, _ => "0")
  }

  /** The groups with the elided run filled in. */
  function Expand(head: seq<string>, tail: seq<string>, elided: bool): seq<string> {
    if elided && |head| + |tail| < 8 then head + Zeros(8 - |head| - |tail|) + tail else head + tail
  }

  function FirstFour(groups: seq<string>): string {
    Join(Each(Canonical, if |groups| > 4 then groups[..4] else groups), ":")
  }

  /** `ipv6Bucket`: what stands before the first `::`, and between it and a second one. */
  function Bucket(address: string): string {
    var k := FindDouble(address, 0);
    var elided := k < |address|;
    var rest := if k + 2 <= |address| then address[k + 2..] else "";
    FirstFour(Expand(Groups(address[..k]), Groups(rest[..FindDouble(rest, 0)]), elided))
  }

  // ---------------------------------------------------------------- spellings

  /** The last 32 bits in dotted decimal, with their value as two groups. */
  datatype Quad = Quad(text: string, high: nat, low: nat)

  datatype Spelling =
    | Full(groups: seq<string>, quad: Option<Quad>)
    | Elided(head: seq<string>, tail: seq<string>, quad: Option<Quad>)

  ghost predicate Hextets(groups: seq<string>) {
    forall g <- groups :: g != "" && AllHex(g)
  }

  function Width(quad: Option<Quad>): nat { if quad.Some? then 2 else 0 }

  function QuadText(quad: Option<Quad>): seq<string> { if quad.Some? then [quad.value.text] else [] }

  function QuadValue(quad: Option<Quad>): (r: seq<nat>)
    ensures |r| == Width(quad)
  {
    if quad.Some? then [quad.value.high, quad.value.low] else []
  }

  /** Eight groups, or fewer and a `::` that stands for at least one. */
  ghost predicate Valid(a: Spelling) {
    && (a.quad.Some? ==> a.quad.value.text != "" && ':' !in a.quad.value.text)
    && match a
       case Full(groups, quad) => Hextets(groups) && |groups| + Width(quad) == 8
       case Elided(head, tail, quad) => Hextets(head) && Hextets(tail) && |head| + |tail| + Width(quad) <= 7
  }

  function Text(a: Spelling): string {
    match a
    case Full(groups, quad) => Join(groups + QuadText(quad), ":")
    case Elided(head, tail, quad) => Join(head, ":") + "::" + Join(tail + QuadText(quad), ":")
  }

  function ZeroValues(n: nat): (r: seq<nat>)
    ensures |r| == n && forall i | 0 <= i < n :: r[i] == 0
  {
    seq(n, _ => 0)
  }

  function Values(groups: seq<string>): (r: seq<nat>)
    requires forall g <- groups :: AllHex(g)
    ensures |r| == |groups| && forall i | 0 <= i < |r| :: r[i] == HexValue(groups[i])
  {
    seq(|groups|, i requires 0 <= i < |groups| => HexValue(groups[i]))
  }

  /** The address as eight 16-bit groups. */
  ghost function Address(a: Spelling): (r: seq<nat>)
    requires Valid(a)
    ensures |r| == 8
  {
    match a
    case Full(groups, quad) => Values(groups) + QuadValue(quad)
    case Elided(head, tail, quad) =>
      Values(head) + ZeroValues(8 - |head| - |tail| - Width(quad)) + Values(tail) + QuadValue(quad)
  }

  /** The first 64 bits, each group in its shortest lower-case form. */
  function Prefix64(values: seq<nat>): string
    requires |values| == 8
  {
    Join(Each(HexText, values[..4]), ":")
  }

  // ---------------------------------------------------------------- reading a spelling

  lemma {:induction false} FindSkips(s: string, i: nat, k: nat)
    requires i <= k <= |s|
    requires forall j | i <= j < k && j + 1 < |s| :: !(s[j] == ':' && s[j + 1] == ':')
    ensures FindDouble(s, i) == FindDouble(s, k)
    decreases k - i
  {
    if i < k { FindSkips(s, i + 1, k); }
  }

  /** No `::` inside, and no colon at either end. */
  ghost predicate Plain(t: string) {
    && (forall j | 0 <= j < |t| - 1 :: !(t[j] == ':' && t[j + 1] == ':'))
    && (t != "" ==> t[0] != ':' && t[|t| - 1] != ':')
  }

  ghost predicate GroupTexts(groups: seq<string>) {
    forall g <- groups :: g != "" && ':' !in g
  }

  lemma GroupIsPlain(g: string)
    requires ':' !in g
    ensures Plain(g)
  {
    forall j | 0 <= j < |g| ensures g[j] != ':' { assert g[j] in g; }
  }

  lemma PlainJoined(g: string, rest: string)
    requires g != "" && ':' !in g && rest != "" && Plain(rest)
    ensures Plain(g + ":" + rest)
  {
    var t := g + ":" + rest;
    GroupIsPlain(g);
    assert g[0] in g && g[|g| - 1] in g;
    forall j | 0 <= j < |t| - 1 ensures !(t[j] == ':' && t[j + 1] == ':') {
      if j < |g| { assert t[j] == g[j] && g[j] in g; } else if j > |g| { assert t[j] == rest[j - |g| - 1]; }
    }
  }

  lemma {:induction false} JoinIsPlain(groups: seq<string>)
    requires GroupTexts(groups)
    ensures Plain(Join(groups, ":")) && (groups != [] ==> Join(groups, ":") != "")
  {
    if groups != [] {
      assert groups[0] in groups;
      GroupIsPlain(groups[0]);
      if |groups| > 1 {
        assert forall t <- groups[1..] :: t in groups;
        JoinIsPlain(groups[1..]);
        PlainJoined(groups[0], Join(groups[1..], ":"));
      }
    }
  }

  lemma PlainHasNoDouble(t: string)
    requires Plain(t)
    ensures FindDouble(t, 0) == |t|
  {
    FindSkips(t, 0, |t|);
  }

  lemma AroundTheDouble(head: string, tail: string)
    ensures (head + "::" + tail)[..|head|] == head && (head + "::" + tail)[|head| + 2..] == tail
  {
  }

  lemma DoubleIsFound(head: string, tail: string)
    requires Plain(head)
    ensures FindDouble(head + "::" + tail, 0) == |head|
  {
    var s := head + "::" + tail;
    assert s[|head|] == ':' && s[|head| + 1] == ':';
    forall j | 0 <= j < |head| && j + 1 < |s| ensures !(s[j] == ':' && s[j + 1] == ':') {
      assert s[j] == head[j];
      if j + 1 < |head| { assert s[j + 1] == head[j + 1]; }
    }
    FindSkips(s, 0, |head|);
  }

  lemma GroupsOfJoin(groups: seq<string>)
    requires GroupTexts(groups)
    ensures Groups(Join(groups, ":")) == groups
  {
    JoinIsPlain(groups);
    if groups != [] {
      SplitJoin(groups, ':');
      FilterAllIff(group => group != "", groups);
    }
  }

  lemma {:induction false} HexHasNoColon(g: string)
    requires AllHex(g)
    ensures ':' !in g
  {
    if g != [] {
      HexHasNoColon(g[..|g| - 1]);
      assert g == g[..|g| - 1] + [g[|g| - 1]];
    }
  }

  lemma HextetsAreTexts(groups: seq<string>, quad: Option<Quad>)
    requires Hextets(groups) && (quad.Some? ==> quad.value.text != "" && ':' !in quad.value.text)
    ensures GroupTexts(groups) && GroupTexts(groups + QuadText(quad))
  {
    forall g | g in groups ensures ':' !in g { HexHasNoColon(g); }
  }

  lemma FullReads(groups: seq<string>)
    requires GroupTexts(groups)
    ensures Bucket(Join(groups, ":")) == FirstFour(groups)
  {
    var t := Join(groups, ":");
    JoinIsPlain(groups);
    PlainHasNoDouble(t);
    assert t[..|t|] == t;
    GroupsOfJoin(groups);
    assert groups + [] == groups;
  }

  lemma ElidedReads(head: seq<string>, tail: seq<string>)
    requires GroupTexts(head) && GroupTexts(tail)
    ensures Bucket(Join(head, ":") + "::" + Join(tail, ":")) == FirstFour(Expand(head, tail, true))
  {
    var h, t := Join(head, ":"), Join(tail, ":");
    JoinIsPlain(head);
    JoinIsPlain(tail);
    DoubleIsFound(h, t);
    AroundTheDouble(h, t);
    PlainHasNoDouble(t);
    assert t[..|t|] == t;
    GroupsOfJoin(head);
    GroupsOfJoin(tail);
  }

  // ---------------------------------------------------------------- the bucket is the /64

  lemma FirstFourValues(groups: seq<string>, values: seq<nat>)
    requires |groups| >= 4 && |values| == 8
    requires forall i | 0 <= i < 4 :: groups[i] != "" && AllHex(groups[i])
    ensures FirstFour(groups) == Prefix64(values) <==> forall i | 0 <= i < 4 :: HexValue(groups[i]) == values[i]
  {
    var texts, shortest := Each(Canonical, groups[..4]), Each(HexText, values[..4]);
    assert (if |groups| > 4 then groups[..4] else groups) == groups[..4];
    forall i | 0 <= i < 4 ensures texts[i] == HexText(HexValue(groups[i])) && ':' !in texts[i] && ':' !in shortest[i] {
      CanonicalIsHexText(groups[i]);
      HexHasNoColon(HexText(HexValue(groups[i])));
      HexHasNoColon(HexText(values[i]));
    }
    SplitJoin(texts, ':');
    SplitJoin(shortest, ':');
    if texts == shortest {
      forall i | 0 <= i < 4 ensures HexValue(groups[i]) == values[i] {
        assert HexValue(texts[i]) == HexValue(shortest[i]);
      }
    }
  }

  lemma FullBucket(a: Spelling)
    requires Valid(a) && a.Full?
    ensures Bucket(Text(a)) == Prefix64(Address(a))
  {
    HextetsAreTexts(a.groups, a.quad);
    FullReads(a.groups + QuadText(a.quad));
    FullValues(a.groups, QuadText(a.quad), QuadValue(a.quad));
  }

  lemma FullValues(groups: seq<string>, more: seq<string>, moreValues: seq<nat>)
    requires Hextets(groups) && |groups| >= 4 && |groups| + |moreValues| == 8
    ensures FirstFour(groups + more) == Prefix64(Values(groups) + moreValues)
  {
    forall i | 0 <= i < 4 ensures (groups + more)[i] == groups[i] && groups[i] in groups {}
    FirstFourValues(groups + more, Values(groups) + moreValues);
  }

  /** Nothing but zeros between what is spelled before the `::` and the end of the first 64 bits. */
  ghost predicate QuadHarmless(a: Spelling)
    requires Valid(a)
  {
    a.quad.Some? && a.Elided? ==> forall i | |a.head| <= i < 4 :: Address(a)[i] == 0
  }

  lemma ZeroHex()
    ensures AllHex("0") && HexValue("0") == 0
  {
    assert "0"[..0] == [];
  }

  lemma ElidedBucket(a: Spelling)
    requires Valid(a) && a.Elided?
    ensures Bucket(Text(a)) == Prefix64(Address(a)) <==> QuadHarmless(a)
  {
    var tail := a.tail + QuadText(a.quad);
    HextetsAreTexts(a.head, None);
    assert a.head + QuadText(None) == a.head;
    HextetsAreTexts(a.tail, a.quad);
    ElidedReads(a.head, tail);
    ElidedValues(a);
  }

  lemma ElidedValues(a: Spelling)
    requires Valid(a) && a.Elided?
    ensures FirstFour(Expand(a.head, a.tail + QuadText(a.quad), true)) == Prefix64(Address(a)) <==> QuadHarmless(a)
  {
    var tail := a.tail + QuadText(a.quad);
    var groups := Expand(a.head, tail, true);
    var h, z := |a.head|, 8 - |a.head| - |tail|;
    ZeroHex();
    forall i | 0 <= i < 4 ensures groups[i] != "" && AllHex(groups[i])
    {
      if i < h { assert groups[i] == a.head[i] && a.head[i] in a.head; }
      else if i >= h + z { assert groups[i] == a.tail[i - h - z] && a.tail[i - h - z] in a.tail; }
    }
    FirstFourValues(groups, Address(a));
    Shifted(a, groups);
  }

  /** The code's groups are the address's, pushed one place back behind a `::` if there is a quad. */
  lemma Shifted(a: Spelling, groups: seq<string>)
    requires Valid(a) && a.Elided? && groups == Expand(a.head, a.tail + QuadText(a.quad), true)
    requires forall i | 0 <= i < 4 :: AllHex(groups[i])
    ensures (forall i | 0 <= i < 4 :: HexValue(groups[i]) == Address(a)[i]) <==> QuadHarmless(a)
  {
    ZeroHex();
    var h, z := |a.head|, 8 - |a.head| - |a.tail| - Width(a.quad);
    var shift := if a.quad.Some? then 1 else 0;
    assert |Zeros(z + shift)| == z + shift;
    forall i | 0 <= i < 4
      ensures HexValue(groups[i])
              == if i < h then Address(a)[i] else if i < h + z + shift then 0 else Address(a)[i - shift]
    {
      if i < h { assert groups[i] == a.head[i]; }
      else if i < h + z + shift { assert groups[i] == "0"; }
      else { assert groups[i] == a.tail[i - h - z - shift]; }
    }
    var codes := seq(4, i requires 0 <= i < 4 => HexValue(groups[i]));
    ShiftedZeros(Address(a), codes, h, z, shift);
    assert (forall i | 0 <= i < 4 :: HexValue(groups[i]) == Address(a)[i])
      <==> forall i | 0 <= i < 4 :: codes[i] == Address(a)[i];
  }

  /** What stands at a place when everything from `h + z` on has moved back by `shift`. */
  function Moved(values: seq<nat>, h: nat, z: nat, shift: nat, i: nat): nat
    requires i < |values| && shift <= 1
  {
    if i < h then values[i] else if i < h + z + shift || i < shift then 0 else values[i - shift]
  }

  lemma ShiftedZeros(values: seq<nat>, codes: seq<nat>, h: nat, z: nat, shift: nat)
    requires |values| == 8 && |codes| == 4 && shift <= 1
    requires forall i | h <= i < h + z && i < 8 :: values[i] == 0
    requires forall i | 0 <= i < 4 :: codes[i] == Moved(values, h, z, shift, i)
    ensures (forall i | 0 <= i < 4 :: codes[i] == values[i])
            <==> (shift == 1 ==> forall i | h <= i < 4 :: values[i] == 0)
  {
    if shift == 1 && forall i | 0 <= i < 4 :: codes[i] == values[i] {
      forall i | h <= i < 4 ensures values[i] == 0 { MovedOntoItself(values, codes, h, z, i); }
    }
    if shift == 1 && forall i | h <= i < 4 :: values[i] == 0 {
      forall i | 0 <= i < 4 ensures codes[i] == values[i] {
        if i >= h + z + 1 { assert h <= i - 1 < 4; }
      }
    }
  }

  lemma {:induction false} MovedOntoItself(values: seq<nat>, codes: seq<nat>, h: nat, z: nat, i: nat)
    requires |values| == 8 && |codes| == 4 && h <= i < 4
    requires forall k | 0 <= k < 4 :: codes[k] == Moved(values, h, z, 1, k) && codes[k] == values[k]
    ensures values[i] == 0
    decreases i
  {
    assert codes[i] == Moved(values, h, z, 1, i);
    if i > h + z { MovedOntoItself(values, codes, h, z, i - 1); }
  }

  /**
   * The bucket of every spelling is the shortest form of the address's first 64 bits - whatever the
   * case, the leading zeros and the place of the `::` - except, exactly, when a dotted-decimal end
   * behind a `::` pushes a non-zero group of those 64 bits one place back.
   */
  lemma BucketIsPrefixIff(a: Spelling)
    requires Valid(a)
    ensures Bucket(Text(a)) == Prefix64(Address(a)) <==> QuadHarmless(a)
  {
    match a
    case Elided(_, _, _) => ElidedBucket(a);
    case Full(_, _) => FullBucket(a);
  }

  lemma PrefixInjective(x: seq<nat>, y: seq<nat>)
    requires |x| == 8 && |y| == 8
    ensures Prefix64(x) == Prefix64(y) <==> x[..4] == y[..4]
  {
    var a, b := Each(HexText, x[..4]), Each(HexText, y[..4]);
    forall i | 0 <= i < 4 ensures ':' !in a[i] && ':' !in b[i] && (a[i] == b[i] ==> x[i] == y[i]) {
      HexHasNoColon(a[i]);
      HexHasNoColon(b[i]);
    }
    SplitJoin(a, ':');
    SplitJoin(b, ':');
  }

  /** Two spellings without a quad behind a `::` share a bucket exactly when their first 64 bits agree. */
  lemma SameBucketIffSame64(a: Spelling, b: Spelling)
    requires Valid(a) && Valid(b) && QuadHarmless(a) && QuadHarmless(b)
    ensures Bucket(Text(a)) == Bucket(Text(b)) <==> Address(a)[..4] == Address(b)[..4]
  {
    BucketIsPrefixIff(a);
    BucketIsPrefixIff(b);
    PrefixInjective(Address(a), Address(b));
  }

  lemma PlainSpelling(values: seq<nat>)
    requires |values| == 8
    ensures Valid(Full(Each(HexText, values), None)) && Address(Full(Each(HexText, values), None)) == values
  {
    var groups := Each(HexText, values);
    assert Values(groups) == values;
  }

  /** Everywhere else one address has two buckets: that spelling's, and its eight plain groups'. */
  lemma HarmfulQuadSplitsAddress(a: Spelling)
    requires Valid(a) && !QuadHarmless(a)
    ensures var plain := Full(Each(HexText, Address(a)), None);
            Valid(plain) && Address(plain) == Address(a) && Bucket(Text(plain)) != Bucket(Text(a))
  {
    BucketIsPrefixIff(a);
    PlainSpelling(Address(a));
    FullBucket(Full(Each(HexText, Address(a)), None));
  }

  /** `::2:3:4:5:0.6.0.7` is such a spelling. */
  lemma HarmfulQuadExists()
    ensures var a := Elided([], ["2", "3", "4", "5"], Some(Quad("0.6.0.7", 6, 7)));
            Valid(a) && !QuadHarmless(a)
  {
    var a := Elided([], ["2", "3", "4", "5"], Some(Quad("0.6.0.7", 6, 7)));
    forall g | g in a.tail ensures AllHex(g) { assert g[..0] == []; }
    assert Valid(a);
    assert "2"[..0] == [];
    assert Address(a)[2] == HexValue("2") == 2;
  }
}
