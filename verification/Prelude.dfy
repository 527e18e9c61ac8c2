/** Datatypes and text functions that several components share. */
module Prelude {
  import opened Pieces

  datatype Option<+T> = None | Some(value: T)

  /** A value, or the reason the program refused to produce one. */
  datatype Result<+T, +E> = Ok(value: T) | Err(error: E)

  // ---------------------------------------------------------------- text

  /** One UTF-16 code unit of a JavaScript string; a Dafny `char` cannot be a lone surrogate. */
  type CodeUnit = n: int | 0 <= n < 0x1_0000

  /** The characters `String.prototype.trim` removes. */
  predicate IsSpace(c: char) {
    var n := c as int;
    9 <= n <= 13 || n == 32 || n == 160 || n == 0x1680 || 0x2000 <= n <= 0x200a
    || n in {0x2028, 0x2029, 0x202f, 0x205f, 0x3000, 0xfeff}
  }

  function TrimStart(s: string): (r: string)
    ensures r == [] || !IsSpace(r[0])
    ensures s == [] || !IsSpace(s[0]) ==> r == s
  {
    if s != [] && IsSpace(s[0]) then TrimStart(s[1..]) else s
  }

  function TrimEnd(s: string): (r: string)
    ensures r <= s
    ensures r == [] || !IsSpace(r[|r| - 1])
    ensures s == [] || !IsSpace(s[|s| - 1]) ==> r == s
  {
    if s != [] && IsSpace(s[|s| - 1]) then TrimEnd(s[..|s| - 1]) else s
  }

  /** `.trim()`. */
  function Trim(s: string): (r: string)
    ensures r == [] || (!IsSpace(r[0]) && !IsSpace(r[|r| - 1]))
  {
    TrimEnd(TrimStart(s))
  }

  /** Something is left of a text when it is trimmed exactly if it holds more than white space. */
  lemma {:induction false} TrimmedIff(s: string)
    ensures Trim(s) != "" <==> exists c <- s :: !IsSpace(c)
  {
    StartTrimmedIff(s);
    EndTrimmedIff(TrimStart(s));
  }

  lemma {:induction false} StartTrimmedIff(s: string)
    ensures (exists c <- TrimStart(s) :: !IsSpace(c)) <==> exists c <- s :: !IsSpace(c)
  {
    if s != [] && IsSpace(s[0]) {
      StartTrimmedIff(s[1..]);
      assert s == [s[0]] + s[1..];
    }
  }

  lemma {:induction false} EndTrimmedIff(s: string)
    ensures TrimEnd(s) != "" <==> exists c <- s :: !IsSpace(c)
  {
    if s != [] {
      var n := |s| - 1;
      assert s == s[..n] + [s[n]];
      if IsSpace(s[n]) { EndTrimmedIff(s[..n]); } else { assert s[n] in s; }
    }
  }

  /** Substring containment, as `String.prototype.includes` and SQL's `%sub%` mean it. */
  predicate Contains(s: string, sub: string) {
    exists i: nat | i <= |s| :: HasAt(s, sub, i)
  }

  /** `s.split(sep)` for a one-character separator: never empty, and `""` gives `[""]`. */
  function Split(s: string, sep: char): (parts: seq<string>)
    ensures |parts| >= 1
    ensures forall p <- parts :: sep !in p
    ensures sep !in s ==> parts == [s]
  {
    if s == [] then [""]
    else
      var rest := Split(s[1..], sep);
      assert [s[0]] + s[1..] == s;
      if s[0] == sep then [""] + rest else [[s[0]] + rest[0]] + rest[1..]
  }

  /** `parts.join(sep)`. */
  function Join(parts: seq<string>, sep: string): string {
    if |parts| == 0 then ""
    else if |parts| == 1 then parts[0]
    else parts[0] + sep + Join(parts[1..], sep)
  }

  /** Splitting `head`, the separator and `tail` gives `head` and then the pieces of `tail`. */
  lemma {:induction false} SplitHead(head: string, tail: string, sep: char)
    requires sep !in head
    ensures Split(head + [sep] + tail, sep) == [head] + Split(tail, sep)
  {
    var s := head + [sep] + tail;
    if head == [] {
      assert s[1..] == tail;
    } else {
      assert s[1..] == head[1..] + [sep] + tail;
      SplitHead(head[1..], tail, sep);
      assert [head[0]] + head[1..] == head;
    }
  }

  /** `join` then `split` is the identity on a non-empty list of separator-free pieces. */
  lemma {:induction false} SplitJoin(parts: seq<string>, sep: char)
    requires |parts| >= 1
    requires forall p <- parts :: sep !in p
    ensures Split(Join(parts, [sep]), sep) == parts
  {
    if |parts| == 1 {
    } else {
      SplitHead(parts[0], Join(parts[1..], [sep]), sep);
      SplitJoin(parts[1..], sep);
    }
  }

  /** A separator-free text occurs in a joined list exactly when it occurs in one of the pieces. */
  lemma {:induction false} ContainsJoin(parts: seq<string>, sep: char, sub: string)
    requires sub != [] && sep !in sub
    ensures Contains(Join(parts, [sep]), sub) <==> exists p <- parts :: Contains(p, sub)
  {
    if |parts| <= 1 {
      if |parts| == 1 { assert parts[0] in parts; }
    } else {
      var rest := Join(parts[1..], [sep]);
      var s := parts[0] + [sep] + rest;
      ContainsJoin(parts[1..], sep, sub);
      ContainsAcross(parts[0], sep, rest, sub);
      assert forall p :: p in parts <==> p == parts[0] || p in parts[1..];
    }
  }

  /** Every position an occurrence covers holds one of the occurrence's characters. */
  lemma OccurrenceCovers(s: string, sub: string, i: nat, j: nat)
    requires HasAt(s, sub, i) && i <= j < i + |sub|
    ensures s[j] == sub[j - i] && s[j] in sub
  {
    assert s[i..i + |sub|][j - i] == s[j];
  }

  lemma ContainsAcross(left: string, sep: char, right: string, sub: string)
    requires sub != [] && sep !in sub
    ensures Contains(left + [sep] + right, sub) <==> Contains(left, sub) || Contains(right, sub)
  {
    var s := left + [sep] + right;
    if Contains(left, sub) {
      var i: nat :| i <= |left| && HasAt(left, sub, i);
      assert s[i..i + |sub|] == left[i..i + |sub|];
      assert HasAt(s, sub, i);
    }
    if Contains(right, sub) {
      var i: nat :| i <= |right| && HasAt(right, sub, i);
      var j := |left| + 1 + i;
      assert s[j..j + |sub|] == right[i..i + |sub|];
      assert HasAt(s, sub, j);
    }
    if Contains(s, sub) {
      var i: nat :| i <= |s| && HasAt(s, sub, i);
      if i + |sub| <= |left| {
        assert s[i..i + |sub|] == left[i..i + |sub|];
        assert HasAt(left, sub, i);
      } else if i <= |left| {
        OccurrenceCovers(s, sub, i, |left|);
      } else {
        var j := i - |left| - 1;
        assert s[i..i + |sub|] == right[j..j + |sub|];
        assert HasAt(right, sub, j);
      }
    }
  }
}
