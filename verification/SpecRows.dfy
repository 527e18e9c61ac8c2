/**
 * `toSpecRows` of src/server/repositories/product.ts: which attributes a product card shows, whatever
 * order the database hands them out in.
 */
module SpecRows {
  import opened Prelude
  import opened Pieces

  /** What an attribute can hold; a number carries its text and whether it is finite. */
  datatype Json = Number(text: string, finite: bool) | Text(text: string) | Other

  type Key = seq<CodeUnit>

  datatype Attribute = Attribute(key: Key, value: Json)

  datatype Row = Row(label_: string, value: string)

  /** `a < b` on strings: code unit by code unit. */
  predicate KeyLess(a: Key, b: Key) {
    if b == [] then false
    else if a == [] then true
    else a[0] < b[0] || (a[0] == b[0] && KeyLess(a[1..], b[1..]))
  }

  lemma {:induction false} KeysCompare(a: Key, b: Key)
    ensures a == b || KeyLess(a, b) || KeyLess(b, a)
    ensures !(KeyLess(a, b) && KeyLess(b, a))
    ensures !KeyLess(a, a)
  {
    if a != [] { KeysCompare(a[1..], a[1..]); }
    if a != [] && b != [] {
      KeysCompare(a[1..], b[1..]);
      assert a == [a[0]] + a[1..] && b == [b[0]] + b[1..];
    }
  }

  lemma {:induction false} KeyLessTransitive(a: Key, b: Key, c: Key)
    requires KeyLess(a, b) && KeyLess(b, c)
    ensures KeyLess(a, c)
  {
    if a != [] && b != [] && a[0] == b[0] && b[0] == c[0] { KeyLessTransitive(a[1..], b[1..], c[1..]); }
  }

  // ---------------------------------------------------------------- sorting

  function Insert(a: Attribute, s: seq<Attribute>): (r: seq<Attribute>)
    ensures |r| == |s| + 1
  {
    if s == [] || KeyLess(a.key, s[0].key) then [a] + s else [s[0]] + Insert(a, s[1..])
  }

  /** `Object.entries(attributes).sort(...)`. */
  function SortByKey(s: seq<Attribute>): seq<Attribute> {
    if s == [] then [] else Insert(s[0], SortByKey(s[1..]))
  }

  /** Every key below all later ones. */
  ghost predicate Ascending(s: seq<Attribute>) {
    s == [] || (Below(s[0].key, s[1..]) && Ascending(s[1..]))
  }

  ghost predicate Below(key: Key, s: seq<Attribute>) {
    forall a <- s :: KeyLess(key, a.key)
  }

  ghost predicate KeyAbsent(key: Key, s: seq<Attribute>) {
    forall a <- s :: a.key != key
  }

  /** The keys of an object are distinct. */
  ghost predicate DistinctKeys(s: seq<Attribute>) {
    s == [] || (KeyAbsent(s[0].key, s[1..]) && DistinctKeys(s[1..]))
  }

  lemma {:induction false} InsertKeeps(a: Attribute, s: seq<Attribute>)
    requires Ascending(s) && KeyAbsent(a.key, s)
    ensures Ascending(Insert(a, s))
    ensures forall x :: x in Insert(a, s) <==> x == a || x in s
  {
    if s != [] {
      assert s == [s[0]] + s[1..] && s[0] in s;
      KeysCompare(a.key, s[0].key);
      if KeyLess(a.key, s[0].key) {
        forall x | x in s ensures KeyLess(a.key, x.key) {
          if x != s[0] { KeyLessTransitive(a.key, s[0].key, x.key); }
        }
        assert ([a] + s)[1..] == s;
      } else {
        InsertKeeps(a, s[1..]);
        assert ([s[0]] + Insert(a, s[1..]))[1..] == Insert(a, s[1..]);
      }
    }
  }

  lemma {:induction false} SortKeeps(s: seq<Attribute>)
    requires DistinctKeys(s)
    ensures Ascending(SortByKey(s))
    ensures forall x :: x in SortByKey(s) <==> x in s
  {
    if s != [] {
      SortKeeps(s[1..]);
      assert s == [s[0]] + s[1..];
      InsertKeeps(s[0], SortByKey(s[1..]));
    }
  }

  lemma FirstIsIn<T>(s: seq<T>)
    ensures s != [] ==> s[0] in s
  {
  }

  /** Two ascending lists of the same attributes are the same list. */
  lemma {:induction false} AscendingIsUnique(s: seq<Attribute>, t: seq<Attribute>)
    requires Ascending(s) && Ascending(t) && forall x :: x in s <==> x in t
    ensures s == t
  {
    FirstIsIn(t);
    if s != [] {
      assert s == [s[0]] + s[1..] && s[0] in s && s[0] in t;
      assert t == [t[0]] + t[1..] && t[0] in t && t[0] in s;
      KeysCompare(s[0].key, t[0].key);
      assert s[0] == t[0];
      KeysCompare(s[0].key, s[0].key);
      assert s[0] !in s[1..] && t[0] !in t[1..];
      forall x ensures x in s[1..] <==> x in t[1..] {
        assert x in s <==> x == s[0] || x in s[1..];
        assert x in t <==> x == t[0] || x in t[1..];
      }
      AscendingIsUnique(s[1..], t[1..]);
    }
  }

  // ---------------------------------------------------------------- the rows

  predicate Usable(a: Attribute) {
    match a.value
    case Number(_, finite) => finite
    case Text(text) => Trim(text) != ""
    case Other => false
  }

  function RowFor(humanize: Key -> string, a: Attribute): Row {
    Row(humanize(a.key), if a.value.Other? then "" else a.value.text)
  }

  function RowsFor(humanize: Key -> string, s: seq<Attribute>): (r: seq<Row>)
    ensures |r| == |s|
  {
    Each(a => RowFor(humanize, a), s)
  }

  /** The first `max` usable attributes of a list. */
  function Shown(humanize: Key -> string, sorted: seq<Attribute>, max: nat): seq<Row> {
    var usable := Filter(Usable, sorted);
    RowsFor(humanize, usable[..if max < |usable| then max else |usable|])
  }

  lemma RowsGrow(humanize: Key -> string, s: seq<Attribute>, i: nat)
    requires i < |s|
    ensures RowsFor(humanize, Filter(Usable, s[..i + 1]))
            == RowsFor(humanize, Filter(Usable, s[..i])) + if Usable(s[i]) then [RowFor(humanize, s[i])] else []
  {
    FilterGrows(Usable, s, i);
  }

  /** Once a part of the list fills the card, the rest of it does not matter. */
  lemma FullCard(humanize: Key -> string, s: seq<Attribute>, i: nat, max: nat)
    requires i <= |s| && (|Filter(Usable, s[..i])| == max || (i == |s| && |Filter(Usable, s[..i])| <= max))
    ensures Shown(humanize, s, max) == RowsFor(humanize, Filter(Usable, s[..i]))
  {
    FilterPrefix(Usable, s, i);
    var some, all := Filter(Usable, s[..i]), Filter(Usable, s);
    if i == |s| { assert s[..i] == s; }
    assert some == all[..|some|] && all[..|all|] == all;
  }

  /** `toSpecRows` for an object. The loop stops as soon as the card is full. */
  method ToSpecRows(humanize: Key -> string, attributes: seq<Attribute>, max: nat) returns (rows: seq<Row>)
    ensures rows == Shown(humanize, SortByKey(attributes), max)
  {
    var entries := SortByKey(attributes);
    rows := [];
    for i := 0 to |entries|
      invariant rows == RowsFor(humanize, Filter(Usable, entries[..i]))
      invariant |rows| <= max
    {
      if |rows| >= max {
        FullCard(humanize, entries, i, max);
        return;
      }
      var a := entries[i];
      RowsGrow(humanize, entries, i);
      if a.value.Number? && !a.value.finite { continue; }
      if a.value.Text? && Trim(a.value.text) == "" { continue; }
      if a.value.Other? { continue; }
      rows := rows + [Row(humanize(a.key), a.value.text)];
    }
    FullCard(humanize, entries, |entries|, max);
  }

  /** The card shows the same rows in whatever order the attributes come. */
  lemma OrderDoesNotMatter(humanize: Key -> string, s: seq<Attribute>, t: seq<Attribute>, max: nat)
    requires DistinctKeys(s) && DistinctKeys(t) && forall x :: x in s <==> x in t
    ensures Shown(humanize, SortByKey(s), max) == Shown(humanize, SortByKey(t), max)
  {
    SortKeeps(s);
    SortKeeps(t);
    AscendingIsUnique(SortByKey(s), SortByKey(t));
  }

  // ---------------------------------------------------------------- which rows those are

  /** At the first difference the smaller code unit comes first, and a text before what extends it. */
  ghost predicate Precedes(a: Key, b: Key) {
    exists k: nat | k <= |a| && k <= |b| && a[..k] == b[..k] ::
      (k == |a| && k < |b|) || (k < |a| && k < |b| && a[k] < b[k])
  }

  lemma {:induction false} LessPrecedes(a: Key, b: Key)
    requires KeyLess(a, b)
    ensures Precedes(a, b)
  {
    if a == [] {
      assert a[..0] == b[..0] == [];
    } else if a[0] < b[0] {
      assert a[..0] == b[..0] == [];
    } else {
      LessPrecedes(a[1..], b[1..]);
      var k: nat :| k <= |a[1..]| && k <= |b[1..]| && a[1..][..k] == b[1..][..k]
        && ((k == |a[1..]| && k < |b[1..]|) || (k < |a[1..]| && k < |b[1..]| && a[1..][k] < b[1..][k]));
      assert a[..k + 1] == [a[0]] + a[1..][..k] && b[..k + 1] == [b[0]] + b[1..][..k];
    }
  }

  /** What a card can show: a finite number, or a text with something in it. */
  lemma UsableIff(a: Attribute)
    ensures Usable(a) <==>
            (a.value.Number? && a.value.finite) || (a.value.Text? && exists c <- a.value.text :: !IsSpace(c))
  {
    if a.value.Text? { TrimmedIff(a.value.text); }
  }

  lemma {:induction false} AscendingPrecedes(s: seq<Attribute>, i: nat, j: nat)
    requires Ascending(s) && i < j < |s|
    ensures Precedes(s[i].key, s[j].key)
  {
    if i == 0 {
      assert s[1..][j - 1] == s[j] && s[j] in s[1..];
      LessPrecedes(s[0].key, s[j].key);
    } else {
      AscendingPrecedes(s[1..], i - 1, j - 1);
    }
  }

  lemma {:induction false} FilterAscending(s: seq<Attribute>)
    requires Ascending(s)
    ensures Ascending(Filter(Usable, s))
  {
    if s != [] {
      FilterAscending(s[1..]);
      FilterAppend(Usable, [s[0]], s[1..]);
      assert s == [s[0]] + s[1..] && [s[0]][..0] == [];
      var rest := Filter(Usable, s[1..]);
      forall x | x in rest ensures KeyLess(s[0].key, x.key) { FilterIn(Usable, s[1..], x); }
      if Usable(s[0]) {
        assert Filter(Usable, s) == [s[0]] + rest && ([s[0]] + rest)[1..] == rest;
      } else {
        assert Filter(Usable, s) == rest;
      }
    }
  }

  /** The first of a list in which every key precedes all later ones. */
  lemma FirstPrecede(all: seq<Attribute>, n: nat, a: Attribute)
    requires n <= |all| && forall i, j | 0 <= i < j < |all| :: Precedes(all[i].key, all[j].key)
    requires a in all && a !in all[..n]
    ensures n < |all| && forall c <- all[..n] :: Precedes(c.key, a.key)
  {
    var j :| 0 <= j < |all| && all[j] == a;
    assert forall i | 0 <= i < n :: all[i] == all[..n][i] && all[..n][i] in all[..n];
    assert j >= n;
    forall c | c in all[..n] ensures Precedes(c.key, a.key) {
      var i :| 0 <= i < n && all[..n][i] == c;
      assert all[i] == c;
    }
  }

  lemma UsableSorted(s: seq<Attribute>) returns (usable: seq<Attribute>)
    requires DistinctKeys(s)
    ensures usable == Filter(Usable, SortByKey(s))
    ensures forall a :: a in usable <==> a in s && Usable(a)
    ensures forall i, j | 0 <= i < j < |usable| :: Precedes(usable[i].key, usable[j].key)
  {
    SortKeeps(s);
    usable := Filter(Usable, SortByKey(s));
    FilterAscending(SortByKey(s));
    forall i, j | 0 <= i < j < |usable| ensures Precedes(usable[i].key, usable[j].key) {
      AscendingPrecedes(usable, i, j);
    }
    forall a ensures a in usable <==> a in s && Usable(a) { FilterIn(Usable, SortByKey(s), a); }
  }

  /**
   * The card shows usable attributes only, in the order of their keys' code units, as many as it has
   * room for; and none that it leaves out comes before one that it shows.
   */
  lemma LeastAreShown(humanize: Key -> string, s: seq<Attribute>, max: nat) returns (chosen: seq<Attribute>)
    requires DistinctKeys(s)
    ensures var rows := Shown(humanize, SortByKey(s), max);
            |rows| == |chosen| <= max && forall i | 0 <= i < |rows| ::
              !chosen[i].value.Other? && rows[i] == Row(humanize(chosen[i].key), chosen[i].value.text)
    ensures forall a <- chosen :: a in s && Usable(a)
    ensures forall a | a in s && Usable(a) && a !in chosen ::
              |chosen| == max && forall c <- chosen :: Precedes(c.key, a.key)
    ensures forall i, j | 0 <= i < j < |chosen| :: Precedes(chosen[i].key, chosen[j].key)
  {
    var usable := UsableSorted(s);
    var n := if max < |usable| then max else |usable|;
    chosen := usable[..n];
    forall a | a in chosen ensures a in s && Usable(a) { assert a in usable; }
    forall a | a in s && Usable(a) && a !in chosen
      ensures |chosen| == max && forall c <- chosen :: Precedes(c.key, a.key)
    {
      FirstPrecede(usable, n, a);
    }
  }
}
