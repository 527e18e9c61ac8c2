/**
 * The forest that src/server/repositories/category.ts builds from flat rows, and what flattening it
 * (src/server/catalog-page.ts) gives back. The rows may be corrupt: parents may be missing, and
 * parent links may run in circles.
 */
module CategoryForest {
  import opened Prelude
  import opened Pieces

  datatype Row = Row(id: string, parentId: Option<string>, publishedCount: nat, isFallback: bool)

  datatype Tree = Tree(row: Row, children: seq<Tree>)

  function IdOf(row: Row): string { row.id }

  /** The primary key. */
  ghost predicate DistinctIds(rows: seq<Row>) {
    NoDuplicates(Each(IdOf, rows))
  }

  lemma OneRowPerId(rows: seq<Row>, a: Row, b: Row)
    requires DistinctIds(rows) && a in rows && b in rows && a.id == b.id
    ensures a == b
  {
    NoDuplicatesIff(Each(IdOf, rows));
    var i :| 0 <= i < |rows| && rows[i] == a;
    var j :| 0 <= j < |rows| && rows[j] == b;
    assert Each(IdOf, rows)[i] == Each(IdOf, rows)[j];
  }

  lemma RowsDistinct(rows: seq<Row>)
    requires DistinctIds(rows)
    ensures NoDuplicates(rows)
  {
    NoDuplicatesIff(Each(IdOf, rows));
    NoDuplicatesIff(rows);
    forall i, j | 0 <= i < j < |rows| ensures rows[i] != rows[j] {
      assert Each(IdOf, rows)[i] != Each(IdOf, rows)[j];
    }
  }

  function Ids(rows: seq<Row>): set<string> { set row <- rows :: row.id }

  /** The parent a row is hung under: none if its parent id is null, empty or not among the rows. */
  function ParentKey(ids: set<string>, row: Row): Option<string> {
    if row.parentId.Some? && row.parentId.value != "" && row.parentId.value in ids then row.parentId else None
  }

  /** The rows hung under `key`, in input order; under `None`, the roots. */
  function ChildRows(ids: set<string>, rows: seq<Row>, key: Option<string>): seq<Row> {
    Filter(row => ParentKey(ids, row) == key, rows)
  }

  lemma ChildRowsAre(ids: set<string>, rows: seq<Row>, key: Option<string>)
    ensures forall row :: row in ChildRows(ids, rows, key) <==> row in rows && ParentKey(ids, row) == key
  {
    forall row: Row ensures row in ChildRows(ids, rows, key) <==> row in rows && ParentKey(ids, row) == key {
      FilterIn(r => ParentKey(ids, r) == key, rows, row);
    }
  }

  lemma ChildRowsOnce(rows: seq<Row>, key: Option<string>, row: Row)
    requires DistinctIds(rows)
    ensures Occurrences(ChildRows(Ids(rows), rows, key), row)
            == if row in rows && ParentKey(Ids(rows), row) == key then 1 else 0
  {
    var ids := Ids(rows);
    RowsDistinct(rows);
    FilterOnce(r => ParentKey(ids, r) == key, rows, row);
  }

  ghost function RowWithId(rows: seq<Row>, id: string): (row: Row)
    requires id in Ids(rows)
    ensures row in rows && row.id == id
  {
    var row :| row in rows && row.id == id;
    row
  }

  // ---------------------------------------------------------------- grounded rows

  /** Exactly `n` steps up the parent links lead to a root. */
  ghost predicate Chain(rows: seq<Row>, row: Row, n: nat)
    decreases n
  {
    match ParentKey(Ids(rows), row)
    case None => n == 0
    case Some(key) => n > 0 && Chain(rows, RowWithId(rows, key), n - 1)
  }

  /** The row is neither on a cycle nor below one. */
  ghost predicate Grounded(rows: seq<Row>, row: Row) {
    exists n: nat :: Chain(rows, row, n)
  }

  lemma {:induction false} ChainUnique(rows: seq<Row>, row: Row, m: nat, n: nat)
    requires Chain(rows, row, m) && Chain(rows, row, n)
    ensures m == n
    decreases n
  {
    var key := ParentKey(Ids(rows), row);
    if key.Some? { ChainUnique(rows, RowWithId(rows, key.value), m - 1, n - 1); }
  }

  ghost function Depth(rows: seq<Row>, row: Row): nat
    requires Grounded(rows, row)
  {
    var n: nat :| Chain(rows, row, n);
    n
  }

  lemma DepthIs(rows: seq<Row>, row: Row, n: nat)
    requires Chain(rows, row, n)
    ensures Grounded(rows, row) && Depth(rows, row) == n
  {
    ChainUnique(rows, row, Depth(rows, row), n);
  }

  /** A row stands one level below its parent, and both are grounded or neither is. */
  lemma ChildDepth(rows: seq<Row>, parent: Row, child: Row)
    requires DistinctIds(rows) && parent in rows && ParentKey(Ids(rows), child) == Some(parent.id)
    ensures Grounded(rows, child) <==> Grounded(rows, parent)
    ensures Grounded(rows, parent) ==> Depth(rows, child) == Depth(rows, parent) + 1
  {
    OneRowPerId(rows, RowWithId(rows, parent.id), parent);
    if Grounded(rows, parent) {
      assert Chain(rows, child, Depth(rows, parent) + 1);
      DepthIs(rows, child, Depth(rows, parent) + 1);
    }
    if Grounded(rows, child) { assert Chain(rows, parent, Depth(rows, child) - 1); }
  }

  lemma ChildrenDepth(rows: seq<Row>, parent: Row)
    requires DistinctIds(rows) && parent in rows && Grounded(rows, parent)
    ensures forall c <- ChildRows(Ids(rows), rows, Some(parent.id)) ::
              c in rows && Grounded(rows, c) && Depth(rows, c) == Depth(rows, parent) + 1
  {
    ChildRowsAre(Ids(rows), rows, Some(parent.id));
    forall c | c in ChildRows(Ids(rows), rows, Some(parent.id))
      ensures Grounded(rows, c) && Depth(rows, c) == Depth(rows, parent) + 1
    {
      ChildDepth(rows, parent, c);
    }
  }

  lemma RootDepth(rows: seq<Row>, row: Row)
    requires ParentKey(Ids(rows), row) == None
    ensures Grounded(rows, row) && Depth(rows, row) == 0
  {
    DepthIs(rows, row, 0);
  }

  /** The ancestor of a grounded row that stands at `level`. */
  ghost function AncestorAt(rows: seq<Row>, row: Row, level: nat): (a: Row)
    requires DistinctIds(rows) && row in rows && Grounded(rows, row) && level <= Depth(rows, row)
    ensures a in rows && Grounded(rows, a) && Depth(rows, a) == level
    decreases Depth(rows, row)
  {
    if level == Depth(rows, row) then row
    else
      assert ParentKey(Ids(rows), row).Some? by { if ParentKey(Ids(rows), row).None? { RootDepth(rows, row); } }
      var parent := RowWithId(rows, ParentKey(Ids(rows), row).value);
      ChildDepth(rows, parent, row);
      AncestorAt(rows, parent, level)
  }

  /** The ancestor one level up is the parent of the ancestor below it. */
  lemma {:induction false} AncestorStep(rows: seq<Row>, row: Row, level: nat)
    requires DistinctIds(rows) && row in rows && Grounded(rows, row) && level < Depth(rows, row)
    ensures ParentKey(Ids(rows), AncestorAt(rows, row, level + 1)) == Some(AncestorAt(rows, row, level).id)
    decreases Depth(rows, row)
  {
    if ParentKey(Ids(rows), row).None? { RootDepth(rows, row); }
    var parent := RowWithId(rows, ParentKey(Ids(rows), row).value);
    ChildDepth(rows, parent, row);
    if level + 1 < Depth(rows, row) { AncestorStep(rows, parent, level); }
  }

  lemma RootsDepth(rows: seq<Row>)
    ensures forall r <- ChildRows(Ids(rows), rows, None) :: r in rows && Grounded(rows, r) && Depth(rows, r) == 0
  {
    ChildRowsAre(Ids(rows), rows, None);
    forall r | r in ChildRows(Ids(rows), rows, None) ensures Grounded(rows, r) && Depth(rows, r) == 0 {
      RootDepth(rows, r);
    }
  }

  // ---------------------------------------------------------------- the forest

  /** The trees below `key`, `levels` levels deep. */
  function ForestAt(rows: seq<Row>, key: Option<string>, levels: nat): seq<Tree>
    decreases levels, 1
  {
    if levels == 0 then [] else Trees(rows, ChildRows(Ids(rows), rows, key), levels)
  }

  function Trees(rows: seq<Row>, siblings: seq<Row>, levels: nat): (r: seq<Tree>)
    requires levels > 0
    ensures |r| == |siblings|
    ensures forall i | 0 <= i < |r| :: r[i] == Tree(siblings[i], ForestAt(rows, Some(siblings[i].id), levels - 1))
    decreases levels, 0, |siblings|
  {
    if siblings == [] then []
    else
      var last := siblings[|siblings| - 1];
      Trees(rows, siblings[..|siblings| - 1], levels) + [Tree(last, ForestAt(rows, Some(last.id), levels - 1))]
  }

  /** More levels than any grounded row is deep. */
  ghost function Levels(rows: seq<Row>, k: nat): (levels: nat)
    requires k <= |rows|
    ensures forall i | 0 <= i < k && Grounded(rows, rows[i]) :: Depth(rows, rows[i]) < levels
  {
    if k == 0 then 0
    else
      var before := Levels(rows, k - 1);
      if Grounded(rows, rows[k - 1]) && before <= Depth(rows, rows[k - 1]) then Depth(rows, rows[k - 1]) + 1 else before
  }

  /** The whole forest of a list of rows: finite, though the rows' links may run in circles. */
  ghost function Forest(rows: seq<Row>): seq<Tree> {
    ForestAt(rows, None, Levels(rows, |rows|))
  }

  // ---------------------------------------------------------------- flattening

  /** `flattenTree`: every node before its descendants, siblings in order. */
  function FlattenTree(trees: seq<Tree>): seq<Row> {
    if trees == [] then []
    else FlattenFirst(trees[0]) + FlattenTree(trees[1..])
  }

  function FlattenFirst(t: Tree): seq<Row> { [t.row] + FlattenTree(t.children) }

  lemma {:induction false} FlattenTreeAppend(trees: seq<Tree>, t: Tree)
    ensures FlattenTree(trees + [t]) == FlattenTree(trees) + ([t.row] + FlattenTree(t.children))
    decreases |trees|
  {
    if trees == [] {
      assert (trees + [t])[1..] == [] && (trees + [t])[0] == t;
    } else {
      assert (trees + [t])[1..] == trees[1..] + [t] && (trees + [t])[0] == trees[0];
      FlattenTreeAppend(trees[1..], t);
    }
  }

  function RootOf(t: Tree): Row { t.row }

  lemma {:induction false} FlattenCounts(trees: seq<Tree>, row: Row, share: Option<Row>)
    requires forall t <- trees :: Occurrences(FlattenFirst(t), row) == if share == Some(t.row) then 1 else 0
    ensures Occurrences(FlattenTree(trees), row)
            == if share.Some? then Occurrences(Each(RootOf, trees), share.value) else 0
  {
    if trees != [] {
      FlattenCounts(trees[1..], row, share);
      OccurrencesAppend(FlattenFirst(trees[0]), FlattenTree(trees[1..]), row);
      EachStep(RootOf, trees[0], trees[1..]);
      assert [trees[0]] + trees[1..] == trees;
    }
  }

  /** The row at `level` whose tree, cut `levels` levels deep, is the one that holds `row`, if any does. */
  ghost function Share(rows: seq<Row>, row: Row, level: nat, levels: nat): Option<Row>
    requires DistinctIds(rows)
  {
    if row in rows && Grounded(rows, row) && level <= Depth(rows, row) < level + levels
    then Some(AncestorAt(rows, row, level)) else None
  }

  ghost predicate SharedBelow(rows: seq<Row>, row: Row, key: Option<string>, level: nat, levels: nat)
    requires DistinctIds(rows)
  {
    Share(rows, row, level, levels).Some? && ParentKey(Ids(rows), Share(rows, row, level, levels).value) == key
  }

  lemma ShareStep(rows: seq<Row>, top: Row, level: nat, levels: nat, row: Row)
    requires DistinctIds(rows) && levels > 0
    requires top in rows && Grounded(rows, top) && Depth(rows, top) == level
    ensures Share(rows, row, level, levels) == Some(top)
            <==> row == top || SharedBelow(rows, row, Some(top.id), level + 1, levels - 1)
    ensures !SharedBelow(rows, top, Some(top.id), level + 1, levels - 1)
  {
    if row in rows && Grounded(rows, row) && level < Depth(rows, row) < level + levels {
      AncestorStep(rows, row, level);
      if AncestorAt(rows, row, level).id == top.id { OneRowPerId(rows, AncestorAt(rows, row, level), top); }
    }
  }

  lemma {:induction false} OnceInTree(rows: seq<Row>, t: Tree, level: nat, levels: nat, row: Row)
    requires DistinctIds(rows) && levels > 0
    requires t.row in rows && Grounded(rows, t.row) && Depth(rows, t.row) == level
    requires t.children == ForestAt(rows, Some(t.row.id), levels - 1)
    ensures Occurrences(FlattenFirst(t), row) == if Share(rows, row, level, levels) == Some(t.row) then 1 else 0
    decreases levels, 0
  {
    OnceBelowKey(rows, t.row, level, levels - 1, row);
    ShareStep(rows, t.row, level, levels, row);
  }

  lemma {:induction false} OnceAmongTrees(rows: seq<Row>, siblings: seq<Row>, level: nat, levels: nat, row: Row)
    requires DistinctIds(rows) && levels > 0
    requires forall s <- siblings :: s in rows && Grounded(rows, s) && Depth(rows, s) == level
    ensures var share := Share(rows, row, level, levels);
            Occurrences(FlattenTree(Trees(rows, siblings, levels)), row)
            == if share.Some? then Occurrences(siblings, share.value) else 0
    decreases levels, 1
  {
    var trees := Trees(rows, siblings, levels);
    forall t | t in trees
      ensures Occurrences(FlattenFirst(t), row) == if Share(rows, row, level, levels) == Some(t.row) then 1 else 0
    {
      var i :| 0 <= i < |trees| && trees[i] == t;
      OnceInTree(rows, t, level, levels, row);
    }
    FlattenCounts(trees, row, Share(rows, row, level, levels));
    assert Each(RootOf, trees) == siblings;
  }

  lemma {:induction false} OnceBelowKey(rows: seq<Row>, top: Row, level: nat, levels: nat, row: Row)
    requires DistinctIds(rows) && top in rows && Grounded(rows, top) && Depth(rows, top) == level
    ensures Occurrences(FlattenTree(ForestAt(rows, Some(top.id), levels)), row)
            == if SharedBelow(rows, row, Some(top.id), level + 1, levels) then 1 else 0
    decreases levels, 2
  {
    var siblings := ChildRows(Ids(rows), rows, Some(top.id));
    ChildrenDepth(rows, top);
    if levels > 0 {
      OnceAmongTrees(rows, siblings, level + 1, levels, row);
      var share := Share(rows, row, level + 1, levels);
      if share.Some? { ChildRowsOnce(rows, Some(top.id), share.value); }
    }
  }

  /** Flattening lists every grounded row exactly once and no row on or below a cycle. */
  lemma FlattenIsExact(rows: seq<Row>, row: Row)
    requires DistinctIds(rows)
    ensures Occurrences(FlattenTree(Forest(rows)), row) == if row in rows && Grounded(rows, row) then 1 else 0
  {
    var levels := Levels(rows, |rows|);
    var siblings := ChildRows(Ids(rows), rows, None);
    RootsDepth(rows);
    if levels > 0 { OnceAmongTrees(rows, siblings, 0, levels, row); }
    if row in rows && Grounded(rows, row) {
      var i :| 0 <= i < |rows| && rows[i] == row;
      var root := AncestorAt(rows, row, 0);
      ChildRowsOnce(rows, None, root);
    }
  }

  // ---------------------------------------------------------------- the order of the list

  /** `a` stands somewhere before `b`. */
  ghost predicate Before<T(!new)>(s: seq<T>, a: T, b: T) {
    exists i, j | 0 <= i < j < |s| :: s[i] == a && s[j] == b
  }

  lemma {:induction false} FilterBefore<T(!new)>(p: T -> bool, s: seq<T>, a: T, b: T)
    requires Before(s, a, b) && p(a) && p(b)
    ensures Before(Filter(p, s), a, b)
  {
    var i, j :| 0 <= i < j < |s| && s[i] == a && s[j] == b;
    var n := |s| - 1;
    if j < n {
      assert s[..n][i] == a && s[..n][j] == b;
      FilterBefore(p, s[..n], a, b);
      var k, l :| 0 <= k < l < |Filter(p, s[..n])| && Filter(p, s[..n])[k] == a && Filter(p, s[..n])[l] == b;
      assert Filter(p, s)[k] == a && Filter(p, s)[l] == b;
    } else {
      assert s[..n][i] == a;
      FilterIn(p, s[..n], a);
      var k :| 0 <= k < |Filter(p, s[..n])| && Filter(p, s[..n])[k] == a;
      assert Filter(p, s)[k] == a && Filter(p, s)[|Filter(p, s[..n])|] == b;
    }
  }

  lemma {:induction false} FlattenJoins(a: seq<Tree>, b: seq<Tree>)
    ensures FlattenTree(a + b) == FlattenTree(a) + FlattenTree(b)
  {
    if a == [] {
      assert a + b == b;
    } else {
      assert (a + b)[1..] == a[1..] + b;
      FlattenJoins(a[1..], b);
    }
  }

  /** What is listed for one tree stands behind what is listed for those before it. */
  lemma TreeStands(trees: seq<Tree>, i: nat)
    requires i < |trees|
    ensures HasAt(FlattenTree(trees), FlattenFirst(trees[i]), |FlattenTree(trees[..i])|)
  {
    assert trees == trees[..i] + ([trees[i]] + trees[i + 1..]);
    FlattenJoins(trees[..i], [trees[i]] + trees[i + 1..]);
    assert ([trees[i]] + trees[i + 1..])[1..] == trees[i + 1..];
    HasMiddle(FlattenTree(trees[..i]), FlattenFirst(trees[i]), FlattenTree(trees[i + 1..]));
  }

  lemma RootStands(trees: seq<Tree>, i: nat, k: nat)
    requires i < |trees| && k == |FlattenTree(trees[..i])|
    ensures k < |FlattenTree(trees)| && FlattenTree(trees)[k] == trees[i].row
    ensures HasAt(FlattenTree(trees), FlattenFirst(trees[i]), k)
  {
    TreeStands(trees, i);
    assert FlattenTree(trees)[k] == FlattenTree(trees)[k..k + |FlattenFirst(trees[i])|][0];
  }

  lemma FlattenLonger(trees: seq<Tree>, i: nat, j: nat)
    requires i < j <= |trees|
    ensures |FlattenTree(trees[..i])| < |FlattenTree(trees[..j])|
  {
    var rest := [trees[i]] + trees[i + 1..j];
    assert trees[..j] == trees[..i] + rest && rest[0] == trees[i];
    FlattenJoins(trees[..i], rest);
    assert |FlattenTree(rest)| >= |FlattenFirst(rest[0])| >= 1;
  }

  lemma RootsStandInOrder(trees: seq<Tree>, i: nat, j: nat)
    requires i < j < |trees|
    ensures Before(FlattenTree(trees), trees[i].row, trees[j].row)
  {
    var a, b := |FlattenTree(trees[..i])|, |FlattenTree(trees[..j])|;
    RootStands(trees, i, a);
    RootStands(trees, j, b);
    FlattenLonger(trees, i, j);
  }

  /** What is listed below a row holds what is listed for each of its children. */
  lemma ChildStands(whole: seq<Row>, parent: Row, trees: seq<Tree>, i: nat, at: nat, k: nat)
    requires HasAt(whole, [parent] + FlattenTree(trees), at) && i < |trees| && k == |FlattenTree(trees[..i])|
    ensures HasAt(whole, FlattenFirst(trees[i]), at + 1 + k)
    ensures Before(whole, parent, trees[i].row)
  {
    RootStands(trees, i, k);
    var inner := FlattenTree(trees);
    HasBoth(whole, [parent], inner, at);
    HasInside(whole, inner, at + 1, FlattenFirst(trees[i]), k);
    assert ([parent] + inner)[0] == parent && ([parent] + inner)[k + 1] == trees[i].row;
    BeforeInside(whole, [parent] + inner, at, parent, trees[i].row);
  }

  lemma BeforeInside<T(!new)>(s: seq<T>, piece: seq<T>, at: nat, a: T, b: T)
    requires HasAt(s, piece, at) && Before(piece, a, b)
    ensures Before(s, a, b)
  {
    var i, j :| 0 <= i < j < |piece| && piece[i] == a && piece[j] == b;
    assert s[at + i] == s[at..at + |piece|][i] && s[at + j] == s[at..at + |piece|][j];
  }

  /** How many levels hang below a row. */
  ghost function Below(rows: seq<Row>, row: Row): int
    requires Grounded(rows, row)
  {
    Levels(rows, |rows|) - 1 - Depth(rows, row)
  }

  lemma LevelsLeft(rows: seq<Row>, row: Row)
    requires row in rows && Grounded(rows, row)
    ensures Below(rows, row) >= 0
  {
    var i :| 0 <= i < |rows| && rows[i] == row;
  }

  /** Where a row is among its siblings, and that its tree there is all that hangs below it. */
  lemma AmongSiblings(rows: seq<Row>, row: Row, siblings: seq<Row>, levels: nat) returns (i: nat)
    requires row in rows && siblings == ChildRows(Ids(rows), rows, ParentKey(Ids(rows), row)) && levels > 0
    ensures i < |siblings| && siblings[i] == row
    ensures FlattenFirst(Trees(rows, siblings, levels)[i])
            == [row] + FlattenTree(ForestAt(rows, Some(row.id), levels - 1))
  {
    ChildRowsAre(Ids(rows), rows, ParentKey(Ids(rows), row));
    i :| 0 <= i < |siblings| && siblings[i] == row;
  }

  /** The trees of a row and its siblings. */
  ghost function Family(rows: seq<Row>, row: Row): seq<Tree>
    requires Grounded(rows, row) && Below(rows, row) >= 0
  {
    Trees(rows, ChildRows(Ids(rows), rows, ParentKey(Ids(rows), row)), Below(rows, row) + 1)
  }

  lemma RootFamily(rows: seq<Row>, row: Row)
    requires ParentKey(Ids(rows), row).None? && Grounded(rows, row) && Below(rows, row) >= 0
    ensures Family(rows, row) == Forest(rows)
  {
    RootDepth(rows, row);
  }

  lemma ChildFamily(rows: seq<Row>, parent: Row, row: Row)
    requires DistinctIds(rows) && parent in rows && ParentKey(Ids(rows), row) == Some(parent.id)
    requires Grounded(rows, row) && Below(rows, row) >= 0
    ensures Grounded(rows, parent) && Depth(rows, parent) < Depth(rows, row) && Below(rows, parent) >= 0
    ensures Family(rows, row) == ForestAt(rows, Some(parent.id), Below(rows, parent))
  {
    ChildDepth(rows, parent, row);
  }

  /** The trees of a row and its siblings are listed together. */
  lemma {:induction false} FamilyStands(rows: seq<Row>, row: Row, whole: seq<Row>) returns (at: nat)
    requires DistinctIds(rows) && row in rows && Grounded(rows, row) && whole == FlattenTree(Forest(rows))
    ensures Below(rows, row) >= 0 && HasAt(whole, FlattenTree(Family(rows, row)), at)
    decreases Depth(rows, row), 0
  {
    LevelsLeft(rows, row);
    var key := ParentKey(Ids(rows), row);
    if key.None? {
      RootFamily(rows, row);
      at := 0;
    } else {
      var parent := RowWithId(rows, key.value);
      ChildFamily(rows, parent, row);
      var above := SubtreeStands(rows, parent, whole);
      HasBoth(whole, [parent], FlattenTree(Family(rows, row)), above);
      at := above + 1;
    }
  }

  /** So are a row and all that hangs below it. */
  lemma {:induction false} SubtreeStands(rows: seq<Row>, row: Row, whole: seq<Row>) returns (at: nat)
    requires DistinctIds(rows) && row in rows && Grounded(rows, row) && whole == FlattenTree(Forest(rows))
    ensures Below(rows, row) >= 0
    ensures HasAt(whole, [row] + FlattenTree(ForestAt(rows, Some(row.id), Below(rows, row))), at)
    decreases Depth(rows, row), 1
  {
    var above := FamilyStands(rows, row, whole);
    var i := AmongSiblings(rows, row, ChildRows(Ids(rows), rows, ParentKey(Ids(rows), row)), Below(rows, row) + 1);
    at := MemberStands(whole, Family(rows, row), i, above);
  }

  lemma MemberStands(whole: seq<Row>, family: seq<Tree>, i: nat, above: nat) returns (at: nat)
    requires i < |family| && HasAt(whole, FlattenTree(family), above)
    ensures HasAt(whole, FlattenFirst(family[i]), at)
  {
    var k := |FlattenTree(family[..i])|;
    RootStands(family, i, k);
    HasInside(whole, FlattenTree(family), above, FlattenFirst(family[i]), k);
    at := above + k;
  }

  lemma ParentStandsFirst(rows: seq<Row>, parent: Row, child: Row, whole: seq<Row>)
    requires DistinctIds(rows) && parent in rows && child in rows && Grounded(rows, parent) && Grounded(rows, child)
    requires ParentKey(Ids(rows), child) == Some(parent.id) && whole == FlattenTree(Forest(rows))
    ensures Before(whole, parent, child)
  {
    ChildDepth(rows, parent, child);
    LevelsLeft(rows, child);
    var at := SubtreeStands(rows, parent, whole);
    var siblings, levels := ChildRows(Ids(rows), rows, Some(parent.id)), Below(rows, parent);
    var i := AmongSiblings(rows, child, siblings, levels);
    var trees := Trees(rows, siblings, levels);
    ChildStands(whole, parent, trees, i, at, |FlattenTree(trees[..i])|);
  }

  lemma SiblingsStandInOrder(rows: seq<Row>, a: Row, b: Row, whole: seq<Row>)
    requires DistinctIds(rows) && a in rows && b in rows && Grounded(rows, a) && whole == FlattenTree(Forest(rows))
    requires ParentKey(Ids(rows), a) == ParentKey(Ids(rows), b) && Before(rows, a, b)
    ensures Before(whole, a, b)
  {
    var key := ParentKey(Ids(rows), a);
    FilterBefore(row => ParentKey(Ids(rows), row) == key, rows, a, b);
    var at := FamilyStands(rows, a, whole);
    var siblings, family := ChildRows(Ids(rows), rows, key), Family(rows, a);
    var i, j :| 0 <= i < j < |siblings| && siblings[i] == a && siblings[j] == b;
    RootsStandInOrder(family, i, j);
    BeforeInside(whole, FlattenTree(family), at, a, b);
  }

  /** In the list a parent stands before its children, and siblings stand in input order. */
  lemma FlattenIsInOrder(rows: seq<Row>, a: Row, b: Row)
    requires DistinctIds(rows) && a in rows && b in rows && Grounded(rows, a) && Grounded(rows, b)
    ensures ParentKey(Ids(rows), b) == Some(a.id) ==> Before(FlattenTree(Forest(rows)), a, b)
    ensures ParentKey(Ids(rows), a) == ParentKey(Ids(rows), b) && Before(rows, a, b) ==>
              Before(FlattenTree(Forest(rows)), a, b)
  {
    var whole := FlattenTree(Forest(rows));
    if ParentKey(Ids(rows), b) == Some(a.id) { ParentStandsFirst(rows, a, b, whole); }
    if ParentKey(Ids(rows), a) == ParentKey(Ids(rows), b) && Before(rows, a, b) {
      SiblingsStandInOrder(rows, a, b, whole);
    }
  }

  // ---------------------------------------------------------------- the totals

  datatype Signals = Signals(itemCount: nat, fallbackFields: nat, totalFields: nat)

  function Published(row: Row): nat { row.publishedCount }

  function FellBack(row: Row): nat { if row.isFallback then 1 else 0 }

  /** `catalogSignals`. */
  function CatalogSignals(tree: seq<Tree>): Signals {
    var nodes := FlattenTree(tree);
    Signals(Sum(Published, nodes), Sum(FellBack, nodes), |nodes|)
  }

  /** The grounded rows in input order. */
  ghost function GroundedRows(rows: seq<Row>): seq<Row> {
    Filter(row => Grounded(rows, row), rows)
  }

  lemma FlattenIsGrounded(rows: seq<Row>)
    requires DistinctIds(rows)
    ensures multiset(FlattenTree(Forest(rows))) == multiset(GroundedRows(rows))
  {
    RowsDistinct(rows);
    forall row: Row ensures multiset(FlattenTree(Forest(rows)))[row] == multiset(GroundedRows(rows))[row] {
      OccurrencesInMultiset(FlattenTree(Forest(rows)), row);
      OccurrencesInMultiset(GroundedRows(rows), row);
      FlattenIsExact(rows, row);
      FilterOnce(r => Grounded(rows, r), rows, row);
    }
  }

  function PublishedTotal(rows: seq<Row>): nat {
    if rows == [] then 0 else rows[0].publishedCount + PublishedTotal(rows[1..])
  }

  lemma {:induction false} SumsAreTotals(rows: seq<Row>)
    ensures Sum(Published, rows) == PublishedTotal(rows)
    ensures Sum(FellBack, rows) == |Filter((row: Row) => row.isFallback, rows)|
  {
    if rows != [] {
      SumsAreTotals(rows[1..]);
      FilterAppend((row: Row) => row.isFallback, [rows[0]], rows[1..]);
      assert rows == [rows[0]] + rows[1..] && [rows[0]][..0] == [];
    }
  }

  /**
   * The page's totals are those of the grounded rows - all their published products, those of them whose
   * name is a fallback, and how many they are: nothing is counted twice, nothing else is lost.
   */
  lemma SignalsAreExact(rows: seq<Row>)
    requires DistinctIds(rows)
    ensures var visible := GroundedRows(rows);
            CatalogSignals(Forest(rows)) == Signals(PublishedTotal(visible),
                                                    |Filter((row: Row) => row.isFallback, visible)|, |visible|)
  {
    FlattenIsGrounded(rows);
    SumPermuted(Published, FlattenTree(Forest(rows)), GroundedRows(rows));
    SumPermuted(FellBack, FlattenTree(Forest(rows)), GroundedRows(rows));
    SumsAreTotals(GroundedRows(rows));
  }

  /** Every category is counted exactly when no row is on or below a cycle, and then so is every product. */
  lemma NothingLostIff(rows: seq<Row>)
    requires DistinctIds(rows)
    ensures CatalogSignals(Forest(rows)).totalFields == |rows| <==> forall row <- rows :: Grounded(rows, row)
    ensures (forall row <- rows :: Grounded(rows, row)) ==>
              CatalogSignals(Forest(rows)).itemCount == PublishedTotal(rows)
  {
    SignalsAreExact(rows);
    FilterAllIff(row => Grounded(rows, row), rows);
  }
}
