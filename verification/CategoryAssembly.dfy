/**
 * `assembleCategoryTree` (src/server/repositories/category.ts) as it runs: nodes are made once, and
 * then pushed into one another's `children`.
 */
module CategoryAssembly {
  import opened Prelude
  import opened Pieces
  import opened CategoryForest

  class CategoryNode {
    const row: Row
    var children: seq<CategoryNode>

    constructor (row: Row)
      ensures this.row == row && children == []
    {
      this.row := row;
      children := [];
    }
  }

  type Nodes = map<string, CategoryNode>

  /** A node for every id among the rows, made from the row with that id, and no node twice. */
  ghost predicate NodesOf(nodes: Nodes, rows: seq<Row>) {
    && nodes.Keys == Ids(rows)
    && (forall row <- rows :: nodes[row.id].row == row)
    && (forall a, b | a in nodes && b in nodes && a != b :: nodes[a] != nodes[b])
  }

  function Lookup(nodes: Nodes, rows: seq<Row>): (r: seq<CategoryNode>)
    requires forall row <- rows :: row.id in nodes
    ensures |r| == |rows| && forall i | 0 <= i < |r| :: r[i] == nodes[rows[i].id]
  {
    seq(|rows|, i requires 0 <= i < |rows| => nodes[rows[i].id])
  }

  method MakeNodes(rows: seq<Row>) returns (nodes: Nodes)
    requires DistinctIds(rows)
    ensures NodesOf(nodes, rows)
    ensures forall id | id in nodes :: fresh(nodes[id]) && nodes[id].children == []
  {
    nodes := map[];
    for i := 0 to |rows|
      invariant NodesOf(nodes, rows[..i])
      invariant forall id | id in nodes :: fresh(nodes[id]) && nodes[id].children == []
    {
      var node := new CategoryNode(rows[i]);
      PrefixIds(rows, i);
      nodes := nodes[rows[i].id := node];
    }
    assert rows[..|rows|] == rows;
  }

  lemma PrefixIds(rows: seq<Row>, i: nat)
    requires DistinctIds(rows) && i < |rows|
    ensures rows[i].id !in Ids(rows[..i]) && rows[..i + 1] == rows[..i] + [rows[i]]
  {
    NoDuplicatesIff(Each(IdOf, rows));
    forall row | row in rows[..i] ensures row.id != rows[i].id {
      var j :| 0 <= j < i && rows[j] == row;
      assert Each(IdOf, rows)[j] != Each(IdOf, rows)[i];
    }
  }

  /** The nodes of the first `i` rows that hang under `key`. */
  ghost function Hung(nodes: Nodes, rows: seq<Row>, i: nat, key: Option<string>): seq<CategoryNode>
    requires i <= |rows| && NodesOf(nodes, rows)
  {
    ChildRowsAre(Ids(rows), rows[..i], key);
    Lookup(nodes, ChildRows(Ids(rows), rows[..i], key))
  }

  lemma HungGrows(nodes: Nodes, rows: seq<Row>, i: nat, key: Option<string>)
    requires i < |rows| && NodesOf(nodes, rows)
    ensures rows[i].id in nodes
    ensures Hung(nodes, rows, i + 1, key)
            == Hung(nodes, rows, i, key) + if ParentKey(Ids(rows), rows[i]) == key then [nodes[rows[i].id]] else []
  {
    assert rows[..i + 1][..i] == rows[..i];
  }

  ghost predicate Linked(nodes: Nodes, rows: seq<Row>, i: nat)
    requires i <= |rows| && NodesOf(nodes, rows)
    reads set id | id in nodes :: nodes[id]
  {
    forall id | id in nodes :: nodes[id].children == Hung(nodes, rows, i, Some(id))
  }

  lemma AllHungGrow(nodes: Nodes, rows: seq<Row>, i: nat)
    requires i < |rows| && NodesOf(nodes, rows)
    ensures rows[i].id in nodes
    ensures var key, node := ParentKey(Ids(rows), rows[i]), nodes[rows[i].id];
            && Hung(nodes, rows, i + 1, None) == Hung(nodes, rows, i, None) + (if key == None then [node] else [])
            && forall id | id in nodes ::
                 Hung(nodes, rows, i + 1, Some(id))
                 == Hung(nodes, rows, i, Some(id)) + if key == Some(id) then [node] else []
  {
    HungGrows(nodes, rows, i, None);
    forall id | id in nodes ensures Hung(nodes, rows, i + 1, Some(id))
      == Hung(nodes, rows, i, Some(id)) + if ParentKey(Ids(rows), rows[i]) == Some(id) then [nodes[rows[i].id]] else []
    {
      HungGrows(nodes, rows, i, Some(id));
    }
  }

  /** One turn of the second loop. */
  method Place(nodes: Nodes, rows: seq<Row>, i: nat, roots: seq<CategoryNode>) returns (r: seq<CategoryNode>)
    requires i < |rows| && NodesOf(nodes, rows)
    requires Linked(nodes, rows, i) && roots == Hung(nodes, rows, i, None)
    modifies set id | id in nodes :: nodes[id]
    ensures Linked(nodes, rows, i + 1) && r == Hung(nodes, rows, i + 1, None)
  {
    var row := rows[i];
    AllHungGrow(nodes, rows, i);
    var node := nodes[row.id];
    if row.parentId.Some? && row.parentId.value != "" && row.parentId.value in nodes {
      var parent := nodes[row.parentId.value];
      parent.children := parent.children + [node];
      r := roots;
    } else {
      r := roots + [node];
    }
  }

  /** The second loop. */
  method PlaceAll(nodes: Nodes, rows: seq<Row>) returns (roots: seq<CategoryNode>)
    requires NodesOf(nodes, rows) && forall id | id in nodes :: nodes[id].children == []
    modifies set id | id in nodes :: nodes[id]
    ensures Linked(nodes, rows, |rows|) && roots == Hung(nodes, rows, |rows|, None)
  {
    roots := [];
    for i := 0 to |rows|
      invariant Linked(nodes, rows, i) && roots == Hung(nodes, rows, i, None)
    {
      roots := Place(nodes, rows, i, roots);
    }
  }

  // ---------------------------------------------------------------- what the roots reach

  ghost function Heap(nodes: Nodes): set<CategoryNode> { set id | id in nodes :: nodes[id] }

  /** The structure under a node is the finite tree `t`. */
  ghost predicate Represents(node: CategoryNode, t: Tree, heap: set<CategoryNode>)
    reads heap
    decreases t
  {
    && node in heap && node.row == t.row
    && AllRepresent(node.children, t.children, heap)
  }

  ghost predicate AllRepresent(nodes: seq<CategoryNode>, trees: seq<Tree>, heap: set<CategoryNode>)
    reads heap
    decreases trees
  {
    |nodes| == |trees| && forall i | 0 <= i < |trees| :: Represents(nodes[i], trees[i], heap)
  }

  /** Nodes that stand for rows at one level represent their trees, if those go deep enough. */
  lemma {:induction false} SiblingsRepresent(nodes: Nodes, rows: seq<Row>, siblings: seq<Row>, level: nat, levels: nat)
    requires DistinctIds(rows) && NodesOf(nodes, rows) && Linked(nodes, rows, |rows|)
    requires levels > 0 && level + levels == Levels(rows, |rows|)
    requires forall s <- siblings :: s in rows && Grounded(rows, s) && Depth(rows, s) == level
    ensures AllRepresent(Lookup(nodes, siblings), Trees(rows, siblings, levels), Heap(nodes))
    decreases levels, 0
  {
    forall i | 0 <= i < |siblings|
      ensures Represents(nodes[siblings[i].id], Trees(rows, siblings, levels)[i], Heap(nodes))
    {
      NodeRepresents(nodes, rows, siblings[i], level, levels - 1);
    }
  }

  lemma ChildrenAre(nodes: Nodes, rows: seq<Row>, s: Row)
    requires NodesOf(nodes, rows) && Linked(nodes, rows, |rows|) && s in rows
    ensures forall c <- ChildRows(Ids(rows), rows, Some(s.id)) :: c in rows
    ensures nodes[s.id].row == s && nodes[s.id].children == Lookup(nodes, ChildRows(Ids(rows), rows, Some(s.id)))
  {
    ChildRowsAre(Ids(rows), rows, Some(s.id));
    assert rows[..|rows|] == rows;
  }

  lemma {:induction false} NodeRepresents(nodes: Nodes, rows: seq<Row>, s: Row, level: nat, levels: nat)
    requires DistinctIds(rows) && NodesOf(nodes, rows) && Linked(nodes, rows, |rows|)
    requires level + 1 + levels == Levels(rows, |rows|)
    requires s in rows && Grounded(rows, s) && Depth(rows, s) == level
    ensures Represents(nodes[s.id], Tree(s, ForestAt(rows, Some(s.id), levels)), Heap(nodes))
    decreases levels, 1
  {
    var below := ChildRows(Ids(rows), rows, Some(s.id));
    ChildrenDepth(rows, s);
    ChildrenAre(nodes, rows, s);
    if levels > 0 {
      SiblingsRepresent(nodes, rows, below, level + 1, levels);
    } else {
      AnyIsWithin(rows, below, level + 1);
    }
  }

  lemma AnyIsWithin(rows: seq<Row>, siblings: seq<Row>, level: nat)
    requires forall s <- siblings :: s in rows && Grounded(rows, s) && Depth(rows, s) == level
    ensures siblings != [] ==> level < Levels(rows, |rows|)
  {
    if siblings != [] {
      assert siblings[0] in siblings;
      var i :| 0 <= i < |rows| && rows[i] == siblings[0];
    }
  }

  /** The links of the finished assembly form exactly the finite forest of the rows. */
  lemma RootsRepresent(nodes: Nodes, rows: seq<Row>)
    requires DistinctIds(rows) && NodesOf(nodes, rows) && Linked(nodes, rows, |rows|)
    ensures AllRepresent(Hung(nodes, rows, |rows|, None), Forest(rows), Heap(nodes))
  {
    var roots := ChildRows(Ids(rows), rows, None);
    assert rows[..|rows|] == rows;
    RootsDepth(rows);
    if Levels(rows, |rows|) > 0 {
      SiblingsRepresent(nodes, rows, roots, 0, Levels(rows, |rows|));
    } else {
      AnyIsWithin(rows, roots, 0);
    }
  }

  /**
   * `assembleCategoryTree`: every row's node hangs under its parent's node, siblings in input order,
   * and the rows without a parent are the roots, in input order.
   */
  method AssembleCategoryTree(rows: seq<Row>) returns (roots: seq<CategoryNode>, ghost nodes: Nodes)
    requires DistinctIds(rows)
    ensures NodesOf(nodes, rows) && forall id | id in nodes :: fresh(nodes[id])
    ensures Linked(nodes, rows, |rows|) && roots == Hung(nodes, rows, |rows|, None)
    ensures AllRepresent(roots, Forest(rows), Heap(nodes))
  {
    var byId := MakeNodes(rows);
    nodes := byId;
    roots := PlaceAll(byId, rows);
    RootsRepresent(byId, rows);
  }

  function RowOf(node: CategoryNode): Row { node.row }

  /** `flattenTree` on the linked nodes: it comes to an end and lists what the forest holds. */
  method FlattenNodes(nodes: seq<CategoryNode>, ghost trees: seq<Tree>, ghost heap: set<CategoryNode>)
    returns (flat: seq<CategoryNode>)
    requires AllRepresent(nodes, trees, heap)
    ensures Each(RowOf, flat) == FlattenTree(trees)
    decreases trees
  {
    flat := [];
    for i := 0 to |nodes|
      invariant Each(RowOf, flat) == FlattenTree(trees[..i])
    {
      assert Represents(nodes[i], trees[i], heap);
      var below := FlattenNodes(nodes[i].children, trees[i].children, heap);
      FlattenTreeAppend(trees[..i], trees[i]);
      assert trees[..i + 1] == trees[..i] + [trees[i]];
      flat := flat + [nodes[i]] + below;
    }
    assert trees[..|nodes|] == trees;
  }

  /** What the page counts: every grounded row exactly once, whatever the parent ids say. */
  method PageSignals(rows: seq<Row>) returns (signals: Signals, flat: seq<CategoryNode>)
    requires DistinctIds(rows)
    ensures signals == CatalogSignals(Forest(rows))
    ensures forall row :: Occurrences(Each(RowOf, flat), row) == if row in rows && Grounded(rows, row) then 1 else 0
  {
    var roots, nodes := AssembleCategoryTree(rows);
    flat := FlattenNodes(roots, Forest(rows), Heap(nodes));
    var listed := Each(RowOf, flat);
    signals := Signals(Sum(Published, listed), Sum(FellBack, listed), |flat|);
    forall row: Row
      ensures Occurrences(FlattenTree(Forest(rows)), row) == if row in rows && Grounded(rows, row) then 1 else 0
    {
      FlattenIsExact(rows, row);
    }
  }
}
