/** The shape of the ROOM cells a breadth-first generation run creates, stated
    on the order in which the cells became ROOM: every cell after the first has
    exactly one earlier 4-adjacent cell (its parent), so following parents
    reaches the first cell, and the 4-adjacencies among the cells number one
    fewer than the cells. */
module RoomTree {
  import opened Cells

  /** Cell k's only earlier 4-adjacent cell is cell j. */
  predicate ParentLink(tree: seq<Pos>, k: int, j: int) {
    0 <= j < k < |tree|
    && Adjacent(tree[j], tree[k])
    && forall i :: 0 <= i < k && i != j ==> !Adjacent(tree[i], tree[k])
  }

  predicate Links(tree: seq<Pos>, parent: seq<nat>) {
    |parent| == |tree|
    && forall k :: 0 < k < |tree| ==> ParentLink(tree, k, parent[k])
  }

  /** A non-empty sequence of distinct cells, each after the first linked to its parent. */
  predicate IsRoomTree(tree: seq<Pos>, parent: seq<nat>) {
    |tree| >= 1 && Distinct(tree) && Links(tree, parent)
  }

  lemma ParentLinkExtend(tree: seq<Pos>, p: Pos, k: int, j: int)
    requires ParentLink(tree, k, j)
    ensures ParentLink(tree + [p], k, j)
  {
    var t := tree + [p];
    assert forall i :: 0 <= i <= k ==> t[i] == tree[i];
  }

  /** Appending a cell whose only earlier neighbour is cell j keeps the links. */
  lemma ExtendTree(tree: seq<Pos>, parent: seq<nat>, p: Pos, j: nat)
    requires Links(tree, parent)
    requires ParentLink(tree + [p], |tree|, j)
    ensures Links(tree + [p], parent + [j])
  {
    var t := tree + [p];
    var q := parent + [j];
    forall k | 0 < k < |t| ensures ParentLink(t, k, q[k]) {
      if k < |tree| {
        ParentLinkExtend(tree, p, k, parent[k]);
      }
    }
  }

  /** A path of 4-adjacent steps through the tree from its first cell to cell k. */
  function PathToRoot(tree: seq<Pos>, parent: seq<nat>, k: nat): (path: seq<Pos>)
    requires IsRoomTree(tree, parent) && k < |tree|
    ensures |path| >= 1 && path[0] == tree[0] && path[|path| - 1] == tree[k]
    ensures forall i :: 0 <= i < |path| ==> path[i] in tree
    ensures forall i :: 0 < i < |path| ==> Adjacent(path[i - 1], path[i])
    decreases k
  {
    if k == 0 then [tree[0]] else PathToRoot(tree, parent, parent[k]) + [tree[k]]
  }

  /** Every cell of a room tree is reached from the first cell through tree cells. */
  lemma Connected(tree: seq<Pos>, parent: seq<nat>, c: Pos)
    requires IsRoomTree(tree, parent) && c in tree
    ensures exists path: seq<Pos> ::
      |path| >= 1 && path[0] == tree[0] && path[|path| - 1] == c
      && (forall i :: 0 <= i < |path| ==> path[i] in tree)
      && (forall i :: 0 < i < |path| ==> Adjacent(path[i - 1], path[i]))
  {
    var k :| 0 <= k < |tree| && tree[k] == c;
    var path := PathToRoot(tree, parent, k);
    assert path[|path| - 1] == c;
  }

  /** The earlier cells 4-adjacent to cell k. */
  function EarlierNeighbours(tree: seq<Pos>, k: nat): set<nat>
    requires k < |tree|
  {
    set j: nat | j < k && Adjacent(tree[j], tree[k])
  }

  /** The number of 4-adjacent pairs among the first n cells, each pair counted once. */
  function EdgeCount(tree: seq<Pos>, n: nat): nat
    requires n <= |tree|
  {
    if n == 0 then 0 else EdgeCount(tree, n - 1) + |EarlierNeighbours(tree, n - 1)|
  }

  lemma OneEarlierNeighbour(tree: seq<Pos>, parent: seq<nat>, k: nat)
    requires IsRoomTree(tree, parent) && k < |tree|
    ensures |EarlierNeighbours(tree, k)| == if k == 0 then 0 else 1
  {
    if k == 0 {
      assert EarlierNeighbours(tree, k) == {};
    } else {
      assert EarlierNeighbours(tree, k) == {parent[k]};
    }
  }

  /** A room tree of n cells has n - 1 adjacencies: the cells and the 4-adjacencies
      between them form a tree. */
  lemma {:induction false} TreeEdgeCount(tree: seq<Pos>, parent: seq<nat>, n: nat)
    requires IsRoomTree(tree, parent) && 1 <= n <= |tree|
    ensures EdgeCount(tree, n) == n - 1
  {
    OneEarlierNeighbour(tree, parent, n - 1);
    if n > 1 {
      TreeEdgeCount(tree, parent, n - 1);
    }
  }
}
