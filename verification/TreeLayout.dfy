/**
 Placing the nodes of the spanning tree (scripts/demo_scenarios.py, `place` and the leftover pass).

 LeafCount, FirstLeaf and Column say where a node belongs; the lemmas say that this is a tidy layout;
 the class runs the recursive placement with its shared column counter and refines them.
 */
module TreeLayout {
  import opened SpanningTree

  ghost predicate IsLeaf(t: Tree, i: nat)
    requires t.Valid() && i < |t.order|
  {
    t.first[i] == t.past[i]
  }

  /** How many leaves the subtree of node i has. */
  ghost function LeafCount(t: Tree, i: nat): (n: nat)
    requires t.Valid() && i < |t.order|
    ensures 1 <= n
    decreases |t.order| - i, 0
  {
    if IsLeaf(t, i) then 1 else LeavesBetween(t, t.first[i], t.past[i])
  }

  /** How many leaves the subtrees of the nodes lo .. hi - 1 have together. */
  ghost function LeavesBetween(t: Tree, lo: nat, hi: nat): (n: nat)
    requires t.Valid() && lo <= hi <= |t.order|
    ensures lo < hi ==> 1 <= n
    decreases |t.order| - lo, hi - lo + 1
  {
    if lo == hi then 0 else LeafCount(t, lo) + LeavesBetween(t, lo + 1, hi)
  }

  /** How many leaves lie to the left of the subtree of node i. */
  ghost function FirstLeaf(t: Tree, i: nat): nat
    requires t.Valid() && i < |t.order|
  {
    if i == 0 then 0
    else if i == t.first[t.parent[i]] then FirstLeaf(t, t.parent[i])
    else FirstLeaf(t, i - 1) + LeafCount(t, i - 1)
  }

  /** A leaf has the column of its place among the leaves; an inner node the middle of its outer children. */
  ghost function Column(t: Tree, i: nat): real
    requires t.Valid() && i < |t.order|
    decreases |t.order| - i
  {
    if IsLeaf(t, i) then FirstLeaf(t, i) as real
    else (Column(t, t.first[i]) + Column(t, t.past[i] - 1)) / 2.0
  }

  /** Node j lies in the subtree of node i. */
  ghost predicate Under(t: Tree, j: nat, i: nat)
    requires t.Valid() && j < |t.order|
    decreases j
  {
    j == i || (i < j && Under(t, t.parent[j], i))
  }

  // ---------------------------------------------------------------- the shape of the subtrees

  lemma {:induction false} UnderTransitive(t: Tree, k: nat, j: nat, i: nat)
    requires t.Valid() && k < |t.order| && j < |t.order| && Under(t, k, j) && Under(t, j, i)
    ensures Under(t, k, i)
    decreases k
  {
    if k != j {
      UnderTransitive(t, t.parent[k], j, i);
    }
  }

  /** Two nodes above the same node lie on one path from the root. */
  lemma {:induction false} AncestorsComparable(t: Tree, k: nat, i: nat, j: nat)
    requires t.Valid() && k < |t.order| && i <= j < |t.order| && Under(t, k, i) && Under(t, k, j)
    ensures Under(t, j, i)
    decreases k
  {
    if k != j && k != i {
      AncestorsComparable(t, t.parent[k], i, j);
    }
  }

  lemma {:induction false} DeeperBelow(t: Tree, j: nat, i: nat)
    requires t.Valid() && j < |t.order| && i < |t.order| && Under(t, j, i)
    ensures t.depth[i] <= t.depth[j] && (t.depth[i] == t.depth[j] ==> i == j)
    decreases j
  {
    if i != j {
      DeeperBelow(t, t.parent[j], i);
    }
  }

  /** A node below i other than i itself lies below exactly one child of i. */
  lemma {:induction false} ChildAbove(t: Tree, j: nat, i: nat) returns (k: nat)
    requires t.Valid() && j < |t.order| && i < |t.order| && Under(t, j, i) && i != j
    ensures t.first[i] <= k < t.past[i] && Under(t, j, k)
    decreases j
  {
    if t.parent[j] == i {
      k := j;
    } else {
      k := ChildAbove(t, t.parent[j], i);
    }
  }

  // ---------------------------------------------------------------- column intervals

  /** Siblings take their leaves from left to right. */
  lemma {:induction false} SiblingsInOrder(t: Tree, p: nat, j: nat, k: nat)
    requires t.Valid() && p < |t.order| && t.first[p] <= j <= k < t.past[p]
    ensures FirstLeaf(t, k) == FirstLeaf(t, j) + LeavesBetween(t, j, k)
    decreases k - j
  {
    if j < k {
      assert t.parent[j + 1] == p && t.first[p] != j + 1;
      SiblingsInOrder(t, p, j + 1, k);
    }
  }

  lemma {:induction false} LeavesSplit(t: Tree, lo: nat, mid: nat, hi: nat)
    requires t.Valid() && lo <= mid <= hi <= |t.order|
    ensures LeavesBetween(t, lo, hi) == LeavesBetween(t, lo, mid) + LeavesBetween(t, mid, hi)
    decreases mid - lo
  {
    if lo < mid {
      LeavesSplit(t, lo + 1, mid, hi);
    }
  }

  /** A child's leaves are among its parent's. */
  lemma ChildWithin(t: Tree, p: nat, k: nat)
    requires t.Valid() && p < |t.order| && t.first[p] <= k < t.past[p]
    ensures FirstLeaf(t, p) <= FirstLeaf(t, k)
    ensures FirstLeaf(t, k) + LeafCount(t, k) <= FirstLeaf(t, p) + LeafCount(t, p)
  {
    assert t.parent[t.first[p]] == p;
    SiblingsInOrder(t, p, t.first[p], k);
    LeavesSplit(t, t.first[p], k, t.past[p]);
    assert LeavesBetween(t, k, t.past[p]) == LeafCount(t, k) + LeavesBetween(t, k + 1, t.past[p]);
  }

  /** The leaves of a subtree are consecutive, and those of a subtree inside it are among them. */
  lemma {:induction false} Nested(t: Tree, j: nat, i: nat)
    requires t.Valid() && j < |t.order| && i < |t.order| && Under(t, j, i)
    ensures FirstLeaf(t, i) <= FirstLeaf(t, j)
    ensures FirstLeaf(t, j) + LeafCount(t, j) <= FirstLeaf(t, i) + LeafCount(t, i)
    decreases j
  {
    if i != j {
      Nested(t, t.parent[j], i);
      ChildWithin(t, t.parent[j], j);
    }
  }

  lemma SiblingsApart(t: Tree, p: nat, j: nat, k: nat)
    requires t.Valid() && p < |t.order| && t.first[p] <= j < k < t.past[p]
    ensures FirstLeaf(t, j) + LeafCount(t, j) <= FirstLeaf(t, k)
  {
    SiblingsInOrder(t, p, j, k);
  }

  /** Subtrees neither of which contains the other take disjoint column intervals. */
  lemma {:induction false} Apart(t: Tree, j: nat, k: nat)
    requires t.Valid() && j < k < |t.order| && !Under(t, k, j)
    ensures FirstLeaf(t, j) + LeafCount(t, j) <= FirstLeaf(t, k) || FirstLeaf(t, k) + LeafCount(t, k) <= FirstLeaf(t, j)
    decreases j + k
  {
    var p := t.parent[k];
    if Under(t, j, p) {
      var s := ChildAbove(t, j, p);
      Nested(t, j, s);
      SiblingsApart(t, p, s, k);
    } else if p < j {
      Apart(t, p, j);
      ChildWithin(t, p, k);
    } else {
      Apart(t, j, p);
      ChildWithin(t, p, k);
    }
  }

  /** A node stands within the column interval of its subtree. */
  lemma {:induction false} ColumnWithin(t: Tree, i: nat)
    requires t.Valid() && i < |t.order|
    ensures FirstLeaf(t, i) as real <= Column(t, i) <= (FirstLeaf(t, i) + LeafCount(t, i) - 1) as real
    decreases |t.order| - i
  {
    if !IsLeaf(t, i) {
      var a, b := t.first[i], t.past[i] - 1;
      ColumnWithin(t, a);
      ColumnWithin(t, b);
      ChildWithin(t, i, a);
      ChildWithin(t, i, b);
      hide FirstLeaf, LeafCount, Tree.Valid;
      assert Column(t, i) == (Column(t, a) + Column(t, b)) / 2.0;
    }
  }

  /** No two nodes stand in the same place. */
  lemma PlacesDistinct(t: Tree, j: nat, k: nat)
    requires t.Valid() && j < k < |t.order|
    ensures t.depth[j] != t.depth[k] || Column(t, j) != Column(t, k)
  {
    if t.depth[j] == t.depth[k] {
      if Under(t, k, j) {
        DeeperBelow(t, k, j);
      }
      Apart(t, j, k);
      ColumnWithin(t, j);
      ColumnWithin(t, k);
    }
  }

  /** Every column of a subtree's interval is the column of one of its leaves, so the columns have no gaps. */
  lemma {:induction false} LeafInColumn(t: Tree, i: nat, c: nat) returns (leaf: nat)
    requires t.Valid() && i < |t.order| && FirstLeaf(t, i) <= c < FirstLeaf(t, i) + LeafCount(t, i)
    ensures leaf < |t.order| && Under(t, leaf, i) && IsLeaf(t, leaf) && Column(t, leaf) == c as real
    decreases |t.order| - i
  {
    if IsLeaf(t, i) {
      leaf := i;
    } else {
      assert t.parent[t.first[i]] == i;
      var k := t.first[i];
      while c >= FirstLeaf(t, k) + LeafCount(t, k)
        invariant t.first[i] <= k < t.past[i] && FirstLeaf(t, k) <= c
        decreases t.past[i] - k
      {
        SiblingsInOrder(t, i, t.first[i], k);
        LeavesSplit(t, t.first[i], k, t.past[i]);
        assert LeavesBetween(t, k, t.past[i]) == LeafCount(t, k) + LeavesBetween(t, k + 1, t.past[i]);
        assert t.parent[k] == i && (k + 1 < t.past[i] ==> t.parent[k + 1] == i);
        k := k + 1;
      }
      leaf := LeafInColumn(t, k, c);
      UnderTransitive(t, leaf, k, i);
    }
  }

  // ---------------------------------------------------------------- the placement

  /** A (column, row) pair; columns are halved but never rounded, so exact numbers stand for the floats. */
  datatype Place = Place(col: real, row: int)

  ghost function Position(t: Tree, i: nat): Place
    requires t.Valid() && i < |t.order|
  {
    Place(Column(t, i), t.depth[i])
  }

  ghost function Subtree(t: Tree, i: nat): (nodes: set<nat>)
    requires t.Valid() && i < |t.order|
    ensures forall j :: j in nodes ==> j < |t.order|
  {
    set j: nat | j < |t.order| && Under(t, j, i)
  }

  /** The nodes in the subtrees of lo .. hi - 1. */
  ghost function Forest(t: Tree, lo: nat, hi: nat): set<nat>
    requires t.Valid() && lo <= hi <= |t.order|
  {
    set j: nat | j < |t.order| && UnderOne(t, j, lo, hi)
  }

  ghost predicate UnderOne(t: Tree, j: nat, lo: nat, hi: nat)
    requires t.Valid() && j < |t.order|
  {
    exists k: nat :: lo <= k < hi && Under(t, j, k)
  }

  /** A subtree is its root and the subtrees of the root's children. */
  lemma SubtreeUnfolds(t: Tree, i: nat)
    requires t.Valid() && i < |t.order|
    ensures Subtree(t, i) == {i} + Forest(t, t.first[i], t.past[i])
    ensures i !in Forest(t, t.first[i], t.past[i])
  {
    forall j: nat | j < |t.order|
      ensures j in Subtree(t, i) <==> j == i || j in Forest(t, t.first[i], t.past[i])
    {
      if j in Subtree(t, i) && j != i {
        var k := ChildAbove(t, j, i);
        assert UnderOne(t, j, t.first[i], t.past[i]);
      }
      if j in Forest(t, t.first[i], t.past[i]) {
        var k: nat :| t.first[i] <= k < t.past[i] && Under(t, j, k);
        assert t.parent[k] == i;
        UnderTransitive(t, j, k, i);
      }
    }
  }

  /** The subtree of the next child is disjoint from those of the children before it. */
  lemma NextSubtreeFresh(t: Tree, i: nat, k: nat)
    requires t.Valid() && i < |t.order| && t.first[i] <= k < t.past[i]
    ensures Subtree(t, k) !! Forest(t, t.first[i], k)
    ensures Subtree(t, k) <= Subtree(t, i)
  {
    assert t.parent[k] == i;
    forall j | j in Forest(t, t.first[i], k) ensures j !in Subtree(t, k) {
      var m: nat :| t.first[i] <= m < k && Under(t, j, m);
      if Under(t, j, k) {
        AncestorsComparable(t, j, m, k);
        assert false;
      }
    }
    forall j | j in Subtree(t, k) ensures j in Subtree(t, i) {
      UnderTransitive(t, j, k, i);
    }
  }

  ghost function Names(t: Tree, nodes: set<nat>): set<Name>
    requires t.Valid() && forall j :: j in nodes ==> j < |t.order|
  {
    set j | j in nodes :: t.order[j]
  }

  /** Exactly the given nodes have been placed on top of what `before` holds. */
  ghost predicate Adds(t: Tree, before: map<Name, Place>, after: map<Name, Place>, nodes: set<nat>)
    requires t.Valid()
  {
    && (forall j :: j in nodes ==> j < |t.order|)
    && after.Keys == before.Keys + Names(t, nodes)
    && (forall v :: v in before ==> after[v] == before[v])
    && (forall j :: j in nodes ==> t.order[j] in after && after[t.order[j]] == Position(t, j))
  }

  lemma AddsMore(t: Tree, a: map<Name, Place>, b: map<Name, Place>, c: map<Name, Place>, s: set<nat>, u: set<nat>)
    requires t.Valid() && Adds(t, a, b, s) && Adds(t, b, c, u)
    ensures Adds(t, a, c, s + u)
  {
    hide Position, Tree.Valid;
    assert Names(t, s + u) == Names(t, s) + Names(t, u);
    hide Names;
    forall j | j in s + u ensures j < |t.order| && t.order[j] in c && c[t.order[j]] == Position(t, j) {
      if j in s {
        assert t.order[j] in b;
      }
    }
  }

  /** Nodes that have not been placed stay unplaced while others are. */
  lemma StillUnplaced(t: Tree, before: map<Name, Place>, after: map<Name, Place>, placed: set<nat>, j: nat)
    requires t.Valid() && j < |t.order| && Adds(t, before, after, placed)
    requires t.order[j] !in before && j !in placed
    ensures t.order[j] !in after
  {
    hide Position;
  }

  class Placer {
    const children: Adjacency
    var grid: map<Name, Place>
    var nextCol: real
    ghost const t: Tree

    ghost predicate Valid() {
      t.Valid() && ChildrenOf(children, t)
    }

    constructor (children: Adjacency, ghost t: Tree)
      requires t.Valid() && ChildrenOf(children, t)
      ensures Valid() && this.children == children && this.t == t && grid == map[] && nextCol == 0.0
    {
      this.children := children;
      this.t := t;
      grid, nextCol := map[], 0.0;
    }

    /** Place the subtree of `node`, children first; returns the node's column. */
    method PlaceNode(node: Name, depth: nat, ghost i: nat) returns (col: real)
      requires Valid() && i < |t.order| && t.order[i] == node && t.depth[i] == depth
      requires nextCol == FirstLeaf(t, i) as real
      requires forall j :: j in Subtree(t, i) ==> t.order[j] !in grid
      modifies this
      ensures nextCol == (FirstLeaf(t, i) + LeafCount(t, i)) as real
      ensures col == Column(t, i)
      ensures Adds(t, old(grid), grid, Subtree(t, i))
      decreases |t.order| - i
    {
      hide Tree.Valid, ChildrenOf, Under, UnderOne, FirstLeaf, LeavesBetween, Adds, Forest, Subtree;
      ChildList(children, t, i);
      SubtreeUnfolds(t, i);
      ghost var before := grid;
      ghost var first := t.first[i];
      var kids := At(children, node);
      AddsNothing(t, grid, first);
      if kids == [] {
        col := nextCol;
        nextCol := nextCol + 1.0;
      } else {
        FirstChild(t, i);
        var cols: seq<real> := [];
        for k := 0 to |kids|
          invariant |cols| == k
          invariant nextCol == (FirstLeaf(t, i) + LeavesBetween(t, first, first + k)) as real
          invariant forall m :: 0 <= m < k ==> cols[m] == Column(t, first + m)
          invariant Adds(t, before, grid, Forest(t, first, first + k))
        {
          ghost var kid, done := first + k, grid;
          NextChild(t, i, kid);
          NextSubtreeFresh(t, i, kid);
          forall j | j in Subtree(t, kid) ensures t.order[j] !in grid {
            StillUnplaced(t, before, grid, Forest(t, first, kid), j);
          }
          var c := PlaceNode(kids[k], depth + 1, kid);
          cols := cols + [c];
          AddsMore(t, before, done, grid, Forest(t, first, kid), Subtree(t, kid));
        }
        col := (cols[0] + cols[|cols| - 1]) / 2.0;
      }
      AddsRoot(t, before, grid, i);
      grid := grid[node := Place(col, depth)];
    }
  }

  lemma ChildList(children: Adjacency, t: Tree, i: nat)
    requires t.Valid() && ChildrenOf(children, t) && i < |t.order|
    ensures i < t.first[i] <= t.past[i] <= |t.order| && |t.order| == |t.first| == |t.past| == |t.depth|
    ensures At(children, t.order[i]) == t.order[t.first[i]..t.past[i]]
  {
  }

  lemma AddsNothing(t: Tree, grid: map<Name, Place>, lo: nat)
    requires t.Valid() && lo <= |t.order|
    ensures Forest(t, lo, lo) == {} && Adds(t, grid, grid, {}) && LeavesBetween(t, lo, lo) == 0
  {
  }

  lemma AddsOne(t: Tree, grid: map<Name, Place>, i: nat)
    requires t.Valid() && i < |t.order| && t.order[i] !in grid
    ensures Adds(t, grid, grid[t.order[i] := Position(t, i)], {i})
  {
    hide Position, Tree.Valid;
    assert Names(t, {i}) == {t.order[i]};
  }

  lemma AddsRoot(t: Tree, before: map<Name, Place>, after: map<Name, Place>, i: nat)
    requires t.Valid() && i < |t.order| && t.order[i] !in before && i < t.first[i] <= t.past[i] <= |t.order|
    requires Adds(t, before, after, Forest(t, t.first[i], t.past[i]))
    ensures Adds(t, before, after[t.order[i] := Position(t, i)], Subtree(t, i))
  {
    hide Position, Adds, Subtree, Forest;
    var rest := Forest(t, t.first[i], t.past[i]);
    SubtreeUnfolds(t, i);
    StillUnplaced(t, before, after, rest, i);
    AddsOne(t, after, i);
    AddsMore(t, before, after, after[t.order[i] := Position(t, i)], rest, {i});
    assert Subtree(t, i) == rest + {i};
  }

  /** The first child starts where its parent starts. */
  lemma FirstChild(t: Tree, i: nat)
    requires t.Valid() && i < |t.order| && t.first[i] < t.past[i]
    ensures FirstLeaf(t, t.first[i]) == FirstLeaf(t, i)
  {
    assert t.parent[t.first[i]] == i;
  }

  lemma ForestGrows(t: Tree, lo: nat, k: nat)
    requires t.Valid() && lo <= k < |t.order|
    ensures Forest(t, lo, k + 1) == Forest(t, lo, k) + Subtree(t, k)
  {
    hide Under, Tree.Valid;
  }

  lemma LeavesGrow(t: Tree, lo: nat, k: nat)
    requires t.Valid() && lo <= k < |t.order|
    ensures LeavesBetween(t, lo, k + 1) == LeavesBetween(t, lo, k) + LeafCount(t, k)
  {
    hide LeafCount, Tree.Valid;
    LeavesSplit(t, lo, k, k + 1);
    assert LeavesBetween(t, k, k + 1) == LeafCount(t, k) + LeavesBetween(t, k + 1, k + 1);
  }

  /** A child starts where the subtree of the child before it ends. */
  lemma NextChild(t: Tree, i: nat, k: nat)
    requires t.Valid() && i < |t.order| && t.first[i] <= k < t.past[i]
    ensures FirstLeaf(t, k) == FirstLeaf(t, i) + LeavesBetween(t, t.first[i], k)
    ensures LeavesBetween(t, t.first[i], k + 1) == LeavesBetween(t, t.first[i], k) + LeafCount(t, k)
    ensures Forest(t, t.first[i], k + 1) == Forest(t, t.first[i], k) + Subtree(t, k)
    ensures t.depth[k] == t.depth[i] + 1
  {
    hide Under, FirstLeaf, LeafCount, Forest, Subtree;
    ForestGrows(t, t.first[i], k);
    FirstChild(t, i);
    SiblingsInOrder(t, i, t.first[i], k);
    LeavesGrow(t, t.first[i], k);
    assert t.parent[k] == i;
  }

  // ---------------------------------------------------------------- the whole layout

  /** The devices the tree does not reach, each once, in the order of the list. */
  ghost function Leftover(t: Tree, devices: seq<Device>): (rest: seq<Name>)
    ensures forall v :: v in rest <==> v !in t.order && exists d :: d in devices && d.name == v
    ensures Distinct(rest)
  {
    if devices == [] then []
    else
      var d := devices[|devices| - 1];
      assert devices == devices[..|devices| - 1] + [d];
      var before := Leftover(t, devices[..|devices| - 1]);
      if d.name in t.order || d.name in before then before else before + [d.name]
  }

  /** The tree stands as the tidy layout says; the leftover devices follow to the right, on the top row. */
  ghost predicate LaidOut(grid: map<Name, Place>, t: Tree, rest: seq<Name>)
    requires t.Valid()
  {
    && (forall v :: v in grid <==> v in t.order || v in rest)
    && (forall j :: 0 <= j < |t.order| ==> grid[t.order[j]] == Position(t, j))
    && (forall k :: 0 <= k < |rest| ==> grid[rest[k]] == Place((LeafCount(t, 0) + k) as real, 0))
  }

  /** No two names of a layout share a place. */
  lemma NoOverlap(grid: map<Name, Place>, t: Tree, rest: seq<Name>, u: Name, v: Name)
    requires t.Valid() && LaidOut(grid, t, rest) && u in grid && v in grid && u != v
    ensures grid[u] != grid[v]
  {
    hide Tree.Valid, Column, LeafCount, FirstLeaf;
    if u in t.order && v in t.order {
      var j :| 0 <= j < |t.order| && t.order[j] == u;
      var k :| 0 <= k < |t.order| && t.order[k] == v;
      if j < k { PlacesDistinct(t, j, k); } else { PlacesDistinct(t, k, j); }
    } else if u in t.order {
      LeftOfTheRest(grid, t, rest, u, v);
    } else if v in t.order {
      LeftOfTheRest(grid, t, rest, v, u);
    }
  }

  lemma LeftOfTheRest(grid: map<Name, Place>, t: Tree, rest: seq<Name>, u: Name, v: Name)
    requires t.Valid() && LaidOut(grid, t, rest) && u in t.order && v in rest
    ensures grid[u].col < grid[v].col
  {
    var j: nat :| j < |t.order| && t.order[j] == u;
    ColumnWithin(t, j);
    FromTheRoot(t, j);
    Nested(t, j, 0);
  }

  lemma {:induction false} FromTheRoot(t: Tree, j: nat)
    requires t.Valid() && j < |t.order|
    ensures Under(t, j, 0)
    decreases j
  {
    if j > 0 {
      FromTheRoot(t, t.parent[j]);
    }
  }

  /** v can be reached from the root in k steps over edges. */
  ghost predicate Steps(devices: seq<Device>, links: seq<Link>, root: Name, k: nat, v: Name) {
    if k == 0 then v == root
    else exists u :: Steps(devices, links, root, k - 1, u) && Edge(devices, links, u, v)
  }

  ghost predicate Shortest(devices: seq<Device>, links: seq<Link>, root: Name, k: nat, v: Name) {
    Steps(devices, links, root, k, v) && forall j: nat :: Steps(devices, links, root, j, v) ==> k <= j
  }

  /**
   In terms of the scenario alone: who has a place, that nobody shares one, and that the row is the shortest
   distance from the root, or the top row for whoever cannot be reached.
   */
  ghost predicate Tidy(grid: map<Name, Place>, devices: seq<Device>, links: seq<Link>, root: Name) {
    && (forall v :: v in grid <==>
          (exists k: nat :: Steps(devices, links, root, k, v)) || (exists d :: d in devices && d.name == v))
    && (forall u, v :: u in grid && v in grid && u != v ==> grid[u] != grid[v])
    && (forall v, k: nat :: Shortest(devices, links, root, k, v) ==> v in grid && grid[v].row == k)
    && (forall v :: v in grid && !(exists k: nat :: Steps(devices, links, root, k, v)) ==> grid[v].row == 0)
  }

  lemma {:induction false} StepsAreWalks(
    adjacency: Adjacency, devices: seq<Device>, links: seq<Link>, root: Name, k: nat, v: Name)
    requires Lists(adjacency, links, devices)
    ensures Steps(devices, links, root, k, v) <==> Walk(adjacency, root, k, v)
    decreases k
  {
    hide Lists, Edge, At;
    if k > 0 {
      var m := k - 1;
      forall u ensures Steps(devices, links, root, m, u) <==> Walk(adjacency, root, m, u) {
        StepsAreWalks(adjacency, devices, links, root, m, u);
      }
      forall u ensures v in At(adjacency, u) <==> Edge(devices, links, u, v) {
        EdgeListed(adjacency, devices, links, u, v);
      }
    }
  }

  lemma EdgeListed(adjacency: Adjacency, devices: seq<Device>, links: seq<Link>, u: Name, v: Name)
    requires Lists(adjacency, links, devices)
    ensures v in At(adjacency, u) <==> Edge(devices, links, u, v)
  {
    hide Edge, At, LinkedTo, GuestsOf;
    AdjacencyIsEdges(devices, links, u, v);
  }

  lemma OneDistance(adjacency: Adjacency, devices: seq<Device>, links: seq<Link>, root: Name, k: nat, d: nat, v: Name)
    requires Lists(adjacency, links, devices) && Shortest(devices, links, root, k, v) && IsDistance(adjacency, root, v, d)
    ensures k == d
  {
    hide Lists, Steps, Walk;
    StepsAreWalks(adjacency, devices, links, root, k, v);
    StepsAreWalks(adjacency, devices, links, root, d, v);
  }

  lemma ReachableBySteps(adjacency: Adjacency, devices: seq<Device>, links: seq<Link>, root: Name, v: Name)
    requires Lists(adjacency, links, devices)
    ensures Reachable(adjacency, root, v) <==> exists k: nat :: Steps(devices, links, root, k, v)
  {
    hide Lists, Steps, Walk;
    if k: nat :| Walk(adjacency, root, k, v) {
      StepsAreWalks(adjacency, devices, links, root, k, v);
    }
    if k: nat :| Steps(devices, links, root, k, v) {
      StepsAreWalks(adjacency, devices, links, root, k, v);
    }
  }

  lemma GridIsTidy(
    grid: map<Name, Place>, adjacency: Adjacency, t: Tree, devices: seq<Device>, links: seq<Link>, root: Name)
    requires Lists(adjacency, links, devices) && t.Valid() && Spans(t, adjacency, root)
    requires LaidOut(grid, t, Leftover(t, devices))
    ensures Tidy(grid, devices, links, root)
  {
    hide Lists, Steps, Shortest, Column, LeafCount, Reachable, IsDistance;
    var rest := Leftover(t, devices);
    forall v ensures v in t.order <==> exists k: nat :: Steps(devices, links, root, k, v) {
      ReachableBySteps(adjacency, devices, links, root, v);
    }
    forall u, v | u in grid && v in grid && u != v ensures grid[u] != grid[v] {
      NoOverlap(grid, t, rest, u, v);
    }
    forall v, k: nat | Shortest(devices, links, root, k, v) ensures v in grid && grid[v].row == k {
      ShortestIsReached(devices, links, root, k, v);
      var j := NumberOf(t.order, v);
      OneDistance(adjacency, devices, links, root, k, t.depth[j], v);
    }
    forall v | v in grid && v !in t.order ensures grid[v].row == 0 {
      var k :| 0 <= k < |rest| && rest[k] == v;
    }
  }

  lemma ShortestIsReached(devices: seq<Device>, links: seq<Link>, root: Name, k: nat, v: Name)
    requires Shortest(devices, links, root, k, v)
    ensures exists j: nat :: Steps(devices, links, root, j, v)
  {
  }

  // ---------------------------------------------------------------- what a tidy tree looks like

  ghost predicate Middle(grid: map<Name, Place>, u: Name, kids: seq<Name>)
    requires kids != []
  {
    && u in grid && kids[0] in grid && kids[|kids| - 1] in grid
    && 2.0 * grid[u].col == grid[kids[0]].col + grid[kids[|kids| - 1]].col
  }

  /** Every node with children stands in the middle of the first and the last. */
  ghost predicate Centred(grid: map<Name, Place>, children: Adjacency) {
    forall u :: At(children, u) != [] ==> Middle(grid, u, At(children, u))
  }

  ghost predicate LeftOf(grid: map<Name, Place>, v: Name, w: Name) {
    v in grid && w in grid && grid[v].col < grid[w].col
  }

  /** Children stand from left to right in the order of their parent's adjacency list. */
  ghost predicate LeftToRight(grid: map<Name, Place>, children: Adjacency, adjacency: Adjacency) {
    forall u, a, b :: 0 <= a < b < |At(children, u)| ==>
      LeftOf(grid, At(children, u)[a], At(children, u)[b]) && Earlier(At(adjacency, u), At(children, u)[a], At(children, u)[b])
  }

  ghost predicate Leaf(children: Adjacency, adjacency: Adjacency, root: Name, v: Name) {
    Reachable(adjacency, root, v) && At(children, v) == []
  }

  ghost predicate InColumn(grid: map<Name, Place>, v: Name, c: nat) {
    v in grid && grid[v].col == c as real
  }

  ghost predicate IsLeafAt(
    grid: map<Name, Place>, children: Adjacency, adjacency: Adjacency, root: Name, v: Name, c: nat)
  {
    Leaf(children, adjacency, root, v) && InColumn(grid, v, c)
  }

  ghost predicate LeafAt(grid: map<Name, Place>, children: Adjacency, adjacency: Adjacency, root: Name, c: nat) {
    exists v :: IsLeafAt(grid, children, adjacency, root, v, c)
  }

  /** The leaves hold the columns 0 .. n - 1, one each. */
  ghost predicate LeafColumns(grid: map<Name, Place>, children: Adjacency, adjacency: Adjacency, root: Name, n: nat) {
    && (forall v :: Leaf(children, adjacency, root, v) ==> exists c: nat :: c < n && InColumn(grid, v, c))
    && (forall c: nat :: c < n ==> LeafAt(grid, children, adjacency, root, c))
    && (forall v, w, c: nat :: IsLeafAt(grid, children, adjacency, root, v, c) && IsLeafAt(grid, children, adjacency, root, w, c) ==>
          v == w)
  }

  ghost predicate Ahead(grid: map<Name, Place>, u: Name, w: Name) {
    && u in grid && w in grid
    && (grid[u].row < grid[w].row || (grid[u].row == grid[w].row && grid[u].col < grid[w].col))
  }

  /** Of all nodes a child is joined to, its parent is the one on the highest row, and there the leftmost. */
  ghost predicate BestParent(grid: map<Name, Place>, children: Adjacency, adjacency: Adjacency, root: Name) {
    forall u, w, v :: IsChildOf(children, u, v) && v in At(adjacency, w) && Reachable(adjacency, root, w) && w != u ==>
      Ahead(grid, u, w)
  }

  /** v comes before w in the list of devices. */
  ghost predicate NamedBefore(devices: seq<Device>, v: Name, w: Name) {
    exists m :: 0 <= m < |devices| && devices[m].name == v && forall q :: 0 <= q <= m ==> devices[q].name != w
  }

  /** The devices that cannot be reached follow on the top row, in the order of the list. */
  ghost predicate RestFollows(
    grid: map<Name, Place>, devices: seq<Device>, adjacency: Adjacency, root: Name, n: nat, rest: seq<Name>)
  {
    && Distinct(rest)
    && (forall v :: v in rest <==> !Reachable(adjacency, root, v) && exists d :: d in devices && d.name == v)
    && (forall k :: 0 <= k < |rest| ==> rest[k] in grid && grid[rest[k]] == Place((n + k) as real, 0))
    && (forall j, k :: 0 <= j < k < |rest| ==> NamedBefore(devices, rest[j], rest[k]))
  }

  lemma {:induction false} DepthRises(t: Tree, i: nat, k: nat)
    requires t.Valid() && ParentsRise(t) && i <= k < |t.order|
    ensures t.depth[i] <= t.depth[k]
    decreases k
  {
    if 0 < i < k {
      DepthRises(t, t.parent[i], t.parent[k]);
    }
  }

  /** On every row the nodes stand from left to right in the order in which they were discovered. */
  lemma {:induction false} RowInOrder(t: Tree, i: nat, k: nat)
    requires t.Valid() && ParentsRise(t) && i < k < |t.order| && t.depth[i] == t.depth[k]
    ensures FirstLeaf(t, i) + LeafCount(t, i) <= FirstLeaf(t, k)
    decreases k
  {
    var p, q := t.parent[i], t.parent[k];
    assert 0 < i && p <= q;
    if p == q {
      SiblingsApart(t, p, i, k);
    } else {
      RowInOrder(t, p, q);
      ChildWithin(t, p, i);
      ChildWithin(t, q, k);
    }
  }

  lemma ColumnsInOrder(t: Tree, i: nat, k: nat)
    requires t.Valid() && i < |t.order| && k < |t.order| && FirstLeaf(t, i) + LeafCount(t, i) <= FirstLeaf(t, k)
    ensures Column(t, i) < Column(t, k)
  {
    ColumnWithin(t, i);
    ColumnWithin(t, k);
    hide Column, FirstLeaf, LeafCount;
  }

  lemma PlaceOf(grid: map<Name, Place>, t: Tree, rest: seq<Name>, j: nat)
    requires t.Valid() && LaidOut(grid, t, rest) && j < |t.order|
    ensures t.order[j] in grid && grid[t.order[j]].col == Column(t, j) && grid[t.order[j]].row == t.depth[j]
  {
    hide Column;
    assert t.order[j] in t.order;
  }

  lemma OwnChildren(children: Adjacency, t: Tree, u: Name) returns (i: nat)
    requires t.Valid() && ChildrenOf(children, t) && At(children, u) != []
    ensures i < |t.order| == |t.first| == |t.past| && t.order[i] == u && i < t.first[i] < t.past[i] <= |t.order|
    ensures At(children, u) == t.order[t.first[i]..t.past[i]]
  {
    assert u in children;
    i := NumberOf(t.order, u);
  }

  lemma GridIsCentred(grid: map<Name, Place>, t: Tree, rest: seq<Name>, children: Adjacency)
    requires t.Valid() && LaidOut(grid, t, rest) && ChildrenOf(children, t)
    ensures Centred(grid, children)
  {
    hide LaidOut, ChildrenOf, Tree.Valid, At, FirstLeaf, Column;
    forall u | At(children, u) != [] ensures Middle(grid, u, At(children, u)) {
      var i := OwnChildren(children, t, u);
      PlaceOf(grid, t, rest, i);
      PlaceOf(grid, t, rest, t.first[i]);
      PlaceOf(grid, t, rest, t.past[i] - 1);
      MiddleColumn(t, i);
    }
  }

  lemma MiddleColumn(t: Tree, i: nat)
    requires t.Valid() && i < |t.order| && t.first[i] < t.past[i]
    ensures 2.0 * Column(t, i) == Column(t, t.first[i]) + Column(t, t.past[i] - 1)
  {
    hide FirstLeaf;
  }

  lemma SiblingPlaces(grid: map<Name, Place>, t: Tree, rest: seq<Name>, adjacency: Adjacency, i: nat, j: nat, k: nat)
    requires t.Valid() && LaidOut(grid, t, rest) && Ranked(t, adjacency)
    requires i < |t.order| && t.first[i] <= j < k < t.past[i]
    ensures LeftOf(grid, t.order[j], t.order[k]) && Earlier(At(adjacency, t.order[i]), t.order[j], t.order[k])
  {
    hide LaidOut, Column, FirstLeaf, LeafCount, Earlier, At;
    assert t.parent[j] == i && t.parent[k] == i;
    SiblingsApart(t, i, j, k);
    ColumnsInOrder(t, j, k);
    PlaceOf(grid, t, rest, j);
    PlaceOf(grid, t, rest, k);
  }

  lemma GridIsLeftToRight(grid: map<Name, Place>, t: Tree, rest: seq<Name>, children: Adjacency, adjacency: Adjacency)
    requires t.Valid() && LaidOut(grid, t, rest) && ChildrenOf(children, t) && Ranked(t, adjacency)
    ensures LeftToRight(grid, children, adjacency)
  {
    hide LaidOut, ChildrenOf, Ranked, Tree.Valid, At, Earlier, LeftOf;
    forall u, a, b | 0 <= a < b < |At(children, u)|
      ensures LeftOf(grid, At(children, u)[a], At(children, u)[b])
              && Earlier(At(adjacency, u), At(children, u)[a], At(children, u)[b])
    {
      var i := OwnChildren(children, t, u);
      SiblingPlaces(grid, t, rest, adjacency, i, t.first[i] + a, t.first[i] + b);
    }
  }

  lemma LeafNumber(children: Adjacency, t: Tree, adjacency: Adjacency, root: Name, v: Name) returns (j: nat)
    requires t.Valid() && Spans(t, adjacency, root) && ChildrenOf(children, t) && Leaf(children, adjacency, root, v)
    ensures j < |t.order| && t.order[j] == v && IsLeaf(t, j)
    ensures Column(t, j) == FirstLeaf(t, j) as real && FirstLeaf(t, j) < LeafCount(t, 0) && LeafCount(t, j) == 1
  {
    hide Reachable, IsDistance;
    j := NumberOf(t.order, v);
    FromTheRoot(t, j);
    Nested(t, j, 0);
  }

  lemma LeafIsLeaf(children: Adjacency, t: Tree, adjacency: Adjacency, root: Name, j: nat)
    requires t.Valid() && Spans(t, adjacency, root) && ChildrenOf(children, t) && j < |t.order| && IsLeaf(t, j)
    ensures Leaf(children, adjacency, root, t.order[j])
  {
    hide Reachable, IsDistance;
    assert t.order[j] in t.order;
  }

  lemma LeavesApart(t: Tree, j: nat, k: nat)
    requires t.Valid() && j < k < |t.order| && IsLeaf(t, j) && IsLeaf(t, k)
    ensures FirstLeaf(t, j) != FirstLeaf(t, k)
  {
    if Under(t, k, j) {
      var c := ChildAbove(t, k, j);
    } else {
      Apart(t, j, k);
    }
  }

  lemma LeafHasColumn(
    grid: map<Name, Place>, t: Tree, rest: seq<Name>, children: Adjacency, adjacency: Adjacency, root: Name, v: Name)
    returns (j: nat, c: nat)
    requires t.Valid() && LaidOut(grid, t, rest) && ChildrenOf(children, t) && Spans(t, adjacency, root)
    requires Leaf(children, adjacency, root, v)
    ensures j < |t.order| && t.order[j] == v && IsLeaf(t, j) && c == FirstLeaf(t, j)
    ensures c < LeafCount(t, 0) && InColumn(grid, v, c)
  {
    hide LaidOut, ChildrenOf, Spans, Leaf, Column, FirstLeaf, LeafCount, IsLeaf;
    j := LeafNumber(children, t, adjacency, root, v);
    PlaceOf(grid, t, rest, j);
    c := FirstLeaf(t, j);
  }

  lemma ColumnHasLeaf(
    grid: map<Name, Place>, t: Tree, rest: seq<Name>, children: Adjacency, adjacency: Adjacency, root: Name, c: nat)
    requires t.Valid() && LaidOut(grid, t, rest) && ChildrenOf(children, t) && Spans(t, adjacency, root)
    requires c < LeafCount(t, 0)
    ensures LeafAt(grid, children, adjacency, root, c)
  {
    hide LaidOut, ChildrenOf, Spans, Leaf, Column, FirstLeaf, LeafCount, IsLeaf;
    RootLeaves(t);
    var leaf := LeafInColumn(t, 0, c);
    LeafIsLeaf(children, t, adjacency, root, leaf);
    PlaceOf(grid, t, rest, leaf);
    assert IsLeafAt(grid, children, adjacency, root, t.order[leaf], c);
  }

  lemma OneLeafPerColumn(
    grid: map<Name, Place>, t: Tree, rest: seq<Name>, children: Adjacency, adjacency: Adjacency, root: Name,
    v: Name, w: Name, c: nat)
    requires t.Valid() && LaidOut(grid, t, rest) && ChildrenOf(children, t) && Spans(t, adjacency, root)
    requires IsLeafAt(grid, children, adjacency, root, v, c) && IsLeafAt(grid, children, adjacency, root, w, c)
    ensures v == w
  {
    hide LaidOut, ChildrenOf, Spans, Leaf, FirstLeaf, LeafCount, IsLeaf;
    var j, d := LeafHasColumn(grid, t, rest, children, adjacency, root, v);
    var k, e := LeafHasColumn(grid, t, rest, children, adjacency, root, w);
    assert d == c && e == c;
    if j < k {
      LeavesApart(t, j, k);
    } else if k < j {
      LeavesApart(t, k, j);
    }
  }

  lemma GridHasLeafColumns(
    grid: map<Name, Place>, t: Tree, rest: seq<Name>, children: Adjacency, adjacency: Adjacency, root: Name)
    requires t.Valid() && LaidOut(grid, t, rest) && ChildrenOf(children, t) && Spans(t, adjacency, root)
    ensures 0 < |t.order| && LeafColumns(grid, children, adjacency, root, LeafCount(t, 0))
  {
    hide LaidOut, ChildrenOf, Spans, Tree.Valid, Leaf, LeafAt, InColumn, IsLeafAt, FirstLeaf, LeafCount, IsLeaf;
    RootLeaves(t);
    var n := LeafCount(t, 0);
    forall v | Leaf(children, adjacency, root, v) ensures exists c: nat :: c < n && InColumn(grid, v, c) {
      var j, c := LeafHasColumn(grid, t, rest, children, adjacency, root, v);
    }
    forall c: nat | c < n ensures LeafAt(grid, children, adjacency, root, c) {
      ColumnHasLeaf(grid, t, rest, children, adjacency, root, c);
    }
    forall v, w, c: nat
      | IsLeafAt(grid, children, adjacency, root, v, c) && IsLeafAt(grid, children, adjacency, root, w, c)
      ensures v == w
    {
      OneLeafPerColumn(grid, t, rest, children, adjacency, root, v, w, c);
    }
  }

  lemma RootLeaves(t: Tree)
    requires t.Valid()
    ensures 0 < |t.order| && FirstLeaf(t, 0) == 0
  {
  }

  lemma ParentAhead(grid: map<Name, Place>, t: Tree, rest: seq<Name>, adjacency: Adjacency, j: nat, k: nat)
    requires t.Valid() && LaidOut(grid, t, rest) && Ranked(t, adjacency)
    requires 0 < j < |t.order| && k < |t.order| && k != t.parent[j] && t.order[j] in At(adjacency, t.order[k])
    ensures t.parent[j] < |t.order| && Ahead(grid, t.order[t.parent[j]], t.order[k])
  {
    hide LaidOut, Column, FirstLeaf, LeafCount, At, AsListed;
    var i := t.parent[j];
    assert i < k;
    DepthRises(t, i, k);
    PlaceOf(grid, t, rest, i);
    PlaceOf(grid, t, rest, k);
    if t.depth[i] == t.depth[k] {
      RowInOrder(t, i, k);
      ColumnsInOrder(t, i, k);
    }
  }

  lemma GridHasBestParents(
    grid: map<Name, Place>, t: Tree, rest: seq<Name>, children: Adjacency, adjacency: Adjacency, root: Name)
    requires t.Valid() && LaidOut(grid, t, rest) && ChildrenOf(children, t) && Spans(t, adjacency, root) && Ranked(t, adjacency)
    ensures BestParent(grid, children, adjacency, root)
  {
    hide LaidOut, ChildrenOf, Tree.Valid, At, Ranked, Ahead, IsDistance, Reachable;
    forall u, w, v | IsChildOf(children, u, v) && v in At(adjacency, w) && Reachable(adjacency, root, w) && w != u
      ensures Ahead(grid, u, w)
    {
      var i, j := ChildNumbers(children, t, u, v);
      var k := NumberOf(t.order, w);
      ParentAhead(grid, t, rest, adjacency, j, k);
    }
  }

  lemma {:induction false} LeftoverOrder(t: Tree, devices: seq<Device>, j: nat, k: nat)
    requires t.Valid() && j < k < |Leftover(t, devices)|
    ensures NamedBefore(devices, Leftover(t, devices)[j], Leftover(t, devices)[k])
  {
    hide Tree.Valid;
    var n := |devices| - 1;
    var before := Leftover(t, devices[..n]);
    var v, w := Leftover(t, devices)[j], Leftover(t, devices)[k];
    if k < |before| {
      LeftoverOrder(t, devices[..n], j, k);
      var m :| 0 <= m < n && devices[..n][m].name == v && forall q :: 0 <= q <= m ==> devices[..n][q].name != w;
      assert forall q :: 0 <= q <= m ==> devices[q] == devices[..n][q];
      assert devices[m].name == v;
    } else {
      assert v in before;
      var d :| d in devices[..n] && d.name == v;
      var m :| 0 <= m < n && devices[m] == d;
      forall q | 0 <= q <= m ensures devices[q].name != w {
        assert devices[..n][q] == devices[q] && devices[q] in devices[..n];
      }
    }
  }

  lemma RestIsRest(grid: map<Name, Place>, t: Tree, devices: seq<Device>, adjacency: Adjacency, root: Name)
    requires t.Valid() && Spans(t, adjacency, root) && LaidOut(grid, t, Leftover(t, devices))
    ensures RestFollows(grid, devices, adjacency, root, LeafCount(t, 0), Leftover(t, devices))
  {
    hide Reachable, IsDistance, LeafCount, Position, NamedBefore, Tree.Valid;
    var rest := Leftover(t, devices);
    forall k | 0 <= k < |rest| ensures rest[k] in grid {
      assert rest[k] in rest;
    }
    forall j, k | 0 <= j < k < |rest| ensures NamedBefore(devices, rest[j], rest[k]) {
      LeftoverOrder(t, devices, j, k);
    }
  }

  /** A device list, its links and a root give every name its place. */
  method TreeGrid(devices: seq<Device>, links: seq<Link>, root: Name)
    returns (grid: map<Name, Place>, ghost adjacency: Adjacency, ghost children: Adjacency, ghost leaves: nat, ghost rest: seq<Name>)
    ensures Lists(adjacency, links, devices) && ShortestTree(children, adjacency, root)
    ensures Tidy(grid, devices, links, root)
    ensures Centred(grid, children) && LeftToRight(grid, children, adjacency)
    ensures BestParent(grid, children, adjacency, root)
    ensures LeafColumns(grid, children, adjacency, root, leaves)
    ensures RestFollows(grid, devices, adjacency, root, leaves, rest)
  {
    hide Centred, LeftToRight, BestParent, LeafColumns, RestFollows, ShortestTree, Ranked;
    hide Tidy, LaidOut, Leftover, Tree.Valid, ChildrenOf, Spans, Lists, Subtree, Adds, Column, FirstLeaf, LeafCount;
    var lists := BuildAdjacency(devices, links);
    adjacency := lists;
    var found;
    ghost var t;
    found, t := Search(lists, root);
    children := found;
    RootFirst(t, adjacency, root);
    var placer := new Placer(found, t);
    var col := placer.PlaceNode(root, 0, 0);
    grid := placer.grid;
    var nextCol := placer.nextCol;
    WholeTree(t, grid);
    assert devices[..0] == [];
    for i := 0 to |devices|
      invariant LaidOut(grid, t, Leftover(t, devices[..i]))
      invariant nextCol == (LeafCount(t, 0) + |Leftover(t, devices[..i])|) as real
    {
      var d := devices[i];
      NextDevice(grid, t, devices, i);
      if d.name !in grid {
        grid := grid[d.name := Place(nextCol, 0)];
        nextCol := nextCol + 1.0;
      }
    }
    assert devices[..|devices|] == devices;
    GridIsTidy(grid, adjacency, t, devices, links, root);
    leaves, rest := LeafCount(t, 0), Leftover(t, devices);
    GridIsCentred(grid, t, rest, children);
    GridIsLeftToRight(grid, t, rest, children, adjacency);
    GridHasBestParents(grid, t, rest, children, adjacency, root);
    GridHasLeafColumns(grid, t, rest, children, adjacency, root);
    RestIsRest(grid, t, devices, adjacency, root);
  }

  lemma NextDevice(grid: map<Name, Place>, t: Tree, devices: seq<Device>, i: nat)
    requires t.Valid() && 0 < |t.order| && i < |devices| && LaidOut(grid, t, Leftover(t, devices[..i]))
    ensures var rest, name := Leftover(t, devices[..i]), devices[i].name;
            var col := (LeafCount(t, 0) + |rest|) as real;
            && Leftover(t, devices[..i + 1]) == (if name in grid then rest else rest + [name])
            && LaidOut(if name in grid then grid else grid[name := Place(col, 0)], t, Leftover(t, devices[..i + 1]))
  {
    hide Position, LeafCount, Tree.Valid, Leftover, LaidOut;
    var rest, name := Leftover(t, devices[..i]), devices[i].name;
    LeftoverNext(t, devices, i);
    HasPlace(grid, t, rest, name);
    if name !in grid {
      OneMorePlace(grid, t, rest, name);
    }
  }

  lemma HasPlace(grid: map<Name, Place>, t: Tree, rest: seq<Name>, name: Name)
    requires t.Valid() && LaidOut(grid, t, rest)
    ensures name in grid <==> name in t.order || name in rest
  {
    hide Position, LeafCount, Tree.Valid;
  }

  lemma LeftoverNext(t: Tree, devices: seq<Device>, i: nat)
    requires t.Valid() && i < |devices|
    ensures var rest, name := Leftover(t, devices[..i]), devices[i].name;
            Leftover(t, devices[..i + 1]) == if name in t.order || name in rest then rest else rest + [name]
  {
    hide Tree.Valid;
    assert devices[..i + 1][..i] == devices[..i];
  }

  lemma OneMorePlace(grid: map<Name, Place>, t: Tree, rest: seq<Name>, name: Name)
    requires t.Valid() && 0 < |t.order| && LaidOut(grid, t, rest) && name !in grid
    ensures LaidOut(grid[name := Place((LeafCount(t, 0) + |rest|) as real, 0)], t, rest + [name])
  {
    hide Position, LeafCount, Tree.Valid;
  }

  lemma RootFirst(t: Tree, adjacency: Adjacency, root: Name)
    requires t.Valid() && Spans(t, adjacency, root)
    ensures 0 < |t.order| == |t.depth| && t.order[0] == root && FirstLeaf(t, 0) == 0 && t.depth[0] == 0
  {
  }

  lemma WholeTree(t: Tree, grid: map<Name, Place>)
    requires t.Valid() && Adds(t, map[], grid, Subtree(t, 0))
    ensures LaidOut(grid, t, Leftover(t, [])) && Leftover(t, []) == []
  {
    hide Position;
    forall j: nat | j < |t.order| ensures j in Subtree(t, 0) {
      FromTheRoot(t, j);
    }
    assert forall v :: v in t.order ==> exists j: nat :: j < |t.order| && t.order[j] == v;
  }
}
