/**
 The tidy-tree layout of the topology map (scripts/demo_scenarios.py, tree_grid).

 A breadth-first search from the root finds a spanning tree; a recursive placement then gives every
 leaf the next free column and every inner node the middle of its first and its last child.
 The proofs number the nodes in the order in which the search discovers them.
 */
module SpanningTree {
  import opened Wrappers

  type Name = string

  /** A device of the scenario: its name and the host it runs on. */
  datatype Device = Device(name: Name, parent: Option<Name>)

  /** A link of the scenario: its two ends and whatever further fields the tuple has. */
  datatype Link = Link(a: Name, b: Name, rest: seq<string>)

  type Adjacency = map<Name, seq<Name>>

  /** A tuple with fewer than four fields has no role, so it is a primary link. */
  predicate Primary(l: Link) {
    2 + |l.rest| < 4
  }

  /** Python's truth value of the parent entry: neither missing nor empty. */
  predicate HasParent(d: Device) {
    d.parent.Some? && d.parent.value != ""
  }

  function At(lists: Adjacency, u: Name): seq<Name> {
    if u in lists then lists[u] else []
  }

  function Append(lists: Adjacency, u: Name, v: Name): Adjacency {
    lists[u := At(lists, u) + [v]]
  }

  // ---------------------------------------------------------------- adjacency

  /** What node u is joined to by the primary links, in link order. */
  function LinkedTo(links: seq<Link>, u: Name): seq<Name> {
    if links == [] then []
    else
      var l := links[|links| - 1];
      LinkedTo(links[..|links| - 1], u)
      + (if Primary(l) && l.a == u then [l.b] else [])
      + (if Primary(l) && l.b == u then [l.a] else [])
  }

  /** The devices that name u as their host, in device order. */
  function GuestsOf(devices: seq<Device>, u: Name): seq<Name> {
    if devices == [] then []
    else
      var d := devices[|devices| - 1];
      GuestsOf(devices[..|devices| - 1], u)
      + (if HasParent(d) && d.parent.value == u then [d.name] else [])
  }

  /** v can be reached from u in one step: over a primary link either way, or from host to guest. */
  ghost predicate Edge(devices: seq<Device>, links: seq<Link>, u: Name, v: Name) {
    || (exists l :: l in links && Primary(l) && ((l.a == u && l.b == v) || (l.b == u && l.a == v)))
    || (exists d :: d in devices && HasParent(d) && d.parent.value == u && d.name == v)
  }

  /** In the fields of the tuples: links with two or three fields count both ways, a host leads to its guests. */
  lemma EdgeMeans(devices: seq<Device>, links: seq<Link>, u: Name, v: Name)
    ensures Edge(devices, links, u, v)
            <==> || (exists a, b, rest :: Link(a, b, rest) in links && |rest| <= 1 && {a, b} == {u, v})
                 || (u != "" && exists d :: d in devices && d.parent == Some(u) && d.name == v)
  {
    if l :| l in links && Primary(l) && ((l.a == u && l.b == v) || (l.b == u && l.a == v)) {
      assert Link(l.a, l.b, l.rest) in links;
    }
    if a, b, rest :| Link(a, b, rest) in links && |rest| <= 1 && {a, b} == {u, v} {
      assert a in {u, v} && b in {u, v} && u in {a, b} && v in {a, b};
      assert Primary(Link(a, b, rest));
    }
  }

  lemma {:induction false} LinkedToMembers(links: seq<Link>, u: Name, v: Name)
    ensures v in LinkedTo(links, u)
            <==> exists l :: l in links && Primary(l) && ((l.a == u && l.b == v) || (l.b == u && l.a == v))
  {
    if links != [] {
      LinkedToMembers(links[..|links| - 1], u, v);
      assert links == links[..|links| - 1] + [links[|links| - 1]];
    }
  }

  lemma {:induction false} GuestsMembers(devices: seq<Device>, u: Name, v: Name)
    ensures v in GuestsOf(devices, u)
            <==> exists d :: d in devices && HasParent(d) && d.parent.value == u && d.name == v
  {
    if devices != [] {
      GuestsMembers(devices[..|devices| - 1], u, v);
      assert devices == devices[..|devices| - 1] + [devices[|devices| - 1]];
    }
  }

  /** The adjacency lists hold exactly the edges, each in the direction in which it can be followed. */
  lemma AdjacencyIsEdges(devices: seq<Device>, links: seq<Link>, u: Name, v: Name)
    ensures v in LinkedTo(links, u) + GuestsOf(devices, u) <==> Edge(devices, links, u, v)
  {
    LinkedToMembers(links, u, v);
    GuestsMembers(devices, u, v);
  }

  lemma AppendAt(lists: Adjacency, u: Name, v: Name, w: Name)
    ensures At(Append(lists, u, v), w) == At(lists, w) + (if w == u then [v] else [])
  {
  }

  /** The lists hold, per node, what the links and the devices read so far say. */
  ghost predicate Lists(adjacency: Adjacency, links: seq<Link>, devices: seq<Device>) {
    forall u :: At(adjacency, u) == LinkedTo(links, u) + GuestsOf(devices, u)
  }

  lemma LinkRead(adjacency: Adjacency, links: seq<Link>, i: nat)
    requires i < |links| && forall u :: At(adjacency, u) == LinkedTo(links[..i], u)
    ensures var l := links[i];
            var next := if Primary(l) then Append(Append(adjacency, l.a, l.b), l.b, l.a) else adjacency;
            forall u :: At(next, u) == LinkedTo(links[..i + 1], u)
  {
    var l := links[i];
    var there := Append(adjacency, l.a, l.b);
    var next := if Primary(l) then Append(there, l.b, l.a) else adjacency;
    assert links[..i + 1][..i] == links[..i];
    forall u ensures At(next, u) == LinkedTo(links[..i + 1], u) {
      var a := if Primary(l) && l.a == u then [l.b] else [];
      var b := if Primary(l) && l.b == u then [l.a] else [];
      assert LinkedTo(links[..i + 1], u) == LinkedTo(links[..i], u) + a + b;
      if Primary(l) {
        AppendAt(adjacency, l.a, l.b, u);
        AppendAt(there, l.b, l.a, u);
      }
    }
  }

  lemma GuestsSoFar(devices: seq<Device>, i: nat, u: Name)
    requires i < |devices|
    ensures GuestsOf(devices[..i + 1], u)
            == GuestsOf(devices[..i], u) + (if HasParent(devices[i]) && devices[i].parent.value == u then [devices[i].name] else [])
  {
    assert devices[..i + 1][..i] == devices[..i];
  }

  lemma OneGuestMore(adjacency: Adjacency, links: seq<Link>, devices: seq<Device>, i: nat, u: Name)
    requires i < |devices| && Lists(adjacency, links, devices[..i])
    ensures var d := devices[i];
            At(if HasParent(d) then Append(adjacency, d.parent.value, d.name) else adjacency, u)
            == LinkedTo(links, u) + GuestsOf(devices[..i + 1], u)
  {
    hide GuestsOf, LinkedTo, Append, At;
    var d := devices[i];
    assert At(adjacency, u) == LinkedTo(links, u) + GuestsOf(devices[..i], u);
    GuestsSoFar(devices, i, u);
    if HasParent(d) {
      AppendAt(adjacency, d.parent.value, d.name, u);
      Joined(LinkedTo(links, u), GuestsOf(devices[..i], u), if d.parent.value == u then [d.name] else []);
    }
  }

  lemma Joined(a: seq<Name>, b: seq<Name>, c: seq<Name>)
    ensures (a + b) + c == a + (b + c)
  {
  }

  lemma DeviceRead(adjacency: Adjacency, links: seq<Link>, devices: seq<Device>, i: nat)
    requires i < |devices| && Lists(adjacency, links, devices[..i])
    ensures var d := devices[i];
            Lists(if HasParent(d) then Append(adjacency, d.parent.value, d.name) else adjacency, links, devices[..i + 1])
  {
    hide GuestsOf, LinkedTo, Append, At;
    var d := devices[i];
    var next := if HasParent(d) then Append(adjacency, d.parent.value, d.name) else adjacency;
    forall u ensures At(next, u) == LinkedTo(links, u) + GuestsOf(devices[..i + 1], u) {
      OneGuestMore(adjacency, links, devices, i, u);
    }
  }

  method BuildAdjacency(devices: seq<Device>, links: seq<Link>) returns (adjacency: Adjacency)
    ensures Lists(adjacency, links, devices)
  {
    adjacency := map[];
    for i := 0 to |links|
      invariant forall u :: At(adjacency, u) == LinkedTo(links[..i], u)
    {
      var l := links[i];
      LinkRead(adjacency, links, i);
      if Primary(l) {
        adjacency := Append(adjacency, l.a, l.b);
        adjacency := Append(adjacency, l.b, l.a);
      }
    }
    assert links[..|links|] == links;
    assert devices[..0] == [];
    for i := 0 to |devices|
      invariant Lists(adjacency, links, devices[..i])
    {
      var d := devices[i];
      DeviceRead(adjacency, links, devices, i);
      if HasParent(d) {
        adjacency := Append(adjacency, d.parent.value, d.name);
      }
    }
    assert devices[..|devices|] == devices;
  }

  // ---------------------------------------------------------------- walks and distances

  /** There is a walk of k steps from the root to v. */
  ghost predicate Walk(adjacency: Adjacency, root: Name, k: nat, v: Name) {
    if k == 0 then v == root
    else exists u :: Walk(adjacency, root, k - 1, u) && v in At(adjacency, u)
  }

  ghost predicate Reachable(adjacency: Adjacency, root: Name, v: Name) {
    exists k: nat :: Walk(adjacency, root, k, v)
  }

  /** d is the length of a shortest walk from the root to v. */
  ghost predicate IsDistance(adjacency: Adjacency, root: Name, v: Name, d: nat) {
    Walk(adjacency, root, d, v) && forall k: nat :: Walk(adjacency, root, k, v) ==> d <= k
  }

  // ---------------------------------------------------------------- the discovered tree

  /**
   The spanning tree, by discovery number: the children of node i are the nodes first[i] .. past[i] - 1.
   */
  datatype Tree = Tree(order: seq<Name>, parent: seq<nat>, depth: seq<nat>, first: seq<nat>, past: seq<nat>)
  {
    ghost predicate Valid() {
      && 0 < |order| == |parent| == |depth| == |first| == |past|
      && (forall i, j :: 0 <= i < j < |order| ==> order[i] != order[j])
      && (forall i :: 0 <= i < |order| ==> i < first[i] <= past[i] <= |order|)
      && (forall i :: 0 < i < |order| ==> parent[i] < i && first[parent[i]] <= i < past[parent[i]])
      && (forall i, j :: 0 <= i < |order| && first[i] <= j < past[i] ==> parent[j] == i)
      && depth[0] == 0
      && (forall i :: 0 < i < |order| ==> depth[i] == depth[parent[i]] + 1)
    }
  }

  /** The map from a node to the list of its children is the tree's. */
  ghost predicate ChildrenOf(children: Adjacency, t: Tree)
    requires t.Valid()
  {
    && (forall u :: u in children ==> u in t.order)
    && (forall i :: 0 <= i < |t.order| ==> At(children, t.order[i]) == t.order[t.first[i]..t.past[i]])
  }

  /** t is a breadth-first spanning tree of what can be reached from the root. */
  ghost predicate Spans(t: Tree, adjacency: Adjacency, root: Name)
    requires t.Valid()
  {
    && t.order[0] == root
    && (forall v :: v in t.order <==> Reachable(adjacency, root, v))
    && (forall i :: 0 <= i < |t.order| ==> IsDistance(adjacency, root, t.order[i], t.depth[i]))
    && (forall i :: 0 < i < |t.order| ==> t.order[i] in At(adjacency, t.order[t.parent[i]]))
  }

  // ---------------------------------------------------------------- breadth-first search

  /** The lengths of a search in progress; the queue is order[|first|..]. */
  ghost predicate Shape(t: Tree) {
    0 < |t.order| == |t.parent| == |t.depth| && |t.past| == |t.first| <= |t.order|
  }

  /** Depths never fall along the discovery order, and the queue spans at most two of them. */
  ghost predicate Layered(t: Tree)
    requires Shape(t)
  {
    && (forall i, j :: 0 <= i < j < |t.order| ==> t.depth[i] <= t.depth[j])
    && (|t.first| < |t.order| ==> forall j :: 0 <= j < |t.order| ==> t.depth[j] <= t.depth[|t.first|] + 1)
  }

  /** The nodes from `start` on are children of the node in hand, the earlier ones of nodes already looked at. */
  ghost predicate Nested(t: Tree, start: nat)
    requires Shape(t)
  {
    && start <= |t.order| && (|t.first| < |t.order| ==> |t.first| < start)
    && (forall i :: 0 <= i < |t.first| ==> i < t.first[i] <= t.past[i] <= start)
    && (forall j :: 0 < j < start ==> t.parent[j] < |t.first| && t.first[t.parent[j]] <= j < t.past[t.parent[j]])
    && (forall i, j :: 0 <= i < |t.first| && t.first[i] <= j < t.past[i] ==> t.parent[j] == i)
    && (forall j :: start <= j < |t.order| ==> t.parent[j] == |t.first|)
  }

  /** Every node but the root was discovered from its parent. */
  ghost predicate Rooted(t: Tree, adjacency: Adjacency, root: Name)
    requires Shape(t)
  {
    && t.order[0] == root && t.depth[0] == 0
    && (forall j :: 0 < j < |t.order| ==> t.parent[j] < j && t.depth[j] == t.depth[t.parent[j]] + 1)
    && (forall j :: 0 < j < |t.order| ==> t.order[j] in At(adjacency, t.order[t.parent[j]]))
  }

  ghost predicate Distinct(names: seq<Name>) {
    forall i, j :: 0 <= i < j < |names| ==> names[i] != names[j]
  }

  /**
   A search in progress: `first` and `past` are known for the nodes already taken from the queue, and
   the nodes from `start` on are children of the node in hand.
   */
  ghost predicate Searching(t: Tree, start: nat, adjacency: Adjacency, root: Name) {
    Shape(t) && Distinct(t.order) && Layered(t) && Nested(t, start) && Rooted(t, adjacency, root)
  }

  /** Every name of the list has been discovered, at most `bound` steps from the root. */
  ghost predicate Covered(t: Tree, names: seq<Name>, bound: nat)
    requires |t.order| == |t.depth|
  {
    forall v :: v in names ==> exists j :: 0 <= j < |t.order| && t.order[j] == v && t.depth[j] <= bound
  }

  ghost function Discover(t: Tree, v: Name): Tree
    requires |t.first| < |t.depth|
  {
    t.(order := t.order + [v], parent := t.parent + [|t.first|], depth := t.depth + [t.depth[|t.first|] + 1])
  }

  lemma DiscoverLayers(t: Tree, v: Name)
    requires Shape(t) && |t.first| < |t.order| && Layered(t)
    ensures Layered(Discover(t, v))
  {
  }

  lemma DiscoverNests(t: Tree, start: nat, v: Name)
    requires Shape(t) && |t.first| < start && Nested(t, start)
    ensures Nested(Discover(t, v), start)
  {
  }

  lemma DiscoverRoots(t: Tree, adjacency: Adjacency, root: Name, v: Name)
    requires Shape(t) && |t.first| < |t.order| && Rooted(t, adjacency, root)
    requires v in At(adjacency, t.order[|t.first|])
    ensures Rooted(Discover(t, v), adjacency, root)
  {
  }

  lemma DiscoverKeeps(t: Tree, start: nat, adjacency: Adjacency, root: Name, v: Name)
    requires Searching(t, start, adjacency, root) && |t.first| < start && start <= |t.order|
    requires v !in t.order && v in At(adjacency, t.order[|t.first|])
    ensures Searching(Discover(t, v), start, adjacency, root)
  {
    hide Layered, Nested, Rooted;
    DiscoverLayers(t, v);
    DiscoverNests(t, start, v);
    DiscoverRoots(t, adjacency, root, v);
  }

  lemma CoveredGrows(t: Tree, t': Tree, names: seq<Name>, bound: nat)
    requires |t.order| == |t.depth| && |t'.order| == |t'.depth|
    requires t.order <= t'.order && t.depth <= t'.depth && Covered(t, names, bound)
    ensures Covered(t', names, bound)
  {
    forall v | v in names
      ensures exists j :: 0 <= j < |t'.order| && t'.order[j] == v && t'.depth[j] <= bound
    {
      var j :| 0 <= j < |t.order| && t.order[j] == v && t.depth[j] <= bound;
      assert t'.order[j] == v;
    }
  }

  lemma {:induction false} DiscoveredByWalk(t: Tree, start: nat, adjacency: Adjacency, root: Name, j: nat)
    requires Searching(t, start, adjacency, root) && j < |t.order|
    ensures Walk(adjacency, root, t.depth[j], t.order[j])
    decreases j
  {
    if j > 0 {
      DiscoveredByWalk(t, start, adjacency, root, t.parent[j]);
    }
  }

  /** No walk reaches a node in fewer steps than the depth at which the search found it. */
  lemma {:induction false} WalksAreCovered(t: Tree, adjacency: Adjacency, root: Name, k: nat, v: Name)
    requires 0 < |t.order| == |t.depth| && t.order[0] == root && t.depth[0] == 0
    requires forall i :: 0 <= i < |t.order| ==> Covered(t, At(adjacency, t.order[i]), t.depth[i] + 1)
    requires Walk(adjacency, root, k, v)
    ensures exists j :: 0 <= j < |t.order| && t.order[j] == v && t.depth[j] <= k
  {
    if k > 0 {
      var u :| Walk(adjacency, root, k - 1, u) && v in At(adjacency, u);
      WalksAreCovered(t, adjacency, root, k - 1, u);
      var i :| 0 <= i < |t.order| && t.order[i] == u && t.depth[i] <= k - 1;
      assert Covered(t, At(adjacency, t.order[i]), t.depth[i] + 1);
    } else {
      assert t.order[0] == v;
    }
  }

  lemma SearchSpans(t: Tree, adjacency: Adjacency, root: Name)
    requires Searching(t, |t.order|, adjacency, root) && |t.first| == |t.order|
    requires forall i :: 0 <= i < |t.order| ==> Covered(t, At(adjacency, t.order[i]), t.depth[i] + 1)
    ensures t.Valid() && Spans(t, adjacency, root)
  {
    forall i | 0 <= i < |t.order|
      ensures IsDistance(adjacency, root, t.order[i], t.depth[i])
    {
      DiscoveredByWalk(t, |t.order|, adjacency, root, i);
      forall k: nat | Walk(adjacency, root, k, t.order[i]) ensures t.depth[i] <= k {
        WalksAreCovered(t, adjacency, root, k, t.order[i]);
      }
    }
    forall v | Reachable(adjacency, root, v) ensures v in t.order {
      var k: nat :| Walk(adjacency, root, k, v);
      WalksAreCovered(t, adjacency, root, k, v);
    }
    forall v | v in t.order ensures Reachable(adjacency, root, v) {
      var i :| 0 <= i < |t.order| && t.order[i] == v;
      assert IsDistance(adjacency, root, t.order[i], t.depth[i]);
    }
  }

  ghost function Universe(adjacency: Adjacency, root: Name): set<Name> {
    {root} + (set u, v | u in adjacency && v in adjacency[u] :: v)
  }

  /** The lists of children built so far are those of the search. */
  ghost predicate Recorded(children: Adjacency, t: Tree, start: nat)
    requires Shape(t) && Nested(t, start)
  {
    && (forall u :: u in children ==> u in t.order)
    && (forall i :: 0 <= i < |t.first| ==> At(children, t.order[i]) == t.order[t.first[i]..t.past[i]])
    && (|t.first| < |t.order| ==> At(children, t.order[|t.first|]) == t.order[start..])
    && (forall i :: |t.first| < i < |t.order| ==> t.order[i] !in children)
  }

  /** What holds between any two statements of the search. */
  ghost predicate Going(children: Adjacency, seen: set<Name>, t: Tree, start: nat, adjacency: Adjacency, root: Name) {
    && Searching(t, start, adjacency, root)
    && Recorded(children, t, start)
    && (forall v :: v in seen <==> v in t.order)
    && seen <= Universe(adjacency, root)
    && (forall i :: 0 <= i < |t.first| ==> Covered(t, At(adjacency, t.order[i]), t.depth[i] + 1))
  }

  lemma DiscoverCovers(t: Tree, adjacency: Adjacency, v: Name, list: seq<Name>, i: nat)
    requires |t.order| == |t.depth| && |t.first| < |t.order| && i < |list| && list[i] == v
    requires forall k :: 0 <= k < |t.first| ==> Covered(t, At(adjacency, t.order[k]), t.depth[k] + 1)
    requires Covered(t, list[..i], t.depth[|t.first|] + 1)
    ensures var t' := Discover(t, v);
            && (forall k :: 0 <= k < |t.first| ==> Covered(t', At(adjacency, t'.order[k]), t'.depth[k] + 1))
            && Covered(t', list[..i + 1], t.depth[|t.first|] + 1)
  {
    var t' := Discover(t, v);
    forall k | 0 <= k < |t.first| ensures Covered(t', At(adjacency, t'.order[k]), t'.depth[k] + 1) {
      CoveredGrows(t, t', At(adjacency, t.order[k]), t.depth[k] + 1);
    }
    CoveredGrows(t, t', list[..i], t.depth[|t.first|] + 1);
    assert t'.order[|t.order|] == v;
    assert list[..i + 1] == list[..i] + [v];
  }

  lemma RangeKept(order: seq<Name>, v: Name, lo: nat, hi: nat)
    requires lo <= hi <= |order|
    ensures (order + [v])[lo..hi] == order[lo..hi]
  {
  }

  /** The children of a node already looked at are not touched. */
  lemma EarlierChildren(children: Adjacency, t: Tree, start: nat, v: Name, i: nat)
    requires Shape(t) && Distinct(t.order) && Nested(t, start) && |t.first| < start <= |t.order| && Recorded(children, t, start)
    requires i < |t.first|
    ensures t.first[i] <= t.past[i] <= |t.order|
    ensures At(Append(children, t.order[|t.first|], v), t.order[i]) == (t.order + [v])[t.first[i]..t.past[i]]
  {
    hide At, Append;
    AppendAt(children, t.order[|t.first|], v, t.order[i]);
    RangeKept(t.order, v, t.first[i], t.past[i]);
  }

  lemma NewChildren(children: Adjacency, t: Tree, start: nat, v: Name)
    requires Shape(t) && Distinct(t.order) && Nested(t, start) && |t.first| < start <= |t.order| && Recorded(children, t, start)
    requires v !in t.order
    ensures At(Append(children, t.order[|t.first|], v), t.order[|t.first|]) == (t.order + [v])[start..]
    ensures forall i :: |t.first| < i < |t.order| + 1 ==> (t.order + [v])[i] !in Append(children, t.order[|t.first|], v)
  {
    hide At;
    AppendAt(children, t.order[|t.first|], v, t.order[|t.first|]);
    assert (t.order + [v])[start..] == t.order[start..] + [v];
    forall i | |t.first| < i < |t.order| + 1 ensures (t.order + [v])[i] != t.order[|t.first|] {
      if i == |t.order| {
        assert t.order[|t.first|] in t.order;
      }
    }
  }

  lemma DiscoverRecords(children: Adjacency, t: Tree, start: nat, v: Name)
    requires Shape(t) && Distinct(t.order) && Nested(t, start) && |t.first| < start
    requires v !in t.order && Recorded(children, t, start)
    ensures Nested(Discover(t, v), start) && Recorded(Append(children, t.order[|t.first|], v), Discover(t, v), start)
  {
    hide At, Nested, Distinct;
    StartsWithin(t, start);
    DiscoverNests(t, start, v);
    NewChildren(children, t, start, v);
    forall i | 0 <= i < |t.first|
      ensures t.first[i] <= t.past[i] <= |t.order|
              && At(Append(children, t.order[|t.first|], v), t.order[i]) == (t.order + [v])[t.first[i]..t.past[i]]
    {
      EarlierChildren(children, t, start, v, i);
    }
  }

  lemma StartsWithin(t: Tree, start: nat)
    requires Shape(t) && Nested(t, start)
    ensures start <= |t.order|
  {
  }

  lemma GoingDiscovers(
    children: Adjacency, seen: set<Name>, t: Tree, start: nat, adjacency: Adjacency, root: Name, list: seq<Name>, i: nat
  )
    requires Going(children, seen, t, start, adjacency, root) && |t.first| < start <= |t.order|
    requires list == At(adjacency, t.order[|t.first|]) && i < |list| && list[i] !in seen
    requires Covered(t, list[..i], t.depth[|t.first|] + 1)
    ensures var t' := Discover(t, list[i]);
            && Going(Append(children, t.order[|t.first|], list[i]), seen + {list[i]}, t', start, adjacency, root)
            && Covered(t', list[..i + 1], t.depth[|t.first|] + 1)
    ensures Universe(adjacency, root) - (seen + {list[i]}) < Universe(adjacency, root) - seen
  {
    hide Layered, Nested, Rooted, Recorded, Covered;
    var next := list[i];
    DiscoverKeeps(t, start, adjacency, root, next);
    DiscoverCovers(t, adjacency, next, list, i);
    DiscoverRecords(children, t, start, next);
    assert next in Universe(adjacency, root) && next !in seen;
  }

  lemma RootAlone(adjacency: Adjacency, root: Name)
    ensures var t := Tree([root], [0], [0], [], []);
            Shape(t) && Distinct(t.order) && Layered(t) && Nested(t, 1) && Rooted(t, adjacency, root)
  {
    hide At;
  }

  lemma NothingRecorded(root: Name)
    ensures var t := Tree([root], [0], [0], [], []); Shape(t) && Nested(t, 1) && Recorded(map[], t, 1)
  {
  }

  lemma GoingStarts(adjacency: Adjacency, root: Name)
    ensures Going(map[], {root}, Tree([root], [0], [0], [], []), 1, adjacency, root)
  {
    hide Layered, Nested, Rooted, Recorded, Covered, Distinct, At;
    RootAlone(adjacency, root);
    NothingRecorded(root);
    assert forall v :: v in [root] <==> v == root;
  }

  lemma NothingToCover(t: Tree, bound: nat)
    requires |t.order| == |t.depth|
    ensures Covered(t, [], bound)
  {
  }

  lemma AlreadySeen(
    children: Adjacency, seen: set<Name>, t: Tree, start: nat, adjacency: Adjacency, root: Name, list: seq<Name>, i: nat
  )
    requires Going(children, seen, t, start, adjacency, root) && |t.first| < |t.order|
    requires i < |list| && list[i] in seen && Covered(t, list[..i], t.depth[|t.first|] + 1)
    ensures Covered(t, list[..i + 1], t.depth[|t.first|] + 1)
  {
    hide Nested, Rooted, Recorded;
    assert list[..i + 1] == list[..i] + [list[i]];
    var j :| 0 <= j < |t.order| && t.order[j] == list[i];
    assert t.depth[j] <= t.depth[|t.first|] + 1;
  }

  lemma GoingEnds(children: Adjacency, seen: set<Name>, t: Tree, adjacency: Adjacency, root: Name)
    requires Going(children, seen, t, |t.order|, adjacency, root) && |t.first| == |t.order|
    ensures t.Valid() && Spans(t, adjacency, root) && ChildrenOf(children, t)
  {
    SearchSpans(t, adjacency, root);
  }

  ghost function Finish(t: Tree, start: nat): Tree {
    t.(first := t.first + [start], past := t.past + [|t.order|])
  }

  lemma FinishLayers(t: Tree, start: nat)
    requires Shape(t) && |t.first| < |t.order| && Layered(t)
    ensures Layered(Finish(t, start))
  {
    if |t.first| + 1 < |t.order| {
      assert t.depth[|t.first|] <= t.depth[|t.first| + 1];
    }
  }

  lemma FinishNests(t: Tree, start: nat)
    requires Shape(t) && |t.first| < start && Nested(t, start)
    ensures Nested(Finish(t, start), |t.order|)
  {
  }

  lemma FinishRecords(children: Adjacency, t: Tree, start: nat)
    requires Shape(t) && |t.first| < start && Nested(t, start) && Recorded(children, t, start)
    ensures Nested(Finish(t, start), |t.order|) && Recorded(children, Finish(t, start), |t.order|)
  {
    FinishNests(t, start);
    assert t.order[start..] == t.order[start..|t.order|];
    assert t.order[|t.order|..] == [];
  }

  lemma FinishCovers(t: Tree, start: nat, adjacency: Adjacency)
    requires |t.order| == |t.depth| && |t.first| < |t.order|
    requires forall i :: 0 <= i <= |t.first| ==> Covered(t, At(adjacency, t.order[i]), t.depth[i] + 1)
    ensures var t' := Finish(t, start);
            forall i :: 0 <= i < |t'.first| ==> Covered(t', At(adjacency, t'.order[i]), t'.depth[i] + 1)
  {
    var t' := Finish(t, start);
    forall i | 0 <= i < |t'.first| ensures Covered(t', At(adjacency, t'.order[i]), t'.depth[i] + 1) {
      CoveredGrows(t, t', At(adjacency, t.order[i]), t.depth[i] + 1);
    }
  }

  lemma GoingFinishes(children: Adjacency, seen: set<Name>, t: Tree, start: nat, adjacency: Adjacency, root: Name)
    requires Going(children, seen, t, start, adjacency, root) && |t.first| < start <= |t.order|
    requires Covered(t, At(adjacency, t.order[|t.first|]), t.depth[|t.first|] + 1)
    ensures Going(children, seen, Finish(t, start), |t.order|, adjacency, root)
  {
    hide Layered, Nested, Recorded, Covered;
    FinishLayers(t, start);
    FinishRecords(children, t, start);
    FinishCovers(t, start, adjacency);
  }

  // ---------------------------------------------------------------- the order of the lists

  /** The link is primary and joins u and v. */
  ghost predicate Joins(l: Link, u: Name, v: Name) {
    |l.rest| <= 1 && ((l.a == u && l.b == v) || (l.b == u && l.a == v))
  }

  ghost predicate NoneJoins(links: seq<Link>, u: Name, v: Name) {
    forall k :: 0 <= k < |links| ==> !Joins(links[k], u, v)
  }

  ghost predicate NoGuest(devices: seq<Device>, u: Name, v: Name) {
    forall k :: 0 <= k < |devices| ==> !(devices[k].parent == Some(u) && devices[k].name == v)
  }

  lemma {:induction false} LinkedToPrefix(links: seq<Link>, u: Name, k: nat)
    requires k <= |links|
    ensures LinkedTo(links[..k], u) <= LinkedTo(links, u)
  {
    if k < |links| {
      var n := |links| - 1;
      LinkedToPrefix(links[..n], u, k);
      assert links[..n][..k] == links[..k];
    } else {
      assert links[..k] == links;
    }
  }

  lemma {:induction false} GuestsPrefix(devices: seq<Device>, u: Name, k: nat)
    requires k <= |devices|
    ensures GuestsOf(devices[..k], u) <= GuestsOf(devices, u)
  {
    if k < |devices| {
      var n := |devices| - 1;
      GuestsPrefix(devices[..n], u, k);
      assert devices[..n][..k] == devices[..k];
    } else {
      assert devices[..k] == devices;
    }
  }

  lemma EarlierInPrefix(part: seq<Name>, list: seq<Name>, a: Name, b: Name)
    requires part <= list && a in part && b !in part
    ensures Earlier(list, a, b)
  {
    var m :| 0 <= m < |part| && part[m] == a;
    assert list[..m + 1] == part[..m + 1];
  }

  lemma NotLinked(links: seq<Link>, u: Name, v: Name)
    requires NoneJoins(links, u, v)
    ensures v !in LinkedTo(links, u)
  {
    LinkedToMembers(links, u, v);
    forall l | l in links && Primary(l) ensures !((l.a == u && l.b == v) || (l.b == u && l.a == v)) {
      assert !Joins(l, u, v);
    }
  }

  lemma NotGuest(devices: seq<Device>, u: Name, v: Name)
    requires NoGuest(devices, u, v)
    ensures v !in GuestsOf(devices, u)
  {
    GuestsMembers(devices, u, v);
  }

  /** In an adjacency list whoever is joined by an earlier link comes first. */
  lemma LinksInOrder(devices: seq<Device>, links: seq<Link>, u: Name, i: nat, v: Name, w: Name)
    requires i < |links| && Joins(links[i], u, v) && NoneJoins(links[..i + 1], u, w)
    ensures Earlier(LinkedTo(links, u) + GuestsOf(devices, u), v, w)
  {
    var part := LinkedTo(links[..i + 1], u);
    LinkedToPrefix(links, u, i + 1);
    LinkedToMembers(links[..i + 1], u, v);
    assert links[..i + 1][i] == links[i] && Primary(links[i]) && links[i] in links[..i + 1];
    NotLinked(links[..i + 1], u, w);
    hide LinkedTo, GuestsOf;
    EarlierInPrefix(part, LinkedTo(links, u) + GuestsOf(devices, u), v, w);
  }

  /** Guests come after all that links join, in the order of the devices. */
  lemma GuestsInOrder(devices: seq<Device>, links: seq<Link>, u: Name, i: nat, w: Name)
    requires u != "" && i < |devices| && devices[i].parent == Some(u)
    requires NoneJoins(links, u, w) && NoGuest(devices[..i + 1], u, w)
    ensures Earlier(LinkedTo(links, u) + GuestsOf(devices, u), devices[i].name, w)
  {
    var part := GuestsOf(devices[..i + 1], u);
    GuestsPrefix(devices, u, i + 1);
    GuestsMembers(devices[..i + 1], u, devices[i].name);
    assert devices[..i + 1][i] == devices[i] && HasParent(devices[i]) && devices[i] in devices[..i + 1];
    NotGuest(devices[..i + 1], u, w);
    NotLinked(links, u, w);
    hide LinkedTo, GuestsOf;
    EarlierInPrefix(LinkedTo(links, u) + part, LinkedTo(links, u) + GuestsOf(devices, u), devices[i].name, w);
  }

  // ---------------------------------------------------------------- who discovers whom

  /** In the list a comes before b does for the first time. */
  ghost predicate Earlier(list: seq<Name>, a: Name, b: Name) {
    exists m :: 0 <= m < |list| && list[m] == a && b !in list[..m + 1]
  }

  /** Nodes come in the order of their parents. */
  ghost predicate ParentsRise(t: Tree)
    requires |t.order| == |t.parent|
  {
    forall i, j :: 0 < i < j < |t.order| ==> t.parent[i] <= t.parent[j]
  }

  /** Nobody before its parent is joined to a node. */
  ghost predicate FirstCome(t: Tree, adjacency: Adjacency)
    requires |t.order| == |t.parent|
  {
    forall j, w :: 0 < j < |t.order| && 0 <= w < t.parent[j] && w < |t.order| ==> t.order[j] !in At(adjacency, t.order[w])
  }

  /** Siblings come in the order of their parent's list. */
  ghost predicate AsListed(t: Tree, adjacency: Adjacency)
    requires |t.order| == |t.parent|
  {
    forall j, k :: 0 < j < k < |t.order| && t.parent[j] == t.parent[k] < |t.order| ==>
      Earlier(At(adjacency, t.order[t.parent[j]]), t.order[j], t.order[k])
  }

  ghost predicate Ranked(t: Tree, adjacency: Adjacency) {
    |t.order| == |t.parent| && ParentsRise(t) && FirstCome(t, adjacency) && AsListed(t, adjacency)
  }

  /** The children found so far of the node in hand are in the part of its list that has been looked at. */
  ghost predicate FoundIn(t: Tree, start: nat, part: seq<Name>) {
    forall j :: start <= j < |t.order| ==> t.order[j] in part
  }

  lemma ParentsKnown(t: Tree, start: nat)
    requires Shape(t) && Nested(t, start)
    ensures forall j :: 0 < j < |t.order| ==> t.parent[j] <= |t.first| && (t.parent[j] == |t.first| ==> start <= j)
  {
  }

  lemma NotJoinedBefore(t: Tree, adjacency: Adjacency, w: nat, bound: nat, v: Name)
    requires |t.order| == |t.depth| && w < |t.order| && Covered(t, At(adjacency, t.order[w]), bound) && v !in t.order
    ensures v !in At(adjacency, t.order[w])
  {
  }

  lemma ListedLater(t: Tree, list: seq<Name>, i: nat, bound: nat, a: Name)
    requires |t.order| == |t.depth| && i < |list| && list[i] !in t.order && Covered(t, list[..i], bound) && a in list[..i]
    ensures Earlier(list, a, list[i])
  {
    var m :| 0 <= m < i && list[m] == a;
    forall k | 0 <= k < m + 1 ensures list[k] in t.order {
      assert list[..i][k] == list[k] && list[k] in list[..i];
    }
  }

  lemma DiscoverRanks(
    children: Adjacency, seen: set<Name>, t: Tree, start: nat, adjacency: Adjacency, root: Name, list: seq<Name>, i: nat
  )
    requires Going(children, seen, t, start, adjacency, root) && |t.first| < start <= |t.order|
    requires list == At(adjacency, t.order[|t.first|]) && i < |list| && list[i] !in seen
    requires Covered(t, list[..i], t.depth[|t.first|] + 1) && Ranked(t, adjacency) && FoundIn(t, start, list[..i])
    ensures Ranked(Discover(t, list[i]), adjacency) && FoundIn(Discover(t, list[i]), start, list[..i + 1])
  {
    hide Layered, Nested, Rooted, Recorded, Covered, At, Earlier, Universe, Ranked, Distinct;
    ParentsKnown(t, start);
    var v := list[i];
    forall w: nat | w < |t.first| ensures v !in At(adjacency, t.order[w]) {
      NotJoinedBefore(t, adjacency, w, t.depth[w] + 1, v);
    }
    forall j | 0 < j < |t.order| && t.parent[j] == |t.first| ensures Earlier(list, t.order[j], v) {
      ListedLater(t, list, i, t.depth[|t.first|] + 1, t.order[j]);
    }
    RanksGrow(t, adjacency, v);
    FoundMore(t, start, list, i);
  }

  lemma FoundMore(t: Tree, start: nat, list: seq<Name>, i: nat)
    requires |t.first| < |t.depth| && i < |list| && FoundIn(t, start, list[..i])
    ensures FoundIn(Discover(t, list[i]), start, list[..i + 1])
  {
    assert list[..i + 1] == list[..i] + [list[i]];
  }

  lemma RanksGrow(t: Tree, adjacency: Adjacency, v: Name)
    requires |t.first| < |t.order| == |t.depth| && Ranked(t, adjacency)
    requires forall j :: 0 < j < |t.order| ==> t.parent[j] <= |t.first|
    requires forall w: nat :: w < |t.first| ==> v !in At(adjacency, t.order[w])
    requires forall j :: 0 < j < |t.order| && t.parent[j] == |t.first| ==>
      Earlier(At(adjacency, t.order[|t.first|]), t.order[j], v)
    ensures Ranked(Discover(t, v), adjacency)
  {
    hide At, Earlier;
  }

  lemma NothingFound(t: Tree)
    ensures FoundIn(t, |t.order|, [])
  {
  }

  lemma FoundStill(t: Tree, start: nat, list: seq<Name>, i: nat)
    requires i < |list| && FoundIn(t, start, list[..i])
    ensures FoundIn(t, start, list[..i + 1])
  {
    assert list[..i + 1] == list[..i] + [list[i]];
  }

  lemma FinishRanks(t: Tree, start: nat, adjacency: Adjacency)
    requires Ranked(t, adjacency)
    ensures Ranked(Finish(t, start), adjacency)
  {
    hide At, Earlier;
  }

  lemma RootRanked(adjacency: Adjacency, root: Name)
    ensures Ranked(Tree([root], [0], [0], [], []), adjacency)
  {
  }

  /** v is joined to u and one step further from the root. */
  ghost predicate ChildFits(adjacency: Adjacency, root: Name, u: Name, v: Name) {
    && v in At(adjacency, u) && v != root && Reachable(adjacency, root, v)
    && exists d: nat :: IsDistance(adjacency, root, u, d) && IsDistance(adjacency, root, v, d + 1)
  }

  ghost predicate IsChildOf(children: Adjacency, u: Name, v: Name) {
    v in At(children, u)
  }

  ghost predicate SomeParent(children: Adjacency, v: Name) {
    exists u :: IsChildOf(children, u, v)
  }

  /**
   In terms of the children alone: exactly the reachable nodes but the root are somebody's child, each of one
   node only, to which it is joined and which is one step nearer to the root.
   */
  ghost predicate ShortestTree(children: Adjacency, adjacency: Adjacency, root: Name) {
    && (forall u, v :: IsChildOf(children, u, v) ==> ChildFits(adjacency, root, u, v))
    && (forall v :: Reachable(adjacency, root, v) && v != root ==> SomeParent(children, v))
    && (forall u, w, v :: IsChildOf(children, u, v) && IsChildOf(children, w, v) ==> u == w)
  }

  lemma NumberOf(order: seq<Name>, v: Name) returns (j: nat)
    requires v in order
    ensures j < |order| && order[j] == v
  {
    j :| 0 <= j < |order| && order[j] == v;
  }

  lemma SameNumber(t: Tree, i: nat, j: nat)
    requires t.Valid() && i < |t.order| && j < |t.order| && t.order[i] == t.order[j]
    ensures i == j
  {
  }

  lemma KidsOf(children: Adjacency, t: Tree, u: Name, v: Name) returns (i: nat)
    requires t.Valid() && ChildrenOf(children, t) && v in At(children, u)
    ensures i < |t.order| == |t.parent| == |t.first| == |t.past| && t.order[i] == u
    ensures i < t.first[i] <= t.past[i] <= |t.order|
    ensures v in t.order[t.first[i]..t.past[i]]
  {
    assert u in children;
    i := NumberOf(t.order, u);
  }

  lemma ParentOf(t: Tree, i: nat, j: nat)
    requires t.Valid() && i < |t.order| && t.first[i] <= j < t.past[i]
    ensures 0 < j < |t.order| && t.parent[j] == i
  {
  }

  lemma ChildNumbers(children: Adjacency, t: Tree, u: Name, v: Name) returns (i: nat, j: nat)
    requires t.Valid() && ChildrenOf(children, t) && v in At(children, u)
    ensures 0 < j < |t.order| && i == t.parent[j] && i < |t.order| && t.order[i] == u && t.order[j] == v
  {
    hide ChildrenOf, Tree.Valid, At;
    i := KidsOf(children, t, u, v);
    var kids := t.order[t.first[i]..t.past[i]];
    var k := NumberOf(kids, v);
    j := t.first[i] + k;
    ParentOf(t, i, j);
  }

  lemma IsChild(children: Adjacency, t: Tree, j: nat)
    requires t.Valid() && ChildrenOf(children, t) && 0 < j < |t.order|
    ensures t.parent[j] < |t.order| && t.order[j] in At(children, t.order[t.parent[j]])
  {
    var i := t.parent[j];
    var kids := t.order[t.first[i]..t.past[i]];
    assert kids[j - t.first[i]] == t.order[j];
  }

  lemma TreeStep(t: Tree, adjacency: Adjacency, root: Name, j: nat)
    requires t.Valid() && Spans(t, adjacency, root) && 0 < j < |t.order|
    ensures ChildFits(adjacency, root, t.order[t.parent[j]], t.order[j])
  {
    hide IsDistance, Reachable, At;
    var i := t.parent[j];
    assert t.order[j] in t.order && t.order[0] == root && t.order[0] != t.order[j];
    assert IsDistance(adjacency, root, t.order[i], t.depth[i]) && IsDistance(adjacency, root, t.order[j], t.depth[j]);
  }

  lemma ChildIsFit(children: Adjacency, t: Tree, adjacency: Adjacency, root: Name, u: Name, v: Name)
    requires t.Valid() && Spans(t, adjacency, root) && ChildrenOf(children, t) && IsChildOf(children, u, v)
    ensures ChildFits(adjacency, root, u, v)
  {
    hide ChildrenOf, At, Spans, Tree.Valid, ChildFits;
    var i, j := ChildNumbers(children, t, u, v);
    TreeStep(t, adjacency, root, j);
  }

  lemma HasParentNode(children: Adjacency, t: Tree, adjacency: Adjacency, root: Name, v: Name)
    requires t.Valid() && Spans(t, adjacency, root) && ChildrenOf(children, t)
    requires Reachable(adjacency, root, v) && v != root
    ensures SomeParent(children, v)
  {
    hide ChildrenOf, IsDistance, Reachable, At;
    var j := NumberOf(t.order, v);
    IsChild(children, t, j);
    assert IsChildOf(children, t.order[t.parent[j]], v);
  }

  lemma OneParent(children: Adjacency, t: Tree, u: Name, w: Name, v: Name)
    requires t.Valid() && ChildrenOf(children, t) && IsChildOf(children, u, v) && IsChildOf(children, w, v)
    ensures u == w
  {
    hide ChildrenOf, Tree.Valid, At;
    var i, j := ChildNumbers(children, t, u, v);
    var k, l := ChildNumbers(children, t, w, v);
    SameNumber(t, j, l);
  }

  lemma ChildrenAreShortest(children: Adjacency, t: Tree, adjacency: Adjacency, root: Name)
    requires t.Valid() && Spans(t, adjacency, root) && ChildrenOf(children, t)
    ensures ShortestTree(children, adjacency, root)
  {
    hide ChildrenOf, Reachable, Spans, Tree.Valid, IsChildOf, ChildFits, SomeParent;
    forall u, v | IsChildOf(children, u, v) ensures ChildFits(adjacency, root, u, v) {
      ChildIsFit(children, t, adjacency, root, u, v);
    }
    forall v | Reachable(adjacency, root, v) && v != root ensures SomeParent(children, v) {
      HasParentNode(children, t, adjacency, root, v);
    }
    forall u, w, v | IsChildOf(children, u, v) && IsChildOf(children, w, v) ensures u == w {
      OneParent(children, t, u, w, v);
    }
  }

  /** The breadth-first search: a queue of discovered nodes whose neighbours have not been looked at. */
  method Search(adjacency: Adjacency, root: Name) returns (children: Adjacency, ghost t: Tree)
    ensures t.Valid() && Spans(t, adjacency, root) && ChildrenOf(children, t)
    ensures ShortestTree(children, adjacency, root) && Ranked(t, adjacency)
  {
    hide ShortestTree, Ranked, FoundIn, Going, Spans, ChildrenOf, Covered, Universe, At, Append, Tree.Valid;
    children := map[];
    var seen := {root};
    var queue := [root];
    t := Tree([root], [0], [0], [], []);
    GoingStarts(adjacency, root);
    RootRanked(adjacency, root);
    while queue != []
      invariant Shape(t) && Going(children, seen, t, |t.order|, adjacency, root) && Ranked(t, adjacency)
      invariant queue == t.order[|t.first|..]
      decreases |Universe(adjacency, root) - seen|, |queue|
    {
      ghost var before := Universe(adjacency, root) - seen;
      ghost var waiting := |queue|;
      var node := queue[0];
      queue := queue[1..];
      ghost var start := |t.order|;
      var list := At(adjacency, node);
      NothingToCover(t, t.depth[|t.first|] + 1);
      NothingFound(t);
      for i := 0 to |list|
        invariant Shape(t) && Going(children, seen, t, start, adjacency, root)
        invariant |t.first| < start <= |t.order| && t.order[|t.first|] == node
        invariant queue == t.order[|t.first| + 1..]
        invariant Covered(t, list[..i], t.depth[|t.first|] + 1)
        invariant Ranked(t, adjacency) && FoundIn(t, start, list[..i])
        invariant Universe(adjacency, root) - seen < before
                  || (Universe(adjacency, root) - seen == before && |queue| < waiting)
      {
        var next := list[i];
        if next !in seen {
          GoingDiscovers(children, seen, t, start, adjacency, root, list, i);
          DiscoverRanks(children, seen, t, start, adjacency, root, list, i);
          seen := seen + {next};
          children := Append(children, node, next);
          queue := queue + [next];
          t := Discover(t, next);
        } else {
          AlreadySeen(children, seen, t, start, adjacency, root, list, i);
          FoundStill(t, start, list, i);
        }
      }
      assert list[..|list|] == list;
      GoingFinishes(children, seen, t, start, adjacency, root);
      FinishRanks(t, start, adjacency);
      t := Finish(t, start);
      SetShrinks(Universe(adjacency, root) - seen, before);
    }
    GoingEnds(children, seen, t, adjacency, root);
    ChildrenAreShortest(children, t, adjacency, root);
  }

  lemma SetShrinks(a: set<Name>, b: set<Name>)
    ensures a < b ==> |a| < |b|
  {
    if a < b {
      assert |b| == |a| + |b - a| by { assert b == a + (b - a); }
    }
  }
}
