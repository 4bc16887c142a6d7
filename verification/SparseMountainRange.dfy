/** Some nodes of a mountain range: enough of them to give every path of some of its leafs. Nodes are named by their level
    and their position in it, which stands for the tree they are in and their index there. */
module SparseMountainRanges {
  import opened Options
  import opened Digests
  import opened MountainRange
  import opened PostOrder

  datatype Node = Node(level: nat, position: nat)

  type SparseNodes = map<Node, Digest>

  /** The j-th node on the way up from a leaf. */
  function Ancestor(i: nat, j: nat): Node {
    Node(j, Shift(i, j))
  }

  function SiblingOf(node: Node): Node {
    Node(node.level, Sibling(node.position))
  }

  function ParentOf(node: Node): Node {
    Node(node.level + 1, node.position / 2)
  }

  /** There is such a node among n leafs. */
  predicate Exists(node: Node, n: nat) {
    node.position < Shift(n, node.level)
  }

  /** All nodes are those of the mountain range over these leafs. */
  ghost predicate PartOf(nodes: SparseNodes, leafs: seq<Digest>) {
    forall node | node in nodes :: node.position < |Level(leafs, node.level)| && nodes[node] == Level(leafs, node.level)[node.position]
  }

  /** Wherever two siblings are known, so is their parent. */
  ghost predicate Closed(nodes: SparseNodes) {
    forall node | node in nodes && SiblingOf(node) in nodes :: ParentOf(node) in nodes
  }

  // ---------- authentication structures ----------

  /** The nodes on the ways up from some leafs of a tree of height h. */
  function OnPaths(leafIndices: set<nat>, h: nat): set<Node> {
    set i, j: nat | i in leafIndices && j <= h :: Ancestor(i, j)
  }

  function BesidePaths(leafIndices: set<nat>, h: nat): set<Node> {
    set i, j: nat | i in leafIndices && j < h :: SiblingOf(Ancestor(i, j))
  }

  /** From the leafs up, and from right to left. */
  predicate Before(a: Node, b: Node) {
    a.level < b.level || (a.level == b.level && a.position > b.position)
  }

  predicate IsFirst(node: Node, nodes: set<Node>) {
    node in nodes && forall other | other in nodes :: other == node || Before(node, other)
  }

  lemma {:induction false} FirstExists(nodes: set<Node>)
    requires nodes != {}
    ensures exists first :: IsFirst(first, nodes)
    decreases |nodes|
  {
    var node :| node in nodes;
    var rest := nodes - {node};
    assert forall other | other in nodes :: other == node || other in rest;
    if rest == {} {
      assert IsFirst(node, nodes);
    } else {
      FirstExists(rest);
      var other :| IsFirst(other, rest);
      assert IsFirst(node, nodes) || IsFirst(other, nodes);
    }
  }

  function InOrder(nodes: set<Node>): (s: seq<Node>)
    ensures |s| == |nodes| && forall node :: node in s <==> node in nodes
    decreases |nodes|
  {
    if nodes == {} then []
    else
      FirstExists(nodes);
      var first :| IsFirst(first, nodes);
      [first] + InOrder(nodes - {first})
  }

  /** MerkleTree::authentication_structure_node_indices: the nodes beside the paths, except those on paths. */
  function StructureNodes(leafIndices: set<nat>, h: nat): seq<Node> {
    InOrder(BesidePaths(leafIndices, h) - OnPaths(leafIndices, h))
  }

  // ---------- completion ----------

  function AbsentParents(nodes: SparseNodes): set<Node> {
    set node | node in nodes && SiblingOf(node) in nodes && ParentOf(node) !in nodes :: ParentOf(node)
  }

  function Child(node: Node, right: bool): Node
    requires node.level > 0
  {
    Node(node.level - 1, 2 * node.position + if right then 1 else 0)
  }

  /** Complete families with parents until there is none to add. */
  method Complete(nodes: SparseNodes, n: nat, ghost leafs: seq<Digest>) returns (full: SparseNodes)
    requires forall node | node in nodes :: Exists(node, n)
    ensures Closed(full) && nodes.Keys <= full.Keys
    ensures PartOf(nodes, leafs) ==> PartOf(full, leafs)
  {
    full := nodes;
    ghost var universe := Universe(n);
    while AbsentParents(full) != {}
      invariant nodes.Keys <= full.Keys && forall node | node in full :: Exists(node, n)
      invariant PartOf(nodes, leafs) ==> PartOf(full, leafs)
      decreases |universe - full.Keys|
    {
      var absent := AbsentParents(full);
      ghost var was := full.Keys;
      full := AddParents(full, absent, n, leafs);
      ghost var one :| one in absent;
      InUniverse(full, n);
      Fewer(universe, was, full.Keys, one);
    }
    ClosedWhenNoneAbsent(full);
  }

  method AddParents(nodes: SparseNodes, parents: set<Node>, n: nat, ghost leafs: seq<Digest>) returns (more: SparseNodes)
    requires (forall node | node in nodes :: Exists(node, n)) && parents == AbsentParents(nodes)
    ensures more.Keys == nodes.Keys + parents && forall node | node in more :: Exists(node, n)
    ensures PartOf(nodes, leafs) ==> PartOf(more, leafs)
  {
    more := nodes;
    var todo := parents;
    while todo != {}
      invariant todo <= parents && more.Keys == nodes.Keys + (parents - todo)
      invariant forall node | node in more :: Exists(node, n)
      invariant PartOf(nodes, leafs) ==> PartOf(more, leafs)
    {
      var parent :| parent in todo;
      ChildrenOf(nodes, parent, n);
      var left, right := more[Child(parent, false)], more[Child(parent, true)];
      if PartOf(nodes, leafs) { ParentIsPart(more, parent, leafs); }
      more, todo := more[parent := HashPair(left, right)], todo - {parent};
    }
  }

  /** All nodes there are among n leafs. */
  ghost function Universe(n: nat): set<Node> {
    set level: nat, position: nat | level <= n && position < n && Exists(Node(level, position), n) :: Node(level, position)
  }

  lemma {:induction false} ShiftBounds(n: nat, h: nat)
    ensures Shift(n, h) <= n && (Shift(n, h) > 0 ==> h <= n)
    decreases h
  {
    if h > 0 { ShiftBounds(n / 2, h - 1); }
  }

  lemma InUniverse(nodes: SparseNodes, n: nat)
    requires forall node | node in nodes :: Exists(node, n)
    ensures nodes.Keys <= Universe(n)
  {
    forall node | node in nodes ensures node in Universe(n) {
      ShiftBounds(n, node.level);
      assert node == Node(node.level, node.position);
    }
  }

  lemma Fewer(universe: set<Node>, before: set<Node>, after: set<Node>, one: Node)
    requires before <= after <= universe && one in after && one !in before
    ensures |universe - after| < |universe - before|
  {
    assert universe - after <= universe - before - {one};
    Subset(universe - after, universe - before - {one});
  }

  lemma {:induction false} Subset(a: set<Node>, b: set<Node>)
    requires a <= b
    ensures |a| <= |b|
    decreases |a|
  {
    if a != {} {
      var x :| x in a;
      Subset(a - {x}, b - {x});
    }
  }

  lemma ClosedWhenNoneAbsent(nodes: SparseNodes)
    requires AbsentParents(nodes) == {}
    ensures Closed(nodes)
  {
    forall node | node in nodes && SiblingOf(node) in nodes ensures ParentOf(node) in nodes {
      assert ParentOf(node) !in AbsentParents(nodes);
    }
  }

  /** An absent parent exists, and both of its children are known. */
  lemma ChildrenOf(nodes: SparseNodes, parent: Node, n: nat)
    requires (forall node | node in nodes :: Exists(node, n)) && parent in AbsentParents(nodes)
    ensures parent.level > 0 && Child(parent, false) in nodes && Child(parent, true) in nodes && Exists(parent, n)
  {
    var node :| node in nodes && SiblingOf(node) in nodes && ParentOf(node) == parent;
    assert {node, SiblingOf(node)} == {Child(parent, false), Child(parent, true)};
    ShiftStep(n, node.level);
  }

  lemma ParentIsPart(nodes: SparseNodes, parent: Node, leafs: seq<Digest>)
    requires PartOf(nodes, leafs) && parent.level > 0 && Child(parent, false) in nodes && Child(parent, true) in nodes
    ensures PartOf(nodes[parent := HashPair(nodes[Child(parent, false)], nodes[Child(parent, true)])], leafs)
  {
    LevelStep(leafs, parent.level - 1);
  }

  // ---------- paths out of the nodes ----------

  /** The leafs and the authentication structure are known. */
  ghost predicate Suffices(nodes: SparseNodes, leafIndices: set<nat>, h: nat) {
    && (forall i | i in leafIndices :: Ancestor(i, 0) in nodes)
    && BesidePaths(leafIndices, h) - OnPaths(leafIndices, h) <= nodes.Keys
  }

  /** Completion reaches every node on the paths, level by level. */
  lemma {:induction false} ReachesNode(nodes: SparseNodes, leafIndices: set<nat>, h: nat, i: nat, j: nat)
    requires Closed(nodes) && Suffices(nodes, leafIndices, h) && i in leafIndices && j <= h
    ensures Ancestor(i, j) in nodes
    decreases j, 0
  {
    if j > 0 {
      ReachesNode(nodes, leafIndices, h, i, j - 1);
      ReachesSibling(nodes, leafIndices, h, i, j - 1);
      ShiftStep(i, j - 1);
      assert ParentOf(Ancestor(i, j - 1)) == Ancestor(i, j);
    }
  }

  /** The node beside a path is on another path or in the authentication structure. */
  lemma {:induction false} ReachesSibling(nodes: SparseNodes, leafIndices: set<nat>, h: nat, i: nat, j: nat)
    requires Closed(nodes) && Suffices(nodes, leafIndices, h) && i in leafIndices && j < h
    ensures SiblingOf(Ancestor(i, j)) in nodes
    decreases j, 1
  {
    var node := SiblingOf(Ancestor(i, j));
    assert node in BesidePaths(leafIndices, h);
    if node in OnPaths(leafIndices, h) {
      var x, y: nat :| x in leafIndices && y <= h && node == Ancestor(x, y);
      assert y == j;
      ReachesNode(nodes, leafIndices, h, x, j);
    }
  }

  /** The path of a leaf, read off the nodes. None where the code panics because a node is missing. */
  method ReadPath(nodes: SparseNodes, i: nat, h: nat, ghost leafIndices: set<nat>, ghost leafs: seq<Digest>)
    returns (path: Option<seq<Digest>>)
    ensures && Closed(nodes) && Suffices(nodes, leafIndices, h) && i in leafIndices && PartOf(nodes, leafs)
            && i < |leafs| && TreeHeight(|leafs|, i) == h ==>
              path == Some(Path(leafs, i))
  {
    ghost var honest := && Closed(nodes) && Suffices(nodes, leafIndices, h) && i in leafIndices && PartOf(nodes, leafs)
                        && i < |leafs| && TreeHeight(|leafs|, i) == h;
    if honest { PathLength(leafs, i); }
    var read: seq<Digest> := [];
    for j := 0 to h
      invariant |read| == j
      invariant honest ==> read == Path(leafs, i)[..j]
    {
      if honest {
        ReachesSibling(nodes, leafIndices, h, i, j);
        PathAt(leafs, i, j);
        assert Path(leafs, i)[..j + 1] == Path(leafs, i)[..j] + [Path(leafs, i)[j]];
      }
      if SiblingOf(Ancestor(i, j)) !in nodes { return None; }
      read := read + [nodes[SiblingOf(Ancestor(i, j))]];
    }
    if honest { assert Path(leafs, i)[..h] == Path(leafs, i); }
    path := Some(read);
  }

  // ---------- nodes out of the paths ----------

  /** Every node on the leaf's path, and every node beside it. */
  ghost predicate HasPath(nodes: SparseNodes, i: nat, h: nat) {
    && (forall j: nat | j <= h :: Ancestor(i, j) in nodes)
    && (forall j: nat | j < h :: SiblingOf(Ancestor(i, j)) in nodes)
  }

  /** Walk up a path, adding its nodes. None of them contradicts a node that is there already. */
  method AddPath(nodes: SparseNodes, i: nat, leaf: Digest, path: seq<Digest>, ghost leafs: seq<Digest>) returns (more: SparseNodes)
    requires PartOf(nodes, leafs) && i < |leafs| && leaf == leafs[i] && path == Path(leafs, i)
    ensures PartOf(more, leafs) && nodes.Keys <= more.Keys && HasPath(more, i, |path|)
  {
    more := nodes;
    var running := leaf;
    PathLength(leafs, i);
    LevelLength(leafs, 0);
    for j := 0 to |path|
      invariant PartOf(more, leafs) && nodes.Keys <= more.Keys
      invariant Shift(i, j) < |Level(leafs, j)| && running == Level(leafs, j)[Shift(i, j)]
      invariant forall k: nat | k < j :: Ancestor(i, k) in more && SiblingOf(Ancestor(i, k)) in more
    {
      WalkUp(leafs, i, j);
      assert Ancestor(i, j) in more ==> more[Ancestor(i, j)] == running;
      more := more[Ancestor(i, j) := running];
      assert SiblingOf(Ancestor(i, j)) in more ==> more[SiblingOf(Ancestor(i, j))] == path[j];
      more := more[SiblingOf(Ancestor(i, j)) := path[j]];
      running := ParentDigest(Shift(i, j), running, path[j]);
    }
    assert Ancestor(i, |path|) in more ==> more[Ancestor(i, |path|)] == running;
    more := more[Ancestor(i, |path|) := running];
  }

  lemma WalkUp(leafs: seq<Digest>, i: nat, j: nat)
    requires i < |leafs| && j < |Path(leafs, i)| && Shift(i, j) < |Level(leafs, j)|
    ensures Sibling(Shift(i, j)) < |Level(leafs, j)| && Path(leafs, i)[j] == Level(leafs, j)[Sibling(Shift(i, j))]
    ensures Shift(i, j + 1) < |Level(leafs, j + 1)|
    ensures ParentDigest(Shift(i, j), Level(leafs, j)[Shift(i, j)], Path(leafs, i)[j]) == Level(leafs, j + 1)[Shift(i, j + 1)]
  {
    PathAt(leafs, i, j);
    LevelStep(leafs, j);
    ShiftStep(i, j);
  }
}
