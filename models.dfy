/** The records of the engine: catalog nodes, applicability rules, and the
    assembled tree with its preorder listing. */
module Models {
  import opened Common

  /** One catalog entry after the loader has defaulted its null cells. */
  datatype Node = Node(
    nodeId: string,
    nodeName: string,
    nodeLevel: string,
    parentNodeId: Option<string>,
    description: string,
    isLeaf: bool,
    status: string)

  /** Node equality looks at the identifier only; the other fields may differ. */
  predicate SameNode(a: Node, b: Node) {
    a.nodeId == b.nodeId
  }

  /** A node hashes as its identifier does, under whatever string hash `h` is. */
  function NodeHash(n: Node, h: string -> int): int {
    h(n.nodeId)
  }

  lemma SameNodeIsEquivalence(a: Node, b: Node, c: Node)
    ensures SameNode(a, a)
    ensures SameNode(a, b) ==> SameNode(b, a)
    ensures SameNode(a, b) && SameNode(b, c) ==> SameNode(a, c)
  {
  }

  lemma NodeHashRespectsEquality(a: Node, b: Node, h: string -> int)
    requires SameNode(a, b)
    ensures NodeHash(a, h) == NodeHash(b, h)
  {
  }

  /** One applicability row after defaulting. The context fields are strings
      because only rows whose three fields equal the query are ever turned
      into rules; the identifier of the node may still be a null cell. */
  datatype ApplicabilityRule = ApplicabilityRule(
    applicabilityId: string,
    nodeId: Option<string>,
    valueIntent: string,
    industry: string,
    businessFunction: string,
    applicabilityWeight: int,
    mandatoryFlag: bool,
    notes: string)

  /** An assembled node: a catalog node and its ordered children. */
  datatype ValueTreeNode = ValueTreeNode(node: Node, children: seq<ValueTreeNode>) {
    function NodeId(): string { node.nodeId }
    function Name(): string { node.nodeName }
    function Level(): string { node.nodeLevel }
    function Description(): string { node.description }
  }

  /** A fresh tree node has no children. */
  function NewValueTreeNode(n: Node): (t: ValueTreeNode)
    ensures t.node == n && t.children == []
    ensures t.NodeId() == n.nodeId && t.Level() == n.nodeLevel
    ensures t.Name() == n.nodeName && t.Description() == n.description
  {
    ValueTreeNode(n, [])
  }

  /** The four inputs of an assembly, echoed back in the result. */
  datatype AssemblyContext = AssemblyContext(
    valueIntent: string, industry: string, businessFunction: string, threshold: int)

  /** The assembled tree; `context` is None while it is still the empty mapping. */
  datatype ValueTree = ValueTree(
    roots: seq<ValueTreeNode>, context: Option<AssemblyContext>, nodeCount: int)

  /** A tree built from roots alone keeps the defaults for the other fields. */
  function NewValueTree(roots: seq<ValueTreeNode>): (t: ValueTree)
    ensures t.roots == roots && t.context == None && t.nodeCount == 0
  {
    ValueTree(roots, None, 0)
  }

  /** Each node, then its children's listings in order. */
  function Preorder(t: ValueTreeNode): seq<Node>
    decreases t, 1
  {
    [t.node] + PreorderForest(t.children)
  }

  function PreorderForest(ts: seq<ValueTreeNode>): seq<Node>
    decreases ts, 0
  {
    if |ts| == 0 then [] else Preorder(ts[0]) + PreorderForest(ts[1..])
  }

  /** The number of tree nodes reachable from `t`, itself included. */
  function Size(t: ValueTreeNode): nat
    decreases t, 1
  {
    1 + ForestSize(t.children)
  }

  function ForestSize(ts: seq<ValueTreeNode>): nat
    decreases ts, 0
  {
    if |ts| == 0 then 0 else Size(ts[0]) + ForestSize(ts[1..])
  }

  lemma {:induction false} PreorderLength(t: ValueTreeNode)
    ensures |Preorder(t)| == Size(t)
    decreases t, 1
  {
    PreorderForestLength(t.children);
  }

  lemma {:induction false} PreorderForestLength(ts: seq<ValueTreeNode>)
    ensures |PreorderForest(ts)| == ForestSize(ts)
    decreases ts, 0
  {
    if |ts| > 0 {
      PreorderLength(ts[0]);
      PreorderForestLength(ts[1..]);
    }
  }

  /** The listing of a forest splits at any point of the root list. */
  lemma {:induction false} PreorderForestAppend(a: seq<ValueTreeNode>, b: seq<ValueTreeNode>)
    ensures PreorderForest(a + b) == PreorderForest(a) + PreorderForest(b)
    decreases |a|
  {
    if |a| > 0 {
      assert (a + b)[1..] == a[1..] + b;
      PreorderForestAppend(a[1..], b);
    } else {
      assert a + b == b;
    }
  }

  /** `ValueTree.get_all_nodes`: appends every node reachable from the roots
      to one list, through a recursive collector. */
  method GetAllNodes(tree: ValueTree) returns (nodes: seq<Node>)
    ensures nodes == PreorderForest(tree.roots)
    ensures |nodes| == ForestSize(tree.roots)
    ensures tree.roots == [] ==> nodes == []
  {
    nodes := [];
    for i := 0 to |tree.roots|
      invariant nodes == PreorderForest(tree.roots[..i])
    {
      nodes := Collect(tree.roots[i], nodes);
      PreorderForestAppend(tree.roots[..i], [tree.roots[i]]);
      assert tree.roots[..i + 1] == tree.roots[..i] + [tree.roots[i]];
    }
    assert tree.roots[..|tree.roots|] == tree.roots;
    PreorderForestLength(tree.roots);
  }

  method Collect(t: ValueTreeNode, acc: seq<Node>) returns (nodes: seq<Node>)
    ensures nodes == acc + Preorder(t)
    decreases t
  {
    nodes := acc + [t.node];
    for i := 0 to |t.children|
      invariant nodes == acc + [t.node] + PreorderForest(t.children[..i])
    {
      nodes := Collect(t.children[i], nodes);
      PreorderForestAppend(t.children[..i], [t.children[i]]);
      assert t.children[..i + 1] == t.children[..i] + [t.children[i]];
    }
    assert t.children[..|t.children|] == t.children;
  }
}
