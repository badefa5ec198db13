/** The shape `_build_hierarchy` gives the included nodes: every root an
    included Lever whose parent is null or not included, every node's
    children exactly the included nodes naming it as parent, each list in
    ascending Node_ID order. The facts proved here hold for any forest of
    that shape, so for whatever order the set of ids is walked in. */
module Hierarchy {
  import opened Common
  import opened Config
  import opened Models
  import opened AncestorWalk

  function NodeKey(n: Node): string { n.nodeId }

  function TreeKey(t: ValueTreeNode): string { t.node.nodeId }

  /** `included_nodes`: the requested ids the lookup knows. */
  function IncludedNodes(lookup: Lookup, nodeIds: set<string>): (r: set<string>)
    ensures r <= lookup.Keys
    ensures forall x :: x in r <==> x in nodeIds && x in lookup
  {
    set x | x in nodeIds && x in lookup
  }

  /** The included ids whose parent is `p`. */
  function Group(lookup: Lookup, incl: set<string>, p: Option<string>): set<string>
    requires incl <= lookup.Keys
  {
    set x | x in incl && lookup[x].parentNodeId == p
  }

  /** A root: a Lever whose parent is null or not among the included ids. */
  predicate IsRoot(lookup: Lookup, incl: set<string>, x: string)
    requires x in lookup
  {
    lookup[x].nodeLevel == Lever
    && (lookup[x].parentNodeId.None? || lookup[x].parentNodeId.value !in incl)
  }

  function RootIds(lookup: Lookup, incl: set<string>): set<string>
    requires incl <= lookup.Keys
  {
    set x | x in incl && IsRoot(lookup, incl, x)
  }

  function IdsOf(ts: seq<ValueTreeNode>): set<string> {
    set t | t in ts :: t.node.nodeId
  }

  function NodeIdsOf(ns: seq<Node>): set<string> {
    set n | n in ns :: n.nodeId
  }

  /** `t` is the subtree `build_subtree` yields for its node. */
  ghost predicate SubtreeOk(lookup: Lookup, incl: set<string>, t: ValueTreeNode)
    decreases t
  {
    incl <= lookup.Keys
    && t.node.nodeId in incl && lookup[t.node.nodeId] == t.node
    && StrictlySortedBy(t.children, TreeKey)
    && IdsOf(t.children) == Group(lookup, incl, Some(t.node.nodeId))
    && forall c :: c in t.children ==> SubtreeOk(lookup, incl, c)
  }

  /** `roots` is the root list `_build_hierarchy` yields for `incl`. */
  ghost predicate ForestOk(lookup: Lookup, incl: set<string>, roots: seq<ValueTreeNode>) {
    incl <= lookup.Keys
    && StrictlySortedBy(roots, TreeKey)
    && IdsOf(roots) == RootIds(lookup, incl)
    && forall r :: r in roots ==> SubtreeOk(lookup, incl, r)
  }

  /** No two listed nodes share a Node_ID. */
  ghost predicate DistinctIds(s: seq<Node>) {
    DistinctKeys(s, NodeKey)
  }

  // ------------------------------------------------------------ uniqueness

  /** Two lists with strictly ascending keys and the same key set have the
      same keys, position by position. */
  lemma SameKeys(a: seq<ValueTreeNode>, b: seq<ValueTreeNode>)
    requires StrictlySortedBy(a, TreeKey) && StrictlySortedBy(b, TreeKey)
    requires IdsOf(a) == IdsOf(b)
    ensures |a| == |b| && forall i :: 0 <= i < |a| ==> a[i].node.nodeId == b[i].node.nodeId
  {
    var ka := Keys(a, TreeKey);
    var kb := Keys(b, TreeKey);
    forall x ensures x in ka <==> x in kb {
      if x in ka {
        var i :| 0 <= i < |ka| && ka[i] == x;
        assert a[i] in a;
        assert x in IdsOf(b);
        var t :| t in b && t.node.nodeId == x;
        var j :| 0 <= j < |b| && b[j] == t;
        assert kb[j] == x;
      }
      if x in kb {
        var i :| 0 <= i < |kb| && kb[i] == x;
        assert b[i] in b;
        assert x in IdsOf(a);
        var t :| t in a && t.node.nodeId == x;
        var j :| 0 <= j < |a| && a[j] == t;
        assert ka[j] == x;
      }
    }
    StrictlySortedUnique(ka, kb, Identity);
  }

  /** The subtree of a node is determined by the node alone. */
  lemma {:induction false} SubtreeUnique(lookup: Lookup, incl: set<string>, t1: ValueTreeNode, t2: ValueTreeNode)
    requires SubtreeOk(lookup, incl, t1) && SubtreeOk(lookup, incl, t2)
    requires t1.node.nodeId == t2.node.nodeId
    ensures t1 == t2
    decreases t1
  {
    SameKeys(t1.children, t2.children);
    forall i | 0 <= i < |t1.children| ensures t1.children[i] == t2.children[i] {
      assert t1.children[i] in t1.children && t2.children[i] in t2.children;
      SubtreeUnique(lookup, incl, t1.children[i], t2.children[i]);
    }
  }

  /** The forest is determined by the lookup and the included ids: the
      result does not depend on the order the ids are visited in. */
  lemma ForestUnique(lookup: Lookup, incl: set<string>, r1: seq<ValueTreeNode>, r2: seq<ValueTreeNode>)
    requires ForestOk(lookup, incl, r1) && ForestOk(lookup, incl, r2)
    ensures r1 == r2
  {
    SameKeys(r1, r2);
    forall i | 0 <= i < |r1| ensures r1[i] == r2[i] {
      assert r1[i] in r1 && r2[i] in r2;
      SubtreeUnique(lookup, incl, r1[i], r2[i]);
    }
  }

  // ------------------------------------------------------------- listings

  lemma {:induction false} ForestMember(ts: seq<ValueTreeNode>, n: Node) returns (k: nat)
    requires n in PreorderForest(ts)
    ensures k < |ts| && n in Preorder(ts[k])
    decreases |ts|
  {
    if n in Preorder(ts[0]) {
      k := 0;
    } else {
      var j := ForestMember(ts[1..], n);
      k := j + 1;
    }
  }

  /** A listed node is included, is the lookup's node, and its parent chain
      climbs through included nodes to the subtree's top. */
  lemma {:induction false} PathToTop(lookup: Lookup, incl: set<string>, t: ValueTreeNode, n: Node) returns (d: nat)
    requires SubtreeOk(lookup, incl, t) && n in Preorder(t)
    ensures n.nodeId in incl && lookup[n.nodeId] == n
    ensures Up(lookup, Some(n.nodeId), d) == Some(t.node.nodeId)
    ensures forall j :: 0 <= j <= d ==>
      Up(lookup, Some(n.nodeId), j).Some? && Up(lookup, Some(n.nodeId), j).value in incl
    decreases t
  {
    if n == t.node {
      d := 0;
    } else {
      var k := ForestMember(t.children, n);
      var c := t.children[k];
      var e := PathToTop(lookup, incl, c, n);
      assert c.node.nodeId in Group(lookup, incl, Some(t.node.nodeId));
      UpAdd(lookup, Some(n.nodeId), e, 1);
      forall j | 0 <= j <= e + 1
        ensures Up(lookup, Some(n.nodeId), j).Some? && Up(lookup, Some(n.nodeId), j).value in incl
      {
      }
      d := e + 1;
    }
  }

  /** Two sibling subtrees share no node. */
  lemma SiblingsDisjoint(lookup: Lookup, incl: set<string>, p: string,
                         c1: ValueTreeNode, c2: ValueTreeNode, n1: Node, n2: Node)
    requires Acyclic(lookup) && p in lookup
    requires SubtreeOk(lookup, incl, c1) && SubtreeOk(lookup, incl, c2)
    requires lookup[c1.node.nodeId].parentNodeId == Some(p) && lookup[c2.node.nodeId].parentNodeId == Some(p)
    requires c1.node.nodeId != c2.node.nodeId
    requires n1 in Preorder(c1) && n2 in Preorder(c2)
    ensures n1.nodeId != n2.nodeId
  {
    var d1 := PathToTop(lookup, incl, c1, n1);
    var d2 := PathToTop(lookup, incl, c2, n2);
    if n1.nodeId == n2.nodeId {
      SiblingDepths(lookup, p, c1, c2, n1.nodeId, d1, d2);
      SiblingDepths(lookup, p, c2, c1, n1.nodeId, d2, d1);
    }
  }

  /** Climbing from one node, a sibling is not reached later than another. */
  lemma SiblingDepths(lookup: Lookup, p: string,
                      c1: ValueTreeNode, c2: ValueTreeNode, x: string, d1: nat, d2: nat)
    requires Acyclic(lookup) && p in lookup
    requires c1.node.nodeId in lookup && lookup[c1.node.nodeId].parentNodeId == Some(p)
    requires c2.node.nodeId in lookup && lookup[c2.node.nodeId].parentNodeId == Some(p)
    requires Up(lookup, Some(x), d1) == Some(c1.node.nodeId) && Up(lookup, Some(x), d2) == Some(c2.node.nodeId)
    ensures d2 <= d1
  {
    if d1 < d2 {
      var k := d2 - d1;
      UpAdd(lookup, Some(x), d1, k);
      assert Up(lookup, Some(c1.node.nodeId), k) == Up(lookup, Some(p), k - 1);
      UpAdd(lookup, Some(p), k - 1, 1);
      NoReturn(lookup, p, k);
    }
  }

  /** A node does not reappear below itself. */
  lemma TopNotBelow(lookup: Lookup, incl: set<string>, t: ValueTreeNode, k: nat, n: Node)
    requires Acyclic(lookup) && SubtreeOk(lookup, incl, t)
    requires k < |t.children| && n in Preorder(t.children[k])
    ensures n.nodeId != t.node.nodeId
  {
    var c := t.children[k];
    assert c in t.children;
    var d := PathToTop(lookup, incl, c, n);
    assert c.node.nodeId in Group(lookup, incl, Some(t.node.nodeId));
    if n.nodeId == t.node.nodeId {
      UpAdd(lookup, Some(n.nodeId), d, 1);
      NoReturn(lookup, t.node.nodeId, d + 1);
    }
  }

  /** Two different roots share no node. */
  lemma RootsDisjoint(lookup: Lookup, incl: set<string>, r1: ValueTreeNode, r2: ValueTreeNode, n1: Node, n2: Node)
    requires SubtreeOk(lookup, incl, r1) && SubtreeOk(lookup, incl, r2)
    requires r1.node.nodeId in RootIds(lookup, incl) && r2.node.nodeId in RootIds(lookup, incl)
    requires r1.node.nodeId != r2.node.nodeId
    requires n1 in Preorder(r1) && n2 in Preorder(r2)
    ensures n1.nodeId != n2.nodeId
  {
    var d1 := PathToTop(lookup, incl, r1, n1);
    var d2 := PathToTop(lookup, incl, r2, n2);
    if n1.nodeId == n2.nodeId {
      if d1 < d2 {
        UpAdd(lookup, Some(n1.nodeId), d1, 1);
      } else if d2 < d1 {
        UpAdd(lookup, Some(n2.nodeId), d2, 1);
      }
    }
  }

  lemma DistinctConcat(a: seq<Node>, b: seq<Node>)
    requires DistinctIds(a) && DistinctIds(b)
    requires forall i, j :: 0 <= i < |a| && 0 <= j < |b| ==> a[i].nodeId != b[j].nodeId
    ensures DistinctIds(a + b)
  {
    var s := a + b;
    forall i, j | 0 <= i < j < |s| ensures s[i].nodeId != s[j].nodeId {
      if j < |a| {
        assert s[i] == a[i] && s[j] == a[j];
      } else if i >= |a| {
        assert s[i] == b[i - |a|] && s[j] == b[j - |a|];
      } else {
        assert s[i] == a[i] && s[j] == b[j - |a|];
      }
    }
  }

  /** A subtree lists every node once. */
  lemma {:induction false} SubtreeDistinct(lookup: Lookup, incl: set<string>, t: ValueTreeNode)
    requires Acyclic(lookup) && SubtreeOk(lookup, incl, t)
    ensures DistinctIds(Preorder(t))
    decreases t, 1
  {
    forall c | c in t.children ensures lookup[c.node.nodeId].parentNodeId == Some(t.node.nodeId) {
      assert c.node.nodeId in IdsOf(t.children);
    }
    SiblingsDistinct(lookup, incl, t.node.nodeId, t.children);
    var below := PreorderForest(t.children);
    forall j | 0 <= j < |below| ensures t.node.nodeId != below[j].nodeId {
      var k := ForestMember(t.children, below[j]);
      TopNotBelow(lookup, incl, t, k, below[j]);
    }
    DistinctConcat([t.node], below);
  }

  lemma {:induction false} SiblingsDistinct(lookup: Lookup, incl: set<string>, p: string, ts: seq<ValueTreeNode>)
    requires Acyclic(lookup) && p in lookup
    requires forall c :: c in ts ==> SubtreeOk(lookup, incl, c) && lookup[c.node.nodeId].parentNodeId == Some(p)
    requires StrictlySortedBy(ts, TreeKey)
    ensures DistinctIds(PreorderForest(ts))
    decreases ts, 0
  {
    if |ts| > 0 {
      assert ts[0] in ts;
      SubtreeDistinct(lookup, incl, ts[0]);
      SiblingsDistinct(lookup, incl, p, ts[1..]);
      var a := Preorder(ts[0]);
      var b := PreorderForest(ts[1..]);
      forall i, j | 0 <= i < |a| && 0 <= j < |b| ensures a[i].nodeId != b[j].nodeId {
        var k := ForestMember(ts[1..], b[j]);
        assert ts[1..][k] == ts[k + 1] && ts[k + 1] in ts;
        StrLtIrreflexive(ts[0].node.nodeId);
        SiblingsDisjoint(lookup, incl, p, ts[0], ts[k + 1], a[i], b[j]);
      }
      DistinctConcat(a, b);
    }
  }

  lemma {:induction false} RootsDistinct(lookup: Lookup, incl: set<string>, ts: seq<ValueTreeNode>)
    requires Acyclic(lookup) && incl <= lookup.Keys
    requires forall r :: r in ts ==> SubtreeOk(lookup, incl, r) && r.node.nodeId in RootIds(lookup, incl)
    requires StrictlySortedBy(ts, TreeKey)
    ensures DistinctIds(PreorderForest(ts))
    decreases |ts|
  {
    if |ts| > 0 {
      assert ts[0] in ts;
      SubtreeDistinct(lookup, incl, ts[0]);
      RootsDistinct(lookup, incl, ts[1..]);
      var a := Preorder(ts[0]);
      var b := PreorderForest(ts[1..]);
      forall i, j | 0 <= i < |a| && 0 <= j < |b| ensures a[i].nodeId != b[j].nodeId {
        var k := ForestMember(ts[1..], b[j]);
        assert ts[1..][k] == ts[k + 1] && ts[k + 1] in ts;
        StrLtIrreflexive(ts[0].node.nodeId);
        RootsDisjoint(lookup, incl, ts[0], ts[k + 1], a[i], b[j]);
      }
      DistinctConcat(a, b);
    }
  }

  /** Every node of the forest is an included node, listed once. */
  lemma ForestListing(lookup: Lookup, incl: set<string>, roots: seq<ValueTreeNode>)
    requires Acyclic(lookup) && ForestOk(lookup, incl, roots)
    ensures DistinctIds(PreorderForest(roots))
    ensures forall n :: n in PreorderForest(roots) ==> n.nodeId in incl && lookup[n.nodeId] == n
  {
    RootsDistinct(lookup, incl, roots);
    forall n | n in PreorderForest(roots) ensures n.nodeId in incl && lookup[n.nodeId] == n {
      var k := ForestMember(roots, n);
      assert roots[k] in roots;
      var d := PathToTop(lookup, incl, roots[k], n);
    }
  }

  lemma {:induction false} DistinctBound(s: seq<Node>, ids: set<string>)
    requires DistinctIds(s) && forall n :: n in s ==> n.nodeId in ids
    ensures |s| <= |ids|
    decreases |s|
  {
    if |s| > 0 {
      var rest := s[1..];
      assert forall n :: n in rest ==> n.nodeId in ids - {s[0].nodeId} by {
        forall n | n in rest ensures n.nodeId != s[0].nodeId {
          var j :| 0 <= j < |rest| && rest[j] == n;
          assert s[j + 1] == n;
        }
      }
      DistinctBound(rest, ids - {s[0].nodeId});
    }
  }

  /** The tree has at most one node per included id. */
  lemma ForestSizeBound(lookup: Lookup, incl: set<string>, roots: seq<ValueTreeNode>)
    requires Acyclic(lookup) && ForestOk(lookup, incl, roots)
    ensures ForestSize(roots) <= |incl|
  {
    ForestListing(lookup, incl, roots);
    PreorderForestLength(roots);
    DistinctBound(PreorderForest(roots), incl);
  }

  /** A chain that stays among included nodes for a step starts at a node
      whose parent is included. */
  lemma ParentIncluded(lookup: Lookup, incl: set<string>, y: string, d: nat)
    requires incl <= lookup.Keys && y in incl && d > 0
    requires forall j :: 0 <= j <= d ==> Up(lookup, Some(y), j).Some? && Up(lookup, Some(y), j).value in incl
    ensures lookup[y].parentNodeId.Some? && lookup[y].parentNodeId.value in incl
  {
    assert Up(lookup, Some(y), 1) == lookup[y].parentNodeId;
  }

  /** A root candidate that is not a Lever: its parent is null or not
      included, so no tree node lists it. */
  predicate Orphan(lookup: Lookup, incl: set<string>, x: string)
    requires x in lookup
  {
    lookup[x].nodeLevel != Lever && (lookup[x].parentNodeId.None? || lookup[x].parentNodeId.value !in incl)
  }

  ghost predicate HasOrphan(lookup: Lookup, incl: set<string>) {
    exists x :: x in incl && x in lookup && Orphan(lookup, incl, x)
  }

  /** An included node that is not a Lever and has no included parent is in
      no tree, so the tree is smaller than the included set. */
  lemma OrphanDropped(lookup: Lookup, incl: set<string>, roots: seq<ValueTreeNode>, x: string)
    requires Acyclic(lookup) && ForestOk(lookup, incl, roots)
    requires x in incl && Orphan(lookup, incl, x)
    ensures forall n :: n in PreorderForest(roots) ==> n.nodeId != x
    ensures ForestSize(roots) < |incl|
  {
    forall n | n in PreorderForest(roots) ensures n.nodeId != x {
      var k := ForestMember(roots, n);
      assert roots[k] in roots;
      var d := PathToTop(lookup, incl, roots[k], n);
      if d > 0 {
        ParentIncluded(lookup, incl, n.nodeId, d);
      } else {
        assert roots[k].node.nodeId in RootIds(lookup, incl);
      }
    }
    ForestListing(lookup, incl, roots);
    PreorderForestLength(roots);
    DistinctBound(PreorderForest(roots), incl - {x});
  }

  // ------------------------------------------------------------- coverage

  lemma {:induction false} InForest(ts: seq<ValueTreeNode>, k: nat, n: Node)
    requires k < |ts| && n in Preorder(ts[k])
    ensures n in PreorderForest(ts)
    decreases |ts|
  {
    if k > 0 {
      assert ts[1..][k - 1] == ts[k];
      InForest(ts[1..], k - 1, n);
    }
  }

  /** A listed node heads a subtree of the shape, inside the one listing it. */
  lemma {:induction false} SubtreeAt(lookup: Lookup, incl: set<string>, t: ValueTreeNode, n: Node) returns (s: ValueTreeNode)
    requires SubtreeOk(lookup, incl, t) && n in Preorder(t)
    ensures SubtreeOk(lookup, incl, s) && s.node == n
    ensures forall m :: m in Preorder(s) ==> m in Preorder(t)
    decreases t
  {
    if n == t.node {
      s := t;
    } else {
      var k := ForestMember(t.children, n);
      var c := t.children[k];
      assert c in t.children;
      s := SubtreeAt(lookup, incl, c, n);
      forall m | m in Preorder(s) ensures m in Preorder(t) {
        InForest(t.children, k, m);
      }
    }
  }

  /** An included node whose parent is in the tree is in the tree too. */
  lemma ChildListed(lookup: Lookup, incl: set<string>, roots: seq<ValueTreeNode>, n: Node, x: string)
    requires ForestOk(lookup, incl, roots) && n in PreorderForest(roots)
    requires x in incl && lookup[x].parentNodeId == Some(n.nodeId)
    ensures lookup[x] in PreorderForest(roots)
  {
    var k := ForestMember(roots, n);
    assert roots[k] in roots;
    var s := SubtreeAt(lookup, incl, roots[k], n);
    assert x in Group(lookup, incl, Some(n.nodeId));
    var c :| c in s.children && c.node.nodeId == x;
    var j :| 0 <= j < |s.children| && s.children[j] == c;
    assert c.node in Preorder(c);
    InForest(s.children, j, c.node);
    InForest(roots, k, c.node);
  }

  /** The chain of `x` stays among included nodes for `d` steps and there
      meets an included root. */
  ghost predicate ReachesRoot(lookup: Lookup, incl: set<string>, x: string, d: nat)
    requires incl <= lookup.Keys
  {
    (forall j :: 0 <= j <= d ==> Up(lookup, Some(x), j).Some? && Up(lookup, Some(x), j).value in incl)
    && Up(lookup, Some(x), d).Some? && Up(lookup, Some(x), d).value in RootIds(lookup, incl)
  }

  lemma {:induction false} Covered(lookup: Lookup, incl: set<string>, roots: seq<ValueTreeNode>, x: string, d: nat)
    requires Keyed(lookup) && ForestOk(lookup, incl, roots) && x in incl
    requires ReachesRoot(lookup, incl, x, d)
    ensures lookup[x] in PreorderForest(roots)
    decreases d
  {
    if d == 0 {
      assert x in IdsOf(roots);
      var r :| r in roots && r.node.nodeId == x;
      var k :| 0 <= k < |roots| && roots[k] == r;
      assert r.node in Preorder(r);
      InForest(roots, k, r.node);
    } else {
      assert Up(lookup, Some(x), 1) == lookup[x].parentNodeId;
      var p := lookup[x].parentNodeId.value;
      forall j | 0 <= j <= d - 1
        ensures Up(lookup, Some(p), j) == Up(lookup, Some(x), j + 1)
      {
        UpAdd(lookup, Some(x), 1, j);
      }
      Covered(lookup, incl, roots, p, d - 1);
      ChildListed(lookup, incl, roots, lookup[p], x);
    }
  }

  /** A catalog node is in the tree exactly when it is included and its
      chain of included parents reaches an included root. */
  lemma TreeMembership(lookup: Lookup, incl: set<string>, roots: seq<ValueTreeNode>, x: string)
    requires Keyed(lookup) && ForestOk(lookup, incl, roots) && x in lookup
    ensures lookup[x] in PreorderForest(roots) <==> x in incl && exists d :: ReachesRoot(lookup, incl, x, d)
  {
    if lookup[x] in PreorderForest(roots) {
      var k := ForestMember(roots, lookup[x]);
      assert roots[k] in roots;
      var d := PathToTop(lookup, incl, roots[k], lookup[x]);
      assert ReachesRoot(lookup, incl, x, d);
    }
    if x in incl && exists d :: ReachesRoot(lookup, incl, x, d) {
      var d :| ReachesRoot(lookup, incl, x, d);
      Covered(lookup, incl, roots, x, d);
    }
  }

  /** Unpacked: every root is an included Lever with no included parent. */
  lemma RootsAreLevers(lookup: Lookup, incl: set<string>, roots: seq<ValueTreeNode>)
    requires ForestOk(lookup, incl, roots)
    ensures forall r :: r in roots ==>
      r.node.nodeLevel == Lever && (r.node.parentNodeId.None? || r.node.parentNodeId.value !in incl)
  {
    forall r | r in roots ensures r.node.nodeLevel == Lever
      && (r.node.parentNodeId.None? || r.node.parentNodeId.value !in incl)
    {
      assert r.node.nodeId in IdsOf(roots);
    }
  }

  /** Unpacked: every child names its tree parent as parent. */
  lemma ChildrenNameParent(lookup: Lookup, incl: set<string>, t: ValueTreeNode)
    requires SubtreeOk(lookup, incl, t)
    ensures forall c :: c in t.children ==> c.node.parentNodeId == Some(t.node.nodeId)
  {
    forall c | c in t.children ensures c.node.parentNodeId == Some(t.node.nodeId) {
      assert c.node.nodeId in IdsOf(t.children);
    }
  }

  // ------------------------------------------------------------- building

  /** Every entry of the lookup is filed under its own identifier. */
  ghost predicate Keyed(lookup: Lookup) {
    forall k :: k in lookup ==> lookup[k].nodeId == k
  }

  /** `g` files every node of `done` under its parent, once, in a list
      whose entries are all lookup entries of `done` with that parent. */
  ghost predicate Grouped(lookup: Lookup, done: set<string>, g: map<Option<string>, seq<Node>>) {
    done <= lookup.Keys
    && (forall p :: p in g ==> DistinctIds(g[p]))
    && (forall p, n :: p in g && n in g[p] ==>
          n.nodeId in done && lookup[n.nodeId] == n && n.parentNodeId == p)
    && (forall x :: x in done ==>
          lookup[x].parentNodeId in g && lookup[x] in g[lookup[x].parentNodeId])
  }

  /** `children_by_parent` once sorted: per parent, the included nodes that
      name it, in strictly ascending Node_ID order. */
  ghost predicate ChildrenTable(lookup: Lookup, incl: set<string>, h: map<Option<string>, seq<Node>>) {
    incl <= lookup.Keys
    && (forall p :: p in h ==> StrictlySortedBy(h[p], NodeKey))
    && (forall p :: p in h ==> NodeIdsOf(h[p]) == Group(lookup, incl, p))
    && (forall p, n :: p in h && n in h[p] ==> n.nodeId in incl && lookup[n.nodeId] == n)
    && (forall x :: x in incl ==> lookup[x].parentNodeId in h)
  }

  /** Files each included node under its parent identifier, as the
      `defaultdict(list)` loop does, visiting the ids in any order. */
  method GroupByParent(lookup: Lookup, incl: set<string>) returns (g: map<Option<string>, seq<Node>>)
    requires incl <= lookup.Keys && Keyed(lookup)
    ensures Grouped(lookup, incl, g)
  {
    g := map[];
    var rest := incl;
    ghost var done: set<string> := {};
    while rest != {}
      invariant rest <= incl && done == incl - rest
      invariant Grouped(lookup, done, g)
      decreases rest
    {
      var x :| x in rest;
      var node := lookup[x];
      var siblings := if node.parentNodeId in g then g[node.parentNodeId] else [];
      GroupedStep(lookup, done, g, x, siblings);
      g := g[node.parentNodeId := siblings + [node]];
      rest := rest - {x};
      done := done + {x};
    }
  }

  lemma GroupedStep(lookup: Lookup, done: set<string>, g: map<Option<string>, seq<Node>>,
                    x: string, siblings: seq<Node>)
    requires Keyed(lookup) && Grouped(lookup, done, g) && x in lookup && x !in done
    requires siblings == if lookup[x].parentNodeId in g then g[lookup[x].parentNodeId] else []
    ensures Grouped(lookup, done + {x}, g[lookup[x].parentNodeId := siblings + [lookup[x]]])
  {
    var node := lookup[x];
    AppendDistinct(siblings, node, done);
    var g' := g[node.parentNodeId := siblings + [node]];
    forall p: Option<string>, n: Node | p in g' && n in g'[p]
      ensures n.nodeId in done + {x} && lookup[n.nodeId] == n && n.parentNodeId == p
    {
      if p == node.parentNodeId && n !in siblings {
        assert n == node;
      }
    }
    forall y | y in done + {x}
      ensures lookup[y].parentNodeId in g' && lookup[y] in g'[lookup[y].parentNodeId]
    {
      if y != x && lookup[y].parentNodeId == node.parentNodeId {
        assert lookup[y] in siblings;
      }
    }
  }

  lemma AppendDistinct(siblings: seq<Node>, node: Node, done: set<string>)
    requires DistinctIds(siblings) && forall n :: n in siblings ==> n.nodeId in done
    requires node.nodeId !in done
    ensures DistinctIds(siblings + [node])
  {
    var s := siblings + [node];
    forall i, j | 0 <= i < j < |s| ensures s[i].nodeId != s[j].nodeId {
      assert s[i] == siblings[i];
      if j == |siblings| { assert siblings[i] in siblings; } else { assert s[j] == siblings[j]; }
    }
  }

  /** Sorts every list of `g` by Node_ID. */
  method SortGroups(g: map<Option<string>, seq<Node>>) returns (h: map<Option<string>, seq<Node>>)
    ensures h.Keys == g.Keys
    ensures forall p :: p in h ==> multiset(h[p]) == multiset(g[p]) && SortedBy(h[p], NodeKey)
  {
    h := g;
    var todo := g.Keys;
    while todo != {}
      invariant todo <= g.Keys && h.Keys == g.Keys
      invariant forall p :: p in h ==> multiset(h[p]) == multiset(g[p])
      invariant forall p :: p in h && p !in todo ==> SortedBy(h[p], NodeKey)
      decreases todo
    {
      var p :| p in todo;
      h := h[p := SortByKey(h[p], NodeKey)];
      todo := todo - {p};
    }
  }

  /** Grouping all included nodes and sorting each group yields the
      children table. */
  lemma SortedGroupsTable(lookup: Lookup, incl: set<string>, g: map<Option<string>, seq<Node>>,
                          h: map<Option<string>, seq<Node>>)
    requires Keyed(lookup) && Grouped(lookup, incl, g)
    requires h.Keys == g.Keys
    requires forall p :: p in h ==> multiset(h[p]) == multiset(g[p]) && SortedBy(h[p], NodeKey)
    ensures ChildrenTable(lookup, incl, h)
  {
    forall p | p in h
      ensures StrictlySortedBy(h[p], NodeKey)
      ensures NodeIdsOf(h[p]) == Group(lookup, incl, p)
      ensures forall n :: n in h[p] ==> n.nodeId in incl && lookup[n.nodeId] == n
    {
      SortedPermutationStrict(h[p], g[p], NodeKey);
      forall n ensures n in h[p] <==> n in g[p] {
        assert n in h[p] <==> n in multiset(h[p]);
        assert n in g[p] <==> n in multiset(g[p]);
      }
      forall x | x in Group(lookup, incl, p) ensures x in NodeIdsOf(h[p]) {
        assert lookup[x] in g[p];
      }
    }
  }

  /** `build_subtree`: the node with the subtrees of its listed children,
      in the table's order. Recursion descends one level per call, which
      the acyclic lookup bounds. */
  method BuildSubtree(lookup: Lookup, ghost incl: set<string>, h: map<Option<string>, seq<Node>>, node: Node)
    returns (t: ValueTreeNode)
    requires Acyclic(lookup) && ChildrenTable(lookup, incl, h)
    requires node.nodeId in incl && lookup[node.nodeId] == node
    ensures SubtreeOk(lookup, incl, t) && t.node == node
    decreases |lookup| + 2 - Depth(lookup, node.nodeId)
  {
    t := NewValueTreeNode(node);
    var children := if Some(node.nodeId) in h then h[Some(node.nodeId)] else [];
    for i := 0 to |children|
      invariant t.node == node && |t.children| == i
      invariant forall k :: 0 <= k < i ==> t.children[k].node == children[k]
      invariant forall k :: 0 <= k < i ==> SubtreeOk(lookup, incl, t.children[k])
    {
      var child := children[i];
      TableEntry(lookup, incl, h, Some(node.nodeId), child);
      DepthOfChild(lookup, child.nodeId, node.nodeId);
      var c := BuildSubtree(lookup, incl, h, child);
      t := t.(children := t.children + [c]);
    }
    SubtreeShape(lookup, incl, h, node, children, t);
  }

  lemma SubtreeShape(lookup: Lookup, incl: set<string>, h: map<Option<string>, seq<Node>>,
                     node: Node, children: seq<Node>, t: ValueTreeNode)
    requires ChildrenTable(lookup, incl, h)
    requires node.nodeId in incl && lookup[node.nodeId] == node
    requires children == if Some(node.nodeId) in h then h[Some(node.nodeId)] else []
    requires t.node == node && |t.children| == |children|
    requires forall k :: 0 <= k < |children| ==> t.children[k].node == children[k]
    requires forall k :: 0 <= k < |children| ==> SubtreeOk(lookup, incl, t.children[k])
    ensures SubtreeOk(lookup, incl, t)
  {
    var p := Some(node.nodeId);
    ChildrenSorted(children, t.children);
    ChildrenIds(children, t.children);
    if p !in h {
      forall x | x in incl ensures lookup[x].parentNodeId in h {}
      assert Group(lookup, incl, p) == {};
    }
    forall c | c in t.children ensures SubtreeOk(lookup, incl, c) {
      var k :| 0 <= k < |t.children| && t.children[k] == c;
    }
  }

  lemma ChildrenSorted(children: seq<Node>, ts: seq<ValueTreeNode>)
    requires StrictlySortedBy(children, NodeKey)
    requires |ts| == |children| && forall k :: 0 <= k < |children| ==> ts[k].node == children[k]
    ensures StrictlySortedBy(ts, TreeKey)
  {
    forall i, j | 0 <= i < j < |ts| ensures StrLt(TreeKey(ts[i]), TreeKey(ts[j])) {
      assert TreeKey(ts[i]) == NodeKey(children[i]);
      assert TreeKey(ts[j]) == NodeKey(children[j]);
    }
  }

  lemma ChildrenIds(children: seq<Node>, ts: seq<ValueTreeNode>)
    requires |ts| == |children| && forall k :: 0 <= k < |children| ==> ts[k].node == children[k]
    ensures IdsOf(ts) == NodeIdsOf(children)
  {
    forall x ensures x in IdsOf(ts) <==> x in NodeIdsOf(children) {
      if x in IdsOf(ts) {
        var c :| c in ts && c.node.nodeId == x;
        var k :| 0 <= k < |ts| && ts[k] == c;
        assert children[k] in children;
      }
      if x in NodeIdsOf(children) {
        var n :| n in children && n.nodeId == x;
        var k :| 0 <= k < |children| && children[k] == n;
        assert ts[k] in ts;
      }
    }
  }

  /** An entry of the children table is an included node filed under its
      parent. */
  lemma TableEntry(lookup: Lookup, incl: set<string>, h: map<Option<string>, seq<Node>>, p: Option<string>, n: Node)
    requires ChildrenTable(lookup, incl, h) && p in h && n in h[p]
    ensures n.nodeId in incl && lookup[n.nodeId] == n && n.parentNodeId == p
  {
    assert n.nodeId in NodeIdsOf(h[p]);
  }

  lemma IdsSnoc(ts: seq<ValueTreeNode>, t: ValueTreeNode)
    ensures IdsOf(ts + [t]) == IdsOf(ts) + {t.node.nodeId}
  {
    var s := ts + [t];
    forall x ensures x in IdsOf(s) <==> x in IdsOf(ts) + {t.node.nodeId} {
      if x in IdsOf(s) {
        var c :| c in s && c.node.nodeId == x;
        if c != t { assert c in ts; }
      }
      if x in IdsOf(ts) {
        var c :| c in ts && c.node.nodeId == x;
        assert c in s;
      }
      assert t in s;
    }
  }

  /** The roots found once the ids outside `rest` have been visited. */
  ghost predicate Collected(lookup: Lookup, incl: set<string>, rest: set<string>, found: seq<ValueTreeNode>) {
    incl <= lookup.Keys && rest <= incl
    && (forall r :: r in found ==> SubtreeOk(lookup, incl, r))
    && IdsOf(found) == RootIds(lookup, incl) - rest
    && DistinctKeys(found, TreeKey)
  }

  /** The loop over `included_nodes` picking the roots, visiting the ids in
      any order, each root expanded by `build_subtree`. */
  method CollectRoots(lookup: Lookup, incl: set<string>, h: map<Option<string>, seq<Node>>)
    returns (found: seq<ValueTreeNode>)
    requires Acyclic(lookup) && Keyed(lookup) && ChildrenTable(lookup, incl, h)
    ensures forall r :: r in found ==> SubtreeOk(lookup, incl, r)
    ensures IdsOf(found) == RootIds(lookup, incl)
    ensures DistinctKeys(found, TreeKey)
  {
    found := [];
    var rest := incl;
    while rest != {}
      invariant Collected(lookup, incl, rest, found)
      decreases rest
    {
      var x :| x in rest;
      var node := lookup[x];
      if node.parentNodeId.None? || node.parentNodeId.value !in incl {
        if node.nodeLevel == Lever {
          var t := BuildSubtree(lookup, incl, h, node);
          CollectedAdd(lookup, incl, rest, found, x, t);
          found := found + [t];
        } else {
          CollectedSkip(lookup, incl, rest, found, x);
        }
      } else {
        CollectedSkip(lookup, incl, rest, found, x);
      }
      rest := rest - {x};
    }
  }

  lemma CollectedAdd(lookup: Lookup, incl: set<string>, rest: set<string>, found: seq<ValueTreeNode>,
                     x: string, t: ValueTreeNode)
    requires Collected(lookup, incl, rest, found) && x in rest && IsRoot(lookup, incl, x)
    requires SubtreeOk(lookup, incl, t) && t.node.nodeId == x
    ensures Collected(lookup, incl, rest - {x}, found + [t])
  {
    forall r | r in found ensures r.node.nodeId !in rest {
      assert r.node.nodeId in IdsOf(found);
    }
    RootAppend(found, t, rest);
    assert IdsOf(found + [t]) == RootIds(lookup, incl) - (rest - {x});
  }

  lemma CollectedSkip(lookup: Lookup, incl: set<string>, rest: set<string>, found: seq<ValueTreeNode>, x: string)
    requires Collected(lookup, incl, rest, found) && x in rest && !IsRoot(lookup, incl, x)
    ensures Collected(lookup, incl, rest - {x}, found)
  {
    assert RootIds(lookup, incl) - (rest - {x}) == RootIds(lookup, incl) - rest;
  }

  lemma RootAppend(found: seq<ValueTreeNode>, t: ValueTreeNode, rest: set<string>)
    requires DistinctKeys(found, TreeKey) && t.node.nodeId in rest
    requires forall r :: r in found ==> r.node.nodeId !in rest
    ensures DistinctKeys(found + [t], TreeKey)
    ensures IdsOf(found + [t]) == IdsOf(found) + {t.node.nodeId}
  {
    IdsSnoc(found, t);
    var s := found + [t];
    forall i, j | 0 <= i < j < |s| ensures TreeKey(s[i]) != TreeKey(s[j]) {
      assert s[i] == found[i];
      if j == |found| { assert found[i] in found; } else { assert s[j] == found[j]; }
    }
  }

  /** `_build_hierarchy` on a set of requested ids: group, sort, collect
      and sort the roots. */
  method BuildForest(lookup: Lookup, nodeIds: set<string>) returns (roots: seq<ValueTreeNode>)
    requires Acyclic(lookup) && Keyed(lookup)
    ensures ForestOk(lookup, IncludedNodes(lookup, nodeIds), roots)
  {
    var incl := IncludedNodes(lookup, nodeIds);
    var g := GroupByParent(lookup, incl);
    var h := SortGroups(g);
    SortedGroupsTable(lookup, incl, g, h);
    var found := CollectRoots(lookup, incl, h);
    roots := SortByKey(found, TreeKey);
    SortedPermutationStrict(roots, found, TreeKey);
    forall r ensures r in roots <==> r in found {
      assert r in roots <==> r in multiset(roots);
      assert r in found <==> r in multiset(found);
    }
    assert IdsOf(roots) == IdsOf(found);
  }
}
