/** The assembler: a lookup of the loaded catalog by Node_ID, the
    selection of nodes for a context, the tree built from them, and the
    level statistics of a tree. */
module Assembler {
  import opened Common
  import opened Config
  import opened Models
  import opened Loader
  import opened AncestorWalk
  import opened CatalogLookup
  import opened Selection
  import opened Hierarchy

  /** The counters `get_statistics` reports. */
  datatype Statistics = Statistics(
    totalNodes: int, levers: nat, businessObjectives: nat, valueDrivers: nat, kpis: nat)

  /** How many of the listed nodes sit at `level`. */
  function LevelCount(nodes: seq<Node>, level: string): (r: nat)
    ensures r <= |nodes|
  {
    if |nodes| == 0 then 0
    else (if nodes[0].nodeLevel == level then 1 else 0) + LevelCount(nodes[1..], level)
  }

  /** How many of the listed nodes sit at one of the four known levels. */
  function KnownLevelCount(nodes: seq<Node>): (r: nat)
    ensures r <= |nodes|
  {
    if |nodes| == 0 then 0
    else (if nodes[0].nodeLevel in NodeLevels then 1 else 0) + KnownLevelCount(nodes[1..])
  }

  /** A level counts nothing exactly when no listed node sits at it, and
      counts every node exactly when all of them do. */
  lemma {:induction false} LevelCountExtremes(nodes: seq<Node>, level: string)
    ensures LevelCount(nodes, level) == 0 <==> forall i :: 0 <= i < |nodes| ==> nodes[i].nodeLevel != level
    ensures LevelCount(nodes, level) == |nodes| <==> forall i :: 0 <= i < |nodes| ==> nodes[i].nodeLevel == level
    decreases |nodes|
  {
    if |nodes| > 0 {
      LevelCountExtremes(nodes[1..], level);
      assert forall i :: 1 <= i < |nodes| ==> nodes[i] == nodes[1..][i - 1];
    }
  }

  lemma {:induction false} LevelCountAppend(a: seq<Node>, b: seq<Node>, level: string)
    ensures LevelCount(a + b, level) == LevelCount(a, level) + LevelCount(b, level)
    decreases |a|
  {
    if |a| > 0 {
      assert (a + b)[0] == a[0];
      assert (a + b)[1..] == a[1..] + b;
      LevelCountAppend(a[1..], b, level);
    } else {
      assert a + b == b;
    }
  }

  /** The four counters add up to the nodes at a known level; a node at
      any other level is counted nowhere. */
  lemma {:induction false} LevelCountsSum(nodes: seq<Node>)
    ensures LevelCount(nodes, Lever) + LevelCount(nodes, BusinessObjective)
      + LevelCount(nodes, ValueDriver) + LevelCount(nodes, Kpi) == KnownLevelCount(nodes)
    decreases |nodes|
  {
    if |nodes| > 0 {
      LevelCountsSum(nodes[1..]);
    }
  }

  /** `r` is `stats` with the nodes of `nodes` added to the level counters. */
  ghost predicate Counted(r: Statistics, stats: Statistics, nodes: seq<Node>) {
    r.totalNodes == stats.totalNodes
    && r.levers == stats.levers + LevelCount(nodes, Lever)
    && r.businessObjectives == stats.businessObjectives + LevelCount(nodes, BusinessObjective)
    && r.valueDrivers == stats.valueDrivers + LevelCount(nodes, ValueDriver)
    && r.kpis == stats.kpis + LevelCount(nodes, Kpi)
  }

  lemma CountedAppend(s0: Statistics, s1: Statistics, s2: Statistics, a: seq<Node>, b: seq<Node>)
    requires Counted(s1, s0, a) && Counted(s2, s1, b)
    ensures Counted(s2, s0, a + b)
  {
    LevelCountAppend(a, b, Lever);
    LevelCountAppend(a, b, BusinessObjective);
    LevelCountAppend(a, b, ValueDriver);
    LevelCountAppend(a, b, Kpi);
  }

  /** The `if`/`elif` chain of `count_levels`: bumps the counter of the
      node's level, if it is one of the four. */
  method CountNode(n: Node, stats: Statistics) returns (r: Statistics)
    ensures Counted(r, stats, [n])
  {
    var level := n.nodeLevel;
    r := stats;
    if level == Lever {
      r := r.(levers := r.levers + 1);
    } else if level == BusinessObjective {
      r := r.(businessObjectives := r.businessObjectives + 1);
    } else if level == ValueDriver {
      r := r.(valueDrivers := r.valueDrivers + 1);
    } else if level == Kpi {
      r := r.(kpis := r.kpis + 1);
    }
  }

  /** `count_levels` on one subtree: adds the subtree's nodes at each known
      level to the counters it is given. */
  method CountLevels(t: ValueTreeNode, stats: Statistics) returns (r: Statistics)
    ensures Counted(r, stats, Preorder(t))
    decreases t
  {
    r := CountNode(t.node, stats);
    for i := 0 to |t.children|
      invariant Counted(r, stats, [t.node] + PreorderForest(t.children[..i]))
    {
      var before := r;
      r := CountLevels(t.children[i], r);
      ForestSnoc(t.children, i);
      CountedAppend(stats, before, r, [t.node] + PreorderForest(t.children[..i]), Preorder(t.children[i]));
      assert [t.node] + PreorderForest(t.children[..i + 1])
        == ([t.node] + PreorderForest(t.children[..i])) + Preorder(t.children[i]);
    }
    assert t.children[..|t.children|] == t.children;
  }

  lemma ForestSnoc(ts: seq<ValueTreeNode>, i: nat)
    requires i < |ts|
    ensures PreorderForest(ts[..i + 1]) == PreorderForest(ts[..i]) + Preorder(ts[i])
  {
    assert ts[..i + 1] == ts[..i] + [ts[i]];
    PreorderForestAppend(ts[..i], [ts[i]]);
    assert PreorderForest([ts[i]]) == Preorder(ts[i]);
  }

  /** `get_statistics`: the tree's node count and, per known level, how
      many tree nodes sit at it. */
  method GetStatistics(tree: ValueTree) returns (stats: Statistics)
    ensures stats.totalNodes == tree.nodeCount
    ensures stats.levers == LevelCount(PreorderForest(tree.roots), Lever)
    ensures stats.businessObjectives == LevelCount(PreorderForest(tree.roots), BusinessObjective)
    ensures stats.valueDrivers == LevelCount(PreorderForest(tree.roots), ValueDriver)
    ensures stats.kpis == LevelCount(PreorderForest(tree.roots), Kpi)
  {
    var start := Statistics(tree.nodeCount, 0, 0, 0, 0);
    stats := start;
    for i := 0 to |tree.roots|
      invariant Counted(stats, start, PreorderForest(tree.roots[..i]))
    {
      var before := stats;
      stats := CountLevels(tree.roots[i], stats);
      ForestSnoc(tree.roots, i);
      CountedAppend(start, before, stats, PreorderForest(tree.roots[..i]), Preorder(tree.roots[i]));
    }
    assert tree.roots[..|tree.roots|] == tree.roots;
  }

  /** The level counters of a tree add up to at most its number of nodes. */
  lemma StatisticsBound(tree: ValueTree)
    ensures LevelCount(PreorderForest(tree.roots), Lever) + LevelCount(PreorderForest(tree.roots), BusinessObjective)
      + LevelCount(PreorderForest(tree.roots), ValueDriver) + LevelCount(PreorderForest(tree.roots), Kpi)
      <= ForestSize(tree.roots)
  {
    LevelCountsSum(PreorderForest(tree.roots));
    PreorderForestLength(tree.roots);
  }

  /** The loop of `_build_node_lookup`: files each node under its Node_ID
      on top of `base`, a later node overwriting an earlier one. */
  method FileNodes(base: Lookup, nodes: seq<Node>) returns (lookup: Lookup)
    ensures lookup == base + LookupOf(nodes)
  {
    lookup := base;
    for i := 0 to |nodes|
      invariant lookup == base + LookupOf(nodes[..i])
    {
      LookupOfSnoc(nodes, i);
      UnionUpdate(base, LookupOf(nodes[..i]), nodes[i].nodeId, nodes[i]);
      lookup := lookup[nodes[i].nodeId := nodes[i]];
    }
    assert nodes[..|nodes|] == nodes;
  }

  lemma LookupOfSnoc(nodes: seq<Node>, i: nat)
    requires i < |nodes|
    ensures LookupOf(nodes[..i + 1]) == LookupOf(nodes[..i])[nodes[i].nodeId := nodes[i]]
  {
    assert nodes[..i + 1][..i] == nodes[..i];
  }

  lemma UnionUpdate(base: Lookup, m: Lookup, k: string, v: Node)
    ensures (base + m)[k := v] == base + m[k := v]
  {
  }

  lemma EmptyUnion(m: Lookup)
    ensures map[] + m == m
  {
  }

  /** The eligible-node loop: the Active catalog nodes the rules name. */
  method EligibleNodeIds(lookup: Lookup, rules: seq<ApplicabilityRule>) returns (eligible: set<string>)
    ensures eligible == EligibleIds(lookup, rules)
  {
    eligible := {};
    for i := 0 to |rules|
      invariant eligible == EligibleIds(lookup, rules[..i])
    {
      var rule := rules[i];
      if rule.nodeId.Some? && rule.nodeId.value in lookup && lookup[rule.nodeId.value].status == ActiveStatus {
        eligible := eligible + {rule.nodeId.value};
      }
      EligibleSnoc(lookup, rules, i);
    }
    assert rules[..|rules|] == rules;
  }

  /** One parent walk: adds the start id, then every Active node passed
      until the parent is null or empty or the id is unknown. */
  method WalkFrom(lookup: Lookup, nodeId: string, ids: set<string>) returns (allIds: set<string>)
    requires Acyclic(lookup) && nodeId in lookup
    ensures allIds == ids + {nodeId} + Chain(lookup, Some(nodeId), |lookup| + 1)
  {
    allIds := ids + {nodeId};
    var current := Some(nodeId);
    ghost var fuel: nat := |lookup| + 1;
    AcyclicHalts(lookup, nodeId);
    while current.Some? && current.value != ""
      invariant Halts(lookup, current, fuel)
      invariant allIds + Chain(lookup, current, fuel) == ids + {nodeId} + Chain(lookup, Some(nodeId), |lookup| + 1)
      decreases fuel
    {
      if current.value !in lookup {
        break;
      }
      var node := lookup[current.value];
      if node.status == ActiveStatus {
        allIds := allIds + {current.value};
      }
      current := node.parentNodeId;
      fuel := fuel - 1;
    }
  }

  /** The walks from every eligible id, in any order. */
  method WalkAncestors(lookup: Lookup, eligible: set<string>) returns (allIds: set<string>)
    requires Acyclic(lookup)
    requires forall e :: e in eligible ==> e in lookup
    ensures allIds == Included(lookup, eligible)
  {
    allIds := {};
    var pending := eligible;
    ghost var done: set<string> := {};
    while pending != {}
      invariant pending <= eligible && done == eligible - pending
      invariant allIds == Included(lookup, done)
      decreases pending
    {
      var nodeId :| nodeId in pending;
      allIds := WalkFrom(lookup, nodeId, allIds);
      IncludedStep(lookup, done, nodeId);
      pending := pending - {nodeId};
      done := done + {nodeId};
    }
  }

  class ValueTreeAssembler {
    const loader: DataLoader
    var nodeLookup: Lookup

    /** The lookup is keyed by Node_ID and has no parent cycle. */
    ghost predicate Valid()
      reads this, loader
    {
      loader.Valid() && Acyclic(nodeLookup) && Keyed(nodeLookup)
    }

    /** The lookup a loader's catalog gives: each Node_ID to the last row
        carrying it; empty while nothing is loaded. */
    static ghost function CatalogLookupOf(dataLoader: DataLoader): Lookup
      reads dataLoader
    {
      if dataLoader.loaded then LookupOf(NodesOf(dataLoader.Catalog())) else map[]
    }

    constructor(dataLoader: DataLoader)
      requires dataLoader.Valid()
      ensures loader == dataLoader
      ensures nodeLookup == CatalogLookupOf(dataLoader)
      ensures Valid()
    {
      loader := dataLoader;
      nodeLookup := map[];
      new;
      BuildNodeLookup();
      EmptyUnion(CatalogLookupOf(dataLoader));
      CatalogLookupValid(dataLoader);
    }

    /** A valid loader's catalog lookup is keyed by Node_ID and acyclic. */
    static lemma CatalogLookupValid(dataLoader: DataLoader)
      requires dataLoader.Valid()
      ensures Acyclic(CatalogLookupOf(dataLoader)) && Keyed(CatalogLookupOf(dataLoader))
    {
      if dataLoader.loaded {
        ConsistentCatalogAcyclic(dataLoader.nodeMaster.value, dataLoader.context.value);
      }
    }

    /** `_build_node_lookup`: while loaded, files every catalog node under
        its Node_ID, a later row overwriting an earlier one. */
    method BuildNodeLookup()
      modifies this
      ensures nodeLookup == old(nodeLookup) + CatalogLookupOf(loader)
    {
      if loader.loaded {
        var nodes := loader.GetAllNodes();
        nodeLookup := FileNodes(nodeLookup, nodes);
      } else {
        assert nodeLookup + map[] == nodeLookup;
      }
    }

    /** The rules the loader gives for a context. */
    ghost function RulesOf(valueIntent: string, industry: string, businessFunction: string): seq<ApplicabilityRule>
      reads this, loader
      requires Valid()
    {
      if loader.loaded then
        ConsistentWeightsReadable(loader.nodeMaster.value, loader.context.value);
        RulesFor(loader.RuleRows(), valueIntent, industry, businessFunction)
      else []
    }

    /** `all_node_ids` for a context and threshold. */
    ghost function Selected(valueIntent: string, industry: string, businessFunction: string, threshold: int): set<string>
      reads this, loader
      requires Valid()
    {
      Included(nodeLookup, EligibleIds(nodeLookup, AboveThreshold(RulesOf(valueIntent, industry, businessFunction), threshold)))
    }

    /** `_build_hierarchy`: the forest of the requested ids the lookup knows. */
    method BuildHierarchy(nodeIds: set<string>) returns (tree: ValueTree)
      requires Valid()
      ensures ForestOk(nodeLookup, IncludedNodes(nodeLookup, nodeIds), tree.roots)
      ensures ForestSize(tree.roots) <= |IncludedNodes(nodeLookup, nodeIds)|
      ensures tree.context.None? && tree.nodeCount == 0
    {
      var roots := BuildForest(nodeLookup, nodeIds);
      ForestSizeBound(nodeLookup, IncludedNodes(nodeLookup, nodeIds), roots);
      tree := NewValueTree(roots);
    }

    /** `assemble_value_tree`: the forest of the selected nodes, each
        included parent above its children and every list in Node_ID
        order, with the context echoed and the number of selected ids. */
    method AssembleValueTree(valueIntent: string, industry: string, businessFunction: string, threshold: int := DefaultThreshold)
      returns (tree: ValueTree)
      requires Valid()
      ensures tree.context == Some(AssemblyContext(valueIntent, industry, businessFunction, threshold))
      ensures tree.nodeCount == |Selected(valueIntent, industry, businessFunction, threshold)|
      ensures ForestOk(nodeLookup, Selected(valueIntent, industry, businessFunction, threshold), tree.roots)
      ensures forall x :: x in Selected(valueIntent, industry, businessFunction, threshold) ==>
        x in nodeLookup && nodeLookup[x].status == ActiveStatus
      ensures ForestSize(tree.roots) <= tree.nodeCount
      ensures HasOrphan(nodeLookup, Selected(valueIntent, industry, businessFunction, threshold)) ==>
        ForestSize(tree.roots) < tree.nodeCount
    {
      var rules := loader.GetApplicabilityRules(valueIntent, industry, businessFunction);
      var eligibleRules := AboveThreshold(rules, threshold);
      var eligible := EligibleNodeIds(nodeLookup, eligibleRules);
      var allIds := WalkAncestors(nodeLookup, eligible);
      IncludedActive(nodeLookup, eligible);
      assert IncludedNodes(nodeLookup, allIds) == allIds;
      tree := BuildHierarchy(allIds);
      tree := tree.(context := Some(AssemblyContext(valueIntent, industry, businessFunction, threshold)));
      tree := tree.(nodeCount := |allIds|);
      if HasOrphan(nodeLookup, allIds) {
        var x :| x in allIds && x in nodeLookup && Orphan(nodeLookup, allIds, x);
        OrphanDropped(nodeLookup, allIds, tree.roots, x);
      }
    }
  }
}
