/** Why the assembler's walks end: a catalog that passes the duplicate and
    circular-dependency checks yields an acyclic node lookup. */
module CatalogLookup {
  import opened Common
  import opened Tables
  import opened Models
  import opened Validators
  import opened Loader
  import opened AncestorWalk

  /** The validator's parent lookup and the assembler's node lookup describe
      the same parent relation. */
  ghost predicate Agree(pl: map<string, string>, lookup: Lookup) {
    (forall k :: k in pl ==> k in lookup && lookup[k].parentNodeId == Some(pl[k]))
    && (forall k :: k in lookup && lookup[k].parentNodeId.Some? ==> k in pl)
  }

  /** Nodes that carry the rows' identifiers and parents, position by position. */
  ghost predicate SameLinks(rows: seq<NodeRow>, nodes: seq<Node>) {
    |nodes| == |rows|
    && forall i :: 0 <= i < |rows| ==>
         nodes[i].nodeId == rows[i].nodeId && nodes[i].parentNodeId == rows[i].parentNodeId
  }

  lemma RowsLinkNodes(rows: seq<NodeRow>)
    ensures SameLinks(rows, NodesOf(rows))
  {
  }

  /** With distinct identifiers, both lookups built from the same rows agree. */
  lemma {:induction false} LookupsAgree(rows: seq<NodeRow>, nodes: seq<Node>)
    requires SameLinks(rows, nodes)
    requires forall i, j :: 0 <= i < j < |rows| ==> rows[i].nodeId != rows[j].nodeId
    ensures Agree(ParentLookup(rows), LookupOf(nodes))
    decreases |rows|
  {
    if |rows| > 0 {
      var n := |rows| - 1;
      var front := rows[..n];
      var frontNodes := nodes[..n];
      assert SameLinks(front, frontNodes);
      assert forall i, j :: 0 <= i < j < |front| ==> front[i].nodeId != front[j].nodeId;
      LookupsAgree(front, frontNodes);
      var node := nodes[n];
      assert node.nodeId !in LookupOf(frontNodes) by {
        forall i | 0 <= i < n ensures frontNodes[i].nodeId != node.nodeId {
          assert rows[i].nodeId != rows[n].nodeId;
        }
      }
      AgreeStep(ParentLookup(front), LookupOf(frontNodes), node);
      assert LookupOf(nodes) == LookupOf(frontNodes)[node.nodeId := node];
      ParentLookupSnoc(rows, node);
    }
  }

  lemma ParentLookupSnoc(rows: seq<NodeRow>, node: Node)
    requires |rows| > 0
    requires node.nodeId == rows[|rows| - 1].nodeId && node.parentNodeId == rows[|rows| - 1].parentNodeId
    ensures ParentLookup(rows) == Insert(ParentLookup(rows[..|rows| - 1]), node)
  {
  }

  /** The validator's lookup after one more row. */
  function Insert(pl: map<string, string>, node: Node): map<string, string> {
    if node.parentNodeId.Some? then pl[node.nodeId := node.parentNodeId.value] else pl
  }

  lemma AgreeStep(pl: map<string, string>, lookup: Lookup, node: Node)
    requires Agree(pl, lookup) && node.nodeId !in lookup
    ensures Agree(Insert(pl, node), lookup[node.nodeId := node])
  {
    var pl1 := Insert(pl, node);
    var lk1 := lookup[node.nodeId := node];
    forall k | k in pl1 ensures k in lk1 && lk1[k].parentNodeId == Some(pl1[k]) {
      if k != node.nodeId { assert k in pl; }
    }
    forall k | k in lk1 && lk1[k].parentNodeId.Some? ensures k in pl1 {
      if k != node.nodeId { assert k in lookup && lookup[k] == lk1[k]; }
    }
  }

  /** A validator chain that leaves the parent lookup within `m` steps is a
      lookup chain that ends within `m + 1`. */
  lemma {:induction false} LeavesWithin(pl: map<string, string>, lookup: Lookup, x: string, m: nat)
    requires Agree(pl, lookup)
    requires Iter(pl, x, m) !in pl
    ensures Stop(lookup, Up(lookup, Some(x), m + 1))
    decreases m
  {
    if x in pl {
      LeavesWithin(pl, lookup, pl[x], m - 1);
    } else if x in lookup {
      assert lookup[x].parentNodeId.None?;
      UpStopped(lookup, None, m);
    }
  }

  /** No duplicate and no circular-dependency error: every chain of the
      lookup built from the catalog ends, so the lookup is acyclic. */
  lemma ValidatedCatalogAcyclic(rows: seq<NodeRow>)
    requires DuplicateErrors(rows) == [] && CycleErrors(rows) == []
    ensures Acyclic(LookupOf(NodesOf(rows)))
  {
    var pl := ParentLookup(rows);
    var lookup := LookupOf(NodesOf(rows));
    RowsLinkNodes(rows);
    LookupsAgree(rows, NodesOf(rows));
    NoCycleErrorsBoundsChains(rows);
    SubsetCard(pl.Keys, lookup.Keys);
    forall x | x in lookup ensures Stop(lookup, Up(lookup, Some(x), |lookup| + 1)) {
      EntryEnds(pl, lookup, x);
    }
  }

  lemma EntryEnds(pl: map<string, string>, lookup: Lookup, x: string)
    requires Agree(pl, lookup) && |pl| <= |lookup|
    requires forall k :: k in pl ==> Iter(pl, k, |pl|) !in pl
    ensures Stop(lookup, Up(lookup, Some(x), |lookup| + 1))
  {
    if x in pl {
      LeavesWithin(pl, lookup, x, |pl|);
      StopPersists(lookup, Some(x), |pl| + 1, |lookup| + 1);
    } else {
      LeavesWithin(pl, lookup, x, 0);
      StopPersists(lookup, Some(x), 1, |lookup| + 1);
    }
  }

  /** Tables that pass the integrity checks give an acyclic lookup. */
  lemma ConsistentCatalogAcyclic(nodeMaster: Sheet<NodeRow>, context: Sheet<RuleRow>)
    requires Consistent(nodeMaster, context)
    ensures Acyclic(LookupOf(NodesOf(nodeMaster.rows)))
  {
    var rows := nodeMaster.rows;
    assert NodeMasterErrors(rows) == [];
    assert |NodeMasterErrors(rows)| == |DuplicateErrors(rows)| + |ParentErrors(rows, NodeIds(rows))| + |CycleErrors(rows)|;
    ValidatedCatalogAcyclic(rows);
  }
}
