/** Parent chains in the node lookup. Two notions of "following parents"
    appear in the engine: the structural one, which ends only where a parent
    is null or not in the lookup, and the assembler's walk, which is a
    `while current_id` loop and so also ends on an empty identifier. */
module AncestorWalk {
  import opened Common
  import opened Config
  import opened Models

  /** The assembler's lookup from Node_ID to node. */
  type Lookup = map<string, Node>

  /** `_build_node_lookup`: every node under its identifier. */
  function LookupOf(nodes: seq<Node>): (r: Lookup)
    ensures forall k :: k in r <==> exists i :: 0 <= i < |nodes| && nodes[i].nodeId == k
    ensures forall k :: k in r ==> r[k].nodeId == k
  {
    if |nodes| == 0 then map[]
    else
      var front := nodes[..|nodes| - 1];
      var last := nodes[|nodes| - 1];
      assert forall i :: 0 <= i < |front| ==> front[i] == nodes[i];
      LookupOf(front)[last.nodeId := last]
  }

  /** A later node replaces an earlier one with the same identifier: each
      entry is the last node carrying its identifier. */
  lemma {:induction false} LookupLastWins(nodes: seq<Node>, k: string)
    requires k in LookupOf(nodes)
    ensures exists i :: (0 <= i < |nodes| && LookupOf(nodes)[k] == nodes[i]
      && forall j :: i < j < |nodes| ==> nodes[j].nodeId != k)
    decreases |nodes|
  {
    var n := |nodes| - 1;
    var front := nodes[..n];
    if nodes[n].nodeId == k {
      assert LookupOf(nodes)[k] == nodes[n];
    } else {
      assert LookupOf(nodes)[k] == LookupOf(front)[k];
      LookupLastWins(front, k);
      var i :| 0 <= i < |front| && LookupOf(front)[k] == front[i]
        && forall j :: i < j < |front| ==> front[j].nodeId != k;
      assert nodes[i] == front[i];
      assert forall j :: i < j < |nodes| ==> nodes[j].nodeId != k by {
        forall j | i < j < |nodes| ensures nodes[j].nodeId != k {
          if j < n { assert nodes[j] == front[j]; }
        }
      }
    }
  }

  // ------------------------------------------------------- structural chain

  /** The structural chain ends at a null parent or an identifier the
      lookup lacks. */
  predicate Stop(lookup: Lookup, cur: Option<string>) {
    cur.None? || cur.value !in lookup
  }

  /** `k` parent steps from `cur`, staying put once the chain has ended. */
  function Up(lookup: Lookup, cur: Option<string>, k: nat): Option<string>
    decreases k
  {
    if k == 0 || Stop(lookup, cur) then cur else Up(lookup, lookup[cur.value].parentNodeId, k - 1)
  }

  /** Every parent chain leaves the lookup within |lookup| + 1 steps, so no
      chain returns to a node it has passed. */
  ghost predicate Acyclic(lookup: Lookup) {
    forall x :: x in lookup ==> Stop(lookup, Up(lookup, Some(x), |lookup| + 1))
  }

  lemma {:induction false} UpAdd(lookup: Lookup, cur: Option<string>, a: nat, b: nat)
    ensures Up(lookup, cur, a + b) == Up(lookup, Up(lookup, cur, a), b)
    decreases a
  {
    if a > 0 && !Stop(lookup, cur) {
      UpAdd(lookup, lookup[cur.value].parentNodeId, a - 1, b);
    } else if a > 0 {
      UpStopped(lookup, cur, a + b);
      UpStopped(lookup, cur, b);
    }
  }

  lemma {:induction false} UpStopped(lookup: Lookup, cur: Option<string>, k: nat)
    requires Stop(lookup, cur)
    ensures Up(lookup, cur, k) == cur
  {
  }

  /** Once the chain has ended it stays ended. */
  lemma StopPersists(lookup: Lookup, cur: Option<string>, a: nat, b: nat)
    requires a <= b && Stop(lookup, Up(lookup, cur, a))
    ensures Up(lookup, cur, b) == Up(lookup, cur, a)
  {
    UpAdd(lookup, cur, a, b - a);
    UpStopped(lookup, Up(lookup, cur, a), b - a);
  }

  /** In an acyclic lookup no chain comes back to where it started. */
  lemma NoReturn(lookup: Lookup, x: string, j: nat)
    requires Acyclic(lookup) && x in lookup && j >= 1
    ensures Up(lookup, Some(x), j) != Some(x)
  {
    if Up(lookup, Some(x), j) == Some(x) {
      var m := |lookup| + 1;
      RepeatReturns(lookup, x, j, m);
      StopPersists(lookup, Some(x), m, m * j);
      assert false;
    }
  }

  lemma {:induction false} RepeatReturns(lookup: Lookup, x: string, j: nat, m: nat)
    requires Up(lookup, Some(x), j) == Some(x)
    ensures Up(lookup, Some(x), m * j) == Some(x)
    decreases m
  {
    if m > 0 {
      RepeatReturns(lookup, x, j, m - 1);
      assert m * j == (m - 1) * j + j;
      UpAdd(lookup, Some(x), (m - 1) * j, j);
    }
  }

  /** A node's depth: how many nodes its chain passes through before ending. */
  function Dist(lookup: Lookup, cur: Option<string>, n: nat): nat
    decreases n
  {
    if n == 0 || Stop(lookup, cur) then 0 else 1 + Dist(lookup, lookup[cur.value].parentNodeId, n - 1)
  }

  function Depth(lookup: Lookup, x: string): nat {
    Dist(lookup, Some(x), |lookup| + 2)
  }

  lemma {:induction false} DistBounded(lookup: Lookup, cur: Option<string>, n: nat, m: nat)
    requires Stop(lookup, Up(lookup, cur, m)) && m <= n
    ensures Dist(lookup, cur, n) <= m
    ensures Dist(lookup, cur, n) == Dist(lookup, cur, m)
    decreases n
  {
    if n > 0 && !Stop(lookup, cur) {
      assert m > 0;
      DistBounded(lookup, lookup[cur.value].parentNodeId, n - 1, m - 1);
    }
  }

  /** A child lies exactly one level below its parent. */
  lemma DepthOfChild(lookup: Lookup, c: string, p: string)
    requires Acyclic(lookup) && c in lookup && p in lookup
    requires lookup[c].parentNodeId == Some(p)
    ensures Depth(lookup, c) == Depth(lookup, p) + 1
    ensures Depth(lookup, p) <= |lookup| + 1
  {
    var n := |lookup| + 1;
    DistBounded(lookup, Some(p), n, n);
    DistBounded(lookup, Some(p), n + 1, n);
  }

  // ---------------------------------------------------------- the walk

  /** Where the assembler's `while current_id` walk ends: a null parent, an
      empty identifier, or an identifier the lookup lacks. */
  predicate Halt(lookup: Lookup, cur: Option<string>) {
    cur.None? || cur.value == "" || cur.value !in lookup
  }

  function Next(lookup: Lookup, cur: Option<string>): Option<string>
    requires !Halt(lookup, cur)
  {
    lookup[cur.value].parentNodeId
  }

  /** The walk ends within `n` steps. */
  predicate Halts(lookup: Lookup, cur: Option<string>, n: nat)
    decreases n
  {
    Halt(lookup, cur) || (n > 0 && Halts(lookup, Next(lookup, cur), n - 1))
  }

  /** The position of the walk after `k` steps. */
  function WalkAt(lookup: Lookup, cur: Option<string>, k: nat): Option<string>
    decreases k
  {
    if k == 0 || Halt(lookup, cur) then cur else WalkAt(lookup, Next(lookup, cur), k - 1)
  }

  /** The identifiers the walk passes through in `n` steps, whatever their status. */
  function Visited(lookup: Lookup, cur: Option<string>, n: nat): set<string>
    decreases n
  {
    if n == 0 || Halt(lookup, cur) then {} else {cur.value} + Visited(lookup, Next(lookup, cur), n - 1)
  }

  /** The identifiers the walk adds in `n` steps: the Active ones it passes. */
  function Chain(lookup: Lookup, cur: Option<string>, n: nat): set<string>
    decreases n
  {
    if n == 0 || Halt(lookup, cur) then {}
    else
      (if lookup[cur.value].status == ActiveStatus then {cur.value} else {})
        + Chain(lookup, Next(lookup, cur), n - 1)
  }

  /** A structural chain that ends within `n` steps is a walk that ends
      within `n` steps: the walk can only end sooner. */
  lemma {:induction false} StopGivesHalts(lookup: Lookup, cur: Option<string>, n: nat)
    requires Stop(lookup, Up(lookup, cur, n))
    ensures Halts(lookup, cur, n)
    decreases n
  {
    if !Halt(lookup, cur) {
      StopGivesHalts(lookup, Next(lookup, cur), n - 1);
    }
  }

  lemma AcyclicHalts(lookup: Lookup, x: string)
    requires Acyclic(lookup) && x in lookup
    ensures Halts(lookup, Some(x), |lookup| + 1)
  {
    StopGivesHalts(lookup, Some(x), |lookup| + 1);
  }

  /** Once the walk has ended, more steps add nothing. */
  lemma {:induction false} FuelIndependent(lookup: Lookup, cur: Option<string>, n: nat, m: nat)
    requires Halts(lookup, cur, n) && n <= m
    ensures Visited(lookup, cur, m) == Visited(lookup, cur, n)
    ensures Chain(lookup, cur, m) == Chain(lookup, cur, n)
    ensures Halts(lookup, cur, m)
    decreases n
  {
    if !Halt(lookup, cur) {
      FuelIndependent(lookup, Next(lookup, cur), n - 1, m - 1);
    }
  }

  /** The walk adds exactly the Active nodes it passes. */
  lemma {:induction false} ChainIsActiveVisited(lookup: Lookup, cur: Option<string>, n: nat)
    ensures forall x :: x in Chain(lookup, cur, n) <==>
      x in Visited(lookup, cur, n) && x in lookup && lookup[x].status == ActiveStatus
    decreases n
  {
    if n > 0 && !Halt(lookup, cur) {
      ChainIsActiveVisited(lookup, Next(lookup, cur), n - 1);
    }
  }

  /** Passing through a node means being at it after some number of steps
      before the walk ends. */
  lemma VisitedIsWalk(lookup: Lookup, cur: Option<string>, n: nat, x: string)
    ensures x in Visited(lookup, cur, n) <==>
      exists k :: 0 <= k < n && WalkAt(lookup, cur, k) == Some(x) && !Halt(lookup, Some(x))
  {
    if x in Visited(lookup, cur, n) {
      var k := VisitedAt(lookup, cur, n, x);
    }
    if exists k :: 0 <= k < n && WalkAt(lookup, cur, k) == Some(x) && !Halt(lookup, Some(x)) {
      var k :| 0 <= k < n && WalkAt(lookup, cur, k) == Some(x) && !Halt(lookup, Some(x));
      AtIsVisited(lookup, cur, n, k, x);
    }
  }

  lemma {:induction false} VisitedAt(lookup: Lookup, cur: Option<string>, n: nat, x: string) returns (k: nat)
    requires x in Visited(lookup, cur, n)
    ensures k < n && WalkAt(lookup, cur, k) == Some(x) && !Halt(lookup, Some(x))
    decreases n
  {
    if cur == Some(x) {
      k := 0;
    } else {
      var j := VisitedAt(lookup, Next(lookup, cur), n - 1, x);
      k := j + 1;
    }
  }

  lemma {:induction false} AtIsVisited(lookup: Lookup, cur: Option<string>, n: nat, k: nat, x: string)
    requires k < n && WalkAt(lookup, cur, k) == Some(x) && !Halt(lookup, Some(x))
    ensures x in Visited(lookup, cur, n)
    decreases k
  {
    if Halt(lookup, cur) {
      WalkAtHalted(lookup, cur, k);
    } else if k > 0 {
      AtIsVisited(lookup, Next(lookup, cur), n - 1, k - 1, x);
    }
  }

  lemma {:induction false} WalkAtHalted(lookup: Lookup, cur: Option<string>, k: nat)
    requires Halt(lookup, cur)
    ensures WalkAt(lookup, cur, k) == cur
  {
  }

  /** The walk does not stop at an inactive node: from any node it passes,
      it goes on to that node's parent unless the parent is null, empty or
      missing. */
  lemma {:induction false} VisitedContinues(lookup: Lookup, cur: Option<string>, n: nat, x: string)
    requires Halts(lookup, cur, n) && x in Visited(lookup, cur, n) && x in lookup
    requires !Halt(lookup, lookup[x].parentNodeId)
    ensures lookup[x].parentNodeId.value in Visited(lookup, cur, n)
    decreases n
  {
    var next := Next(lookup, cur);
    if cur.value == x {
      assert n - 1 > 0;
    } else {
      VisitedContinues(lookup, next, n - 1, x);
    }
  }
}
