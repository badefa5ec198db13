/** Which catalog nodes a context selects: the rules at or above the
    threshold, the Active nodes they name, and the Active ancestors the
    parent walk adds. */
module Selection {
  import opened Common
  import opened Config
  import opened Models
  import opened AncestorWalk

  /** The rules whose weight reaches the threshold, in their order. */
  function AboveThreshold(rules: seq<ApplicabilityRule>, threshold: int): (r: seq<ApplicabilityRule>)
    ensures forall x :: x in r <==> x in rules && x.applicabilityWeight >= threshold
    ensures |r| <= |rules|
  {
    if |rules| == 0 then []
    else
      (if rules[0].applicabilityWeight >= threshold then [rules[0]] else [])
        + AboveThreshold(rules[1..], threshold)
  }

  /** A rule's node identifier names a node of the lookup whose status is Active. */
  predicate NamesActive(lookup: Lookup, nodeId: Option<string>) {
    nodeId.Some? && nodeId.value in lookup && lookup[nodeId.value].status == ActiveStatus
  }

  /** The identifiers of Active catalog nodes that some rule names. */
  function EligibleIds(lookup: Lookup, rules: seq<ApplicabilityRule>): (r: set<string>)
    ensures forall x :: x in r ==> x in lookup && lookup[x].status == ActiveStatus
  {
    set i | 0 <= i < |rules| && NamesActive(lookup, rules[i].nodeId) :: rules[i].nodeId.value
  }

  /** One more rule adds its node when it names an Active catalog node. */
  lemma EligibleSnoc(lookup: Lookup, rules: seq<ApplicabilityRule>, i: nat)
    requires i < |rules|
    ensures EligibleIds(lookup, rules[..i + 1]) ==
      EligibleIds(lookup, rules[..i]) + (if NamesActive(lookup, rules[i].nodeId) then {rules[i].nodeId.value} else {})
  {
    var a := rules[..i];
    var b := rules[..i + 1];
    forall x ensures x in EligibleIds(lookup, b) <==>
      x in EligibleIds(lookup, a) || (NamesActive(lookup, rules[i].nodeId) && x == rules[i].nodeId.value)
    {
      if x in EligibleIds(lookup, b) {
        var k :| 0 <= k < |b| && NamesActive(lookup, b[k].nodeId) && b[k].nodeId.value == x;
        if k < i { assert a[k] == b[k]; }
      }
      if x in EligibleIds(lookup, a) {
        var k :| 0 <= k < |a| && NamesActive(lookup, a[k].nodeId) && a[k].nodeId.value == x;
        assert b[k] == a[k];
      }
      if NamesActive(lookup, rules[i].nodeId) && x == rules[i].nodeId.value {
        assert b[i] == rules[i];
      }
    }
  }

  /** A node is eligible exactly when a rule at or above the threshold names
      it and it is an Active catalog node; rules naming missing or inactive
      nodes contribute nothing. */
  lemma EligibleExact(lookup: Lookup, rules: seq<ApplicabilityRule>, threshold: int, x: string)
    ensures x in EligibleIds(lookup, AboveThreshold(rules, threshold)) <==>
      x in lookup && lookup[x].status == ActiveStatus
      && exists r :: r in rules && r.applicabilityWeight >= threshold && r.nodeId == Some(x)
  {
    var above := AboveThreshold(rules, threshold);
    if x in lookup && lookup[x].status == ActiveStatus
      && exists r :: r in rules && r.applicabilityWeight >= threshold && r.nodeId == Some(x) {
      var r :| r in rules && r.applicabilityWeight >= threshold && r.nodeId == Some(x);
      assert r in above;
      var i :| 0 <= i < |above| && above[i] == r;
      assert NamesActive(lookup, above[i].nodeId);
    }
    if x in EligibleIds(lookup, above) {
      var i :| 0 <= i < |above| && NamesActive(lookup, above[i].nodeId) && above[i].nodeId.value == x;
      assert above[i] in above;
    }
  }

  /** The ids the parent walks from `eligible` add; the fuel |lookup| + 1 is
      enough for every walk in an acyclic lookup. */
  ghost function Reached(lookup: Lookup, eligible: set<string>): set<string> {
    set x | x in lookup && exists e :: e in eligible && x in Chain(lookup, Some(e), |lookup| + 1)
  }

  /** The set `all_node_ids`: the eligible ids and every id their walks add. */
  ghost function Included(lookup: Lookup, eligible: set<string>): set<string> {
    eligible + Reached(lookup, eligible)
  }

  /** Adding one more eligible id adds exactly that id and its walk. */
  lemma IncludedStep(lookup: Lookup, done: set<string>, e: string)
    ensures Included(lookup, done + {e}) == Included(lookup, done) + {e} + Chain(lookup, Some(e), |lookup| + 1)
  {
    var n := |lookup| + 1;
    var c := Chain(lookup, Some(e), n);
    ChainIsActiveVisited(lookup, Some(e), n);
    forall x ensures x in Reached(lookup, done + {e}) <==> x in Reached(lookup, done) || x in c {
      if x in Reached(lookup, done + {e}) {
        var d :| d in done + {e} && x in Chain(lookup, Some(d), n);
        if d != e { assert x in Reached(lookup, done); }
      }
    }
  }

  /** Every included id is an Active catalog node when every eligible one is. */
  lemma IncludedActive(lookup: Lookup, eligible: set<string>)
    requires forall e :: e in eligible ==> e in lookup && lookup[e].status == ActiveStatus
    ensures forall x :: x in Included(lookup, eligible) ==> x in lookup && lookup[x].status == ActiveStatus
  {
    forall x | x in Reached(lookup, eligible) ensures lookup[x].status == ActiveStatus {
      var e :| e in eligible && x in Chain(lookup, Some(e), |lookup| + 1);
      ChainIsActiveVisited(lookup, Some(e), |lookup| + 1);
    }
  }

  /** The included ids are exactly the eligible ones and the Active nodes
      some eligible node's walk passes before it ends. */
  lemma IncludedExact(lookup: Lookup, eligible: set<string>, x: string)
    ensures x in Included(lookup, eligible) <==>
      x in eligible
      || (x in lookup && lookup[x].status == ActiveStatus
          && exists e, k :: e in eligible && 0 <= k <= |lookup|
               && WalkAt(lookup, Some(e), k) == Some(x) && !Halt(lookup, Some(x)))
  {
    var n := |lookup| + 1;
    if x in Reached(lookup, eligible) {
      var e :| e in eligible && x in Chain(lookup, Some(e), n);
      ChainIsActiveVisited(lookup, Some(e), n);
      var k := VisitedAt(lookup, Some(e), n, x);
    }
    if x in lookup && lookup[x].status == ActiveStatus
      && exists e, k :: e in eligible && 0 <= k <= |lookup|
           && WalkAt(lookup, Some(e), k) == Some(x) && !Halt(lookup, Some(x)) {
      var e, k :| e in eligible && 0 <= k <= |lookup|
        && WalkAt(lookup, Some(e), k) == Some(x) && !Halt(lookup, Some(x));
      AtIsVisited(lookup, Some(e), n, k, x);
      ChainIsActiveVisited(lookup, Some(e), n);
    }
  }

  /** Ancestor closure: the Active parent of an included node is included,
      whatever the status of the nodes in between, unless the parent is
      null, empty or missing from the lookup. */
  lemma AncestorClosure(lookup: Lookup, eligible: set<string>, x: string)
    requires Acyclic(lookup)
    requires forall e :: e in eligible ==> e in lookup
    requires x in Included(lookup, eligible) && x != ""
    requires !Halt(lookup, lookup[x].parentNodeId)
      && lookup[lookup[x].parentNodeId.value].status == ActiveStatus
    ensures lookup[x].parentNodeId.value in Included(lookup, eligible)
  {
    var n := |lookup| + 1;
    var p := lookup[x].parentNodeId.value;
    var e: string;
    if x in eligible {
      e := x;
      assert x in Visited(lookup, Some(x), n);
    } else {
      e :| e in eligible && x in Chain(lookup, Some(e), n);
      ChainIsActiveVisited(lookup, Some(e), n);
    }
    AcyclicHalts(lookup, e);
    VisitedContinues(lookup, Some(e), n, x);
    ChainIsActiveVisited(lookup, Some(e), n);
    assert p in Chain(lookup, Some(e), n);
  }

  /** An inactive node does not end the walk: the walk passes it without
      adding it and goes on to its parent. */
  lemma InactiveSkipped(lookup: Lookup, e: string, x: string)
    requires Acyclic(lookup) && e in lookup
    requires x in Visited(lookup, Some(e), |lookup| + 1) && x in lookup && lookup[x].status != ActiveStatus
    requires !Halt(lookup, lookup[x].parentNodeId)
    ensures x !in Chain(lookup, Some(e), |lookup| + 1)
    ensures lookup[x].parentNodeId.value in Visited(lookup, Some(e), |lookup| + 1)
  {
    ChainIsActiveVisited(lookup, Some(e), |lookup| + 1);
    AcyclicHalts(lookup, e);
    VisitedContinues(lookup, Some(e), |lookup| + 1, x);
  }

  lemma IncludedMonotone(lookup: Lookup, a: set<string>, b: set<string>)
    requires a <= b
    ensures Included(lookup, a) <= Included(lookup, b)
  {
  }

  /** Raising the threshold can only shrink the included set. */
  lemma ThresholdMonotone(lookup: Lookup, rules: seq<ApplicabilityRule>, t1: int, t2: int)
    requires t1 <= t2
    ensures EligibleIds(lookup, AboveThreshold(rules, t2)) <= EligibleIds(lookup, AboveThreshold(rules, t1))
    ensures Included(lookup, EligibleIds(lookup, AboveThreshold(rules, t2)))
         <= Included(lookup, EligibleIds(lookup, AboveThreshold(rules, t1)))
  {
    forall x | x in EligibleIds(lookup, AboveThreshold(rules, t2))
      ensures x in EligibleIds(lookup, AboveThreshold(rules, t1))
    {
      EligibleExact(lookup, rules, t2, x);
      EligibleExact(lookup, rules, t1, x);
    }
    IncludedMonotone(lookup, EligibleIds(lookup, AboveThreshold(rules, t2)),
      EligibleIds(lookup, AboveThreshold(rules, t1)));
  }
}
