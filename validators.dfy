/** The structural validator: staged checks over the two sheets that
    accumulate errors within a stage and stop after a stage that failed. */
module Validators {
  import opened Common
  import opened Config
  import opened Tables

  const NodeMasterRequiredColumns: seq<string> :=
    ["Node_ID", "Node_Name", "Node_Level", "Parent_Node_ID", "Description", "Is_Leaf", "Status"]

  const ContextApplicabilityRequiredColumns: seq<string> :=
    ["Applicability_ID", "Node_ID", "Value_Intent", "Industry", "Function", "Applicability_Weight"]

  /** One validation message; the constructor says which check produced it
      and carries the identifiers or row numbers the message names. */
  datatype ValidationError =
    | MissingSheet(sheet: string)
    | MissingColumns(sheet: string, columns: seq<string>)
    | DuplicateNodeIds(ids: seq<string>)
    | LeverHasParent(nodeId: string)
    | MissingParent(nodeId: string)
    | UnknownParent(nodeId: string, parentId: string)
    | CircularDependency(nodeId: string)
    | UnknownRuleNode(row: int, nodeId: string)
    | WeightOutOfRange(row: int, weight: int)
    | InvalidWeight(row: int, raw: string)
    | FileNotFound(path: string)
    | LoadFailed(message: string)

  // ---------------------------------------------------------------- sheets

  /** `validate_sheets_exist`: one error per missing required sheet,
      Node_Master's first. */
  function ValidateSheetsExist(names: set<string>): (r: seq<ValidationError>)
    ensures |r| <= 2 && forall e :: e in r ==> e.MissingSheet?
    ensures forall e :: e in r ==> e == MissingSheet(NodeMasterSheet) || e == MissingSheet(ContextApplicabilitySheet)
    ensures NoDup(r)
    ensures MissingSheet(NodeMasterSheet) in r <==> NodeMasterSheet !in names
    ensures MissingSheet(ContextApplicabilitySheet) in r <==> ContextApplicabilitySheet !in names
    ensures r == [] <==> NodeMasterSheet in names && ContextApplicabilitySheet in names
    ensures NodeMasterSheet !in names ==> r[0] == MissingSheet(NodeMasterSheet)
  {
    (if NodeMasterSheet !in names then [MissingSheet(NodeMasterSheet)] else [])
      + (if ContextApplicabilitySheet !in names then [MissingSheet(ContextApplicabilitySheet)] else [])
  }

  // --------------------------------------------------------------- columns

  function Absent(required: seq<string>, columns: set<string>): (r: seq<string>)
    ensures forall c :: c in r <==> c in required && c !in columns
  {
    if |required| == 0 then []
    else (if required[0] in columns then [] else [required[0]]) + Absent(required[1..], columns)
  }

  /** `validate_required_columns`: at most one error, listing the required
      columns the sheet lacks, each once and in ascending order. */
  function ValidateRequiredColumns(columns: set<string>, required: seq<string>, sheet: string)
    : (r: seq<ValidationError>)
    ensures |r| <= 1
    ensures r == [] <==> forall c :: c in required ==> c in columns
    ensures r != [] ==> r[0].MissingColumns? && r[0].sheet == sheet
    ensures r != [] ==> StrictlySortedBy(r[0].columns, Identity)
    ensures r != [] ==> forall c :: c in r[0].columns <==> c in required && c !in columns
  {
    var missing := Absent(required, columns);
    if |missing| == 0 then []
    else
      assert missing[0] in missing;
      [MissingColumns(sheet, SortedDistinct(missing))]
  }

  // ------------------------------------------------------------ duplicates

  /** True when row `i` shares its Node_ID with some other row. */
  predicate Repeated(rows: seq<NodeRow>, i: int)
    requires 0 <= i < |rows|
  {
    exists j :: 0 <= j < |rows| && j != i && rows[j].nodeId == rows[i].nodeId
  }

  function RepeatedFrom(rows: seq<NodeRow>, i: nat): (r: seq<string>)
    requires i <= |rows|
    ensures forall x :: x in r <==> exists k :: i <= k < |rows| && rows[k].nodeId == x && Repeated(rows, k)
    decreases |rows| - i
  {
    if i == |rows| then []
    else (if Repeated(rows, i) then [rows[i].nodeId] else []) + RepeatedFrom(rows, i + 1)
  }

  lemma RepeatedIsListed(rows: seq<NodeRow>, i: int, j: int)
    ensures 0 <= i < |rows| && 0 <= j < |rows| && i != j && rows[i].nodeId == rows[j].nodeId
      ==> rows[i].nodeId in RepeatedFrom(rows, 0)
  {
    if 0 <= i < |rows| && 0 <= j < |rows| && i != j && rows[i].nodeId == rows[j].nodeId {
      assert Repeated(rows, i);
    }
  }

  /** The identifiers held by more than one row, each once, in order of
      first appearance. */
  function DuplicateIds(rows: seq<NodeRow>): (r: seq<string>)
    ensures NoDup(r)
  {
    Dedup(RepeatedFrom(rows, 0))
  }

  /** An identifier is listed exactly when two different rows hold it, so
      the list is empty exactly when the identifiers are pairwise distinct. */
  lemma DuplicateIdsExact(rows: seq<NodeRow>)
    ensures forall x :: x in DuplicateIds(rows) <==>
      exists i, j :: 0 <= i < |rows| && 0 <= j < |rows| && i != j && rows[i].nodeId == x && rows[j].nodeId == x
    ensures DuplicateIds(rows) == [] <==> forall i, j :: 0 <= i < j < |rows| ==> rows[i].nodeId != rows[j].nodeId
  {
    var r := DuplicateIds(rows);
    if r == [] {
      forall i, j | 0 <= i < j < |rows| ensures rows[i].nodeId != rows[j].nodeId {
        RepeatedIsListed(rows, i, j);
      }
    } else {
      assert r[0] in r;
      var k :| 0 <= k < |rows| && rows[k].nodeId == r[0] && Repeated(rows, k);
      var j :| 0 <= j < |rows| && j != k && rows[j].nodeId == rows[k].nodeId;
      assert if k < j then rows[k].nodeId == rows[j].nodeId else rows[j].nodeId == rows[k].nodeId;
    }
  }

  function DuplicateErrors(rows: seq<NodeRow>): (r: seq<ValidationError>)
    ensures |r| <= 1
    ensures r == [] <==> forall i, j :: 0 <= i < j < |rows| ==> rows[i].nodeId != rows[j].nodeId
    ensures r != [] ==> r == [DuplicateNodeIds(DuplicateIds(rows))]
  {
    DuplicateIdsExact(rows);
    var dups := DuplicateIds(rows);
    if dups == [] then [] else [DuplicateNodeIds(dups)]
  }

  // ----------------------------------------------------- parent references

  /** The parent rule of a row's level: a Lever has no parent; any other
      level has a parent among the catalog's identifiers. */
  predicate ParentRuleHolds(row: NodeRow, ids: set<string>) {
    if row.nodeLevel == Lever then row.parentNodeId.None?
    else row.parentNodeId.Some? && row.parentNodeId.value in ids
  }

  /** A parent-reference error about the node `id`. */
  predicate NamesNode(e: ValidationError, id: string) {
    (e.LeverHasParent? || e.MissingParent? || e.UnknownParent?) && e.nodeId == id
  }

  function ParentError(row: NodeRow, ids: set<string>): (r: seq<ValidationError>)
    ensures |r| <= 1
    ensures r == [] <==> ParentRuleHolds(row, ids)
    ensures r != [] ==> NamesNode(r[0], row.nodeId)
  {
    if row.nodeLevel == Lever then
      if row.parentNodeId.Some? then [LeverHasParent(row.nodeId)] else []
    else if row.parentNodeId.None? then [MissingParent(row.nodeId)]
    else if row.parentNodeId.value !in ids then [UnknownParent(row.nodeId, row.parentNodeId.value)]
    else []
  }

  function ParentErrors(rows: seq<NodeRow>, ids: set<string>): seq<ValidationError>
  {
    if |rows| == 0 then [] else ParentErrors(rows[..|rows| - 1], ids) + ParentError(rows[|rows| - 1], ids)
  }

  /** Every parent-reference error names a row that breaks its level's rule,
      and there is at most one error per row. */
  lemma {:induction false} ParentErrorsSound(rows: seq<NodeRow>, ids: set<string>)
    ensures |ParentErrors(rows, ids)| <= |rows|
    ensures forall e :: e in ParentErrors(rows, ids) ==>
      exists i :: 0 <= i < |rows| && NamesNode(e, rows[i].nodeId) && !ParentRuleHolds(rows[i], ids)
    decreases |rows|
  {
    if |rows| > 0 {
      var front := rows[..|rows| - 1];
      var earlier := ParentErrors(front, ids);
      var mine := ParentError(rows[|rows| - 1], ids);
      ParentErrorsSound(front, ids);
      assert ParentErrors(rows, ids) == earlier + mine;
      forall e | e in earlier + mine
        ensures exists i :: 0 <= i < |rows| && NamesNode(e, rows[i].nodeId) && !ParentRuleHolds(rows[i], ids)
      {
        if e in earlier {
          var i :| 0 <= i < |front| && NamesNode(e, front[i].nodeId) && !ParentRuleHolds(front[i], ids);
          assert rows[i] == front[i];
        } else {
          assert NamesNode(e, rows[|rows| - 1].nodeId);
        }
      }
    }
  }

  /** Every row that breaks its level's rule is named by some error. */
  lemma {:induction false} ParentErrorsComplete(rows: seq<NodeRow>, ids: set<string>)
    ensures forall i :: 0 <= i < |rows| && !ParentRuleHolds(rows[i], ids) ==>
      exists e :: e in ParentErrors(rows, ids) && NamesNode(e, rows[i].nodeId)
    decreases |rows|
  {
    if |rows| > 0 {
      var front := rows[..|rows| - 1];
      var earlier := ParentErrors(front, ids);
      var mine := ParentError(rows[|rows| - 1], ids);
      ParentErrorsComplete(front, ids);
      assert ParentErrors(rows, ids) == earlier + mine;
      forall i | 0 <= i < |rows| && !ParentRuleHolds(rows[i], ids)
        ensures exists e :: e in earlier + mine && NamesNode(e, rows[i].nodeId)
      {
        if i == |rows| - 1 {
          assert mine[0] in earlier + mine;
        } else {
          assert front[i] == rows[i];
          var e :| e in earlier && NamesNode(e, front[i].nodeId);
          assert e in earlier + mine;
        }
      }
    }
  }

  lemma ParentErrorsEmpty(rows: seq<NodeRow>, ids: set<string>)
    ensures ParentErrors(rows, ids) == [] <==> forall i :: 0 <= i < |rows| ==> ParentRuleHolds(rows[i], ids)
  {
    ParentErrorsSound(rows, ids);
    ParentErrorsComplete(rows, ids);
    if ParentErrors(rows, ids) != [] {
      assert ParentErrors(rows, ids)[0] in ParentErrors(rows, ids);
    }
  }

  // ------------------------------------------------------------- cycles

  /** The Node_ID -> Parent_Node_ID mapping of the rows with a parent; a later
      row overwrites an earlier one with the same identifier. */
  function ParentLookup(rows: seq<NodeRow>): map<string, string>
  {
    if |rows| == 0 then map[]
    else
      var pl := ParentLookup(rows[..|rows| - 1]);
      var last := rows[|rows| - 1];
      if last.parentNodeId.Some? then pl[last.nodeId := last.parentNodeId.value] else pl
  }

  /** The keys of `ParentLookup(rows)` in the order they were first inserted. */
  function KeyOrder(rows: seq<NodeRow>): (keys: seq<string>)
    ensures NoDup(keys)
    ensures forall k :: k in keys <==> k in ParentLookup(rows)
  {
    if |rows| == 0 then []
    else
      var front := KeyOrder(rows[..|rows| - 1]);
      var last := rows[|rows| - 1];
      if last.parentNodeId.Some? && last.nodeId !in ParentLookup(rows[..|rows| - 1])
      then front + [last.nodeId] else front
  }

  /** Where `n` parent steps from `x` lead: a node that is not a key of
      `pl` is where the walk stays. */
  function Iter(pl: map<string, string>, x: string, n: nat): string
    decreases n
  {
    if n == 0 || x !in pl then x else Iter(pl, pl[x], n - 1)
  }

  /** The walk from `k` is still inside `pl` after |pl| steps. */
  predicate Cyclic(pl: map<string, string>, k: string) {
    Iter(pl, k, |pl|) in pl
  }

  lemma {:induction false} IterAdd(pl: map<string, string>, x: string, a: nat, b: nat)
    ensures Iter(pl, x, a + b) == Iter(pl, Iter(pl, x, a), b)
    decreases a
  {
    if a > 0 && x in pl { IterAdd(pl, pl[x], a - 1, b); }
    else if a > 0 { IterStays(pl, x, b); }
  }

  lemma {:induction false} IterStays(pl: map<string, string>, x: string, n: nat)
    requires x !in pl
    ensures Iter(pl, x, n) == x
  {
  }

  /** Once the walk has left `pl` it stays where it stopped. */
  lemma IterStuck(pl: map<string, string>, x: string, a: nat, b: nat)
    requires a <= b && Iter(pl, x, a) !in pl
    ensures Iter(pl, x, b) == Iter(pl, x, a)
  {
    IterAdd(pl, x, a, b - a);
    IterStays(pl, Iter(pl, x, a), b - a);
  }

  /** A walk that comes back to a place it has been never leaves `pl`. */
  lemma RevisitCyclic(pl: map<string, string>, x: string, j: nat, s: nat)
    requires j < s && Iter(pl, x, j) == Iter(pl, x, s)
    requires forall i :: 0 <= i < s ==> Iter(pl, x, i) in pl
    requires Iter(pl, x, s) in pl
    ensures forall n: nat :: Iter(pl, x, n) in pl
    ensures Cyclic(pl, x)
  {
    forall n: nat ensures Iter(pl, x, n) in pl {
      RevisitStaysInside(pl, x, j, s, n);
    }
  }

  lemma {:induction false} RevisitStaysInside(pl: map<string, string>, x: string, j: nat, s: nat, n: nat)
    requires j < s && Iter(pl, x, j) == Iter(pl, x, s)
    requires forall i :: 0 <= i <= s ==> Iter(pl, x, i) in pl
    ensures Iter(pl, x, n) in pl
    decreases n
  {
    if n > s {
      IterAdd(pl, x, s, n - s);
      IterAdd(pl, x, j, n - s);
      RevisitStaysInside(pl, x, j, s, j + n - s);
    }
  }

  /** The inner loop of `check_circular_dependencies` for one start node:
      it reports exactly when the parent chain never leaves `pl`. */
  method DetectCycle(pl: map<string, string>, start: string) returns (found: bool)
    ensures found <==> Cyclic(pl, start)
    ensures found <==> forall n: nat :: Iter(pl, start, n) in pl
  {
    var visited: set<string> := {};
    var current := start;
    ghost var steps: nat := 0;
    found := false;
    while current in pl
      invariant current == Iter(pl, start, steps)
      invariant visited <= pl.Keys && |visited| == steps
      invariant forall i :: 0 <= i < steps ==> Iter(pl, start, i) in visited
      invariant forall v :: v in visited ==> exists i :: 0 <= i < steps && Iter(pl, start, i) == v
      invariant !found
      decreases |pl.Keys - visited|
    {
      if current in visited {
        ghost var j :| 0 <= j < steps && Iter(pl, start, j) == current;
        RevisitCyclic(pl, start, j, steps);
        found := true;
        break;
      }
      IterAdd(pl, start, steps, 1);
      assert pl.Keys - (visited + {current}) < pl.Keys - visited;
      visited := visited + {current};
      current := pl[current];
      steps := steps + 1;
    }
    if !found {
      SubsetCard(visited, pl.Keys);
      IterStuck(pl, start, steps, |pl|);
    }
  }

  lemma SubsetCard(a: set<string>, b: set<string>)
    requires a <= b
    ensures |a| <= |b|
  {
    assert b == a + (b - a);
  }

  function CycleErrorsOver(pl: map<string, string>, keys: seq<string>): seq<ValidationError>
  {
    if |keys| == 0 then []
    else
      var k := keys[|keys| - 1];
      CycleErrorsOver(pl, keys[..|keys| - 1]) + (if Cyclic(pl, k) then [CircularDependency(k)] else [])
  }

  function CycleErrors(rows: seq<NodeRow>): seq<ValidationError> {
    CycleErrorsOver(ParentLookup(rows), KeyOrder(rows))
  }

  lemma {:induction false} CycleErrorsOverExact(pl: map<string, string>, keys: seq<string>)
    ensures forall e :: e in CycleErrorsOver(pl, keys) <==>
      e.CircularDependency? && e.nodeId in keys && Cyclic(pl, e.nodeId)
    decreases |keys|
  {
    if |keys| > 0 {
      var front := keys[..|keys| - 1];
      CycleErrorsOverExact(pl, front);
      assert keys == front + [keys[|keys| - 1]];
    }
  }

  /** A node is reported as circular exactly when it has a parent and its
      chain of parents never reaches a node without one. */
  lemma CycleErrorsExact(rows: seq<NodeRow>)
    ensures forall e :: e in CycleErrors(rows) <==>
      e.CircularDependency? && e.nodeId in ParentLookup(rows) && Cyclic(ParentLookup(rows), e.nodeId)
  {
    CycleErrorsOverExact(ParentLookup(rows), KeyOrder(rows));
  }

  /** No circular-dependency report means every chain of parents leaves the
      lookup within |lookup| steps. */
  lemma NoCycleErrorsBoundsChains(rows: seq<NodeRow>)
    requires CycleErrors(rows) == []
    ensures forall k :: k in ParentLookup(rows) ==>
      Iter(ParentLookup(rows), k, |ParentLookup(rows)|) !in ParentLookup(rows)
  {
    var pl := ParentLookup(rows);
    forall k | k in pl ensures Iter(pl, k, |pl|) !in pl {
      CycleErrorsExact(rows);
      assert CircularDependency(k) in CycleErrors(rows) <==> Cyclic(pl, k);
    }
  }

  /** Every node on a cycle is reported: a self-loop (d = 1), both ends of
      A -> B -> A (d = 2), and so on. */
  lemma CycleMembersAreCyclic(pl: map<string, string>, k: string, d: nat)
    requires k in pl && d >= 1 && Iter(pl, k, d) == k
    ensures Cyclic(pl, k)
  {
    forall i | 0 <= i <= d ensures Iter(pl, k, i) in pl {
      if Iter(pl, k, i) !in pl {
        IterStuck(pl, k, i, d);
      }
    }
    assert Iter(pl, k, 0) == Iter(pl, k, d);
    RevisitStaysInside(pl, k, 0, d, |pl|);
  }

  /** `check_circular_dependencies`: builds the parent lookup in row order,
      then walks from each key in insertion order. */
  method CheckCircularDependencies(rows: seq<NodeRow>) returns (errors: seq<ValidationError>)
    ensures errors == CycleErrors(rows)
  {
    var parentLookup: map<string, string> := map[];
    var keys: seq<string> := [];
    for i := 0 to |rows|
      invariant parentLookup == ParentLookup(rows[..i])
      invariant keys == KeyOrder(rows[..i])
    {
      assert rows[..i + 1][..i] == rows[..i];
      var row := rows[i];
      if row.parentNodeId.Some? {
        if row.nodeId !in parentLookup {
          keys := keys + [row.nodeId];
        }
        parentLookup := parentLookup[row.nodeId := row.parentNodeId.value];
      }
    }
    assert rows[..|rows|] == rows;
    errors := [];
    for j := 0 to |keys|
      invariant errors == CycleErrorsOver(parentLookup, keys[..j])
    {
      assert keys[..j + 1][..j] == keys[..j];
      var found := DetectCycle(parentLookup, keys[j]);
      if found {
        errors := errors + [CircularDependency(keys[j])];
      }
    }
    assert keys[..|keys|] == keys;
  }

  // ---------------------------------------------------------- node master

  function NodeMasterErrors(rows: seq<NodeRow>): seq<ValidationError> {
    DuplicateErrors(rows) + ParentErrors(rows, NodeIds(rows)) + CycleErrors(rows)
  }

  /** `validate_node_master`: the duplicate check, one parent-reference check
      per row, then the cycle check, all accumulated. */
  method ValidateNodeMaster(rows: seq<NodeRow>) returns (errors: seq<ValidationError>)
    ensures errors == NodeMasterErrors(rows)
  {
    var duplicates := DuplicateErrors(rows);
    var nodeIds := NodeIds(rows);
    var parents := CheckParents(rows, nodeIds);
    var circular := CheckCircularDependencies(rows);
    errors := duplicates + parents + circular;
  }

  /** The row loop of `validate_node_master`: every row's parent-reference
      error, in row order. */
  method CheckParents(rows: seq<NodeRow>, nodeIds: set<string>) returns (errors: seq<ValidationError>)
    ensures errors == ParentErrors(rows, nodeIds)
  {
    errors := [];
    for i := 0 to |rows|
      invariant errors == ParentErrors(rows[..i], nodeIds)
    {
      ParentErrorsSnoc(rows, i, nodeIds);
      errors := errors + ParentError(rows[i], nodeIds);
    }
    assert rows[..|rows|] == rows;
  }

  lemma ParentErrorsSnoc(rows: seq<NodeRow>, i: nat, ids: set<string>)
    requires i < |rows|
    ensures ParentErrors(rows[..i + 1], ids) == ParentErrors(rows[..i], ids) + ParentError(rows[i], ids)
  {
    assert rows[..i + 1][..i] == rows[..i];
  }

  // ------------------------------------------------------ applicability

  function RuleIdError(row: RuleRow, idx: int, ids: set<string>): seq<ValidationError> {
    if row.nodeId.Some? && row.nodeId.value !in ids then [UnknownRuleNode(idx + 2, row.nodeId.value)] else []
  }

  function RuleIdErrors(rows: seq<RuleRow>, ids: set<string>): seq<ValidationError> {
    if |rows| == 0 then []
    else RuleIdErrors(rows[..|rows| - 1], ids) + RuleIdError(rows[|rows| - 1], |rows| - 1, ids)
  }

  function WeightError(row: RuleRow, idx: int): seq<ValidationError> {
    match row.weight
    case Missing => []
    case Int(n) => if n < 1 || n > 5 then [WeightOutOfRange(idx + 2, n)] else []
    case NonNumeric(raw) => [InvalidWeight(idx + 2, raw)]
  }

  function WeightErrors(rows: seq<RuleRow>): seq<ValidationError> {
    if |rows| == 0 then [] else WeightErrors(rows[..|rows| - 1]) + WeightError(rows[|rows| - 1], |rows| - 1)
  }

  function ContextErrors(rows: seq<RuleRow>, ids: set<string>): seq<ValidationError> {
    RuleIdErrors(rows, ids) + WeightErrors(rows)
  }

  /** A rule row's identifier is reported, with row number index + 2, exactly
      when it is present and not a catalog identifier. */
  lemma {:induction false} RuleIdErrorsExact(rows: seq<RuleRow>, ids: set<string>)
    ensures forall e :: e in RuleIdErrors(rows, ids) <==>
      exists i :: 0 <= i < |rows| && rows[i].nodeId.Some? && rows[i].nodeId.value !in ids
        && e == UnknownRuleNode(i + 2, rows[i].nodeId.value)
    decreases |rows|
  {
    if |rows| > 0 {
      var front := rows[..|rows| - 1];
      RuleIdErrorsExact(front, ids);
      forall e ensures e in RuleIdErrors(rows, ids) <==>
        exists i :: 0 <= i < |rows| && rows[i].nodeId.Some? && rows[i].nodeId.value !in ids
          && e == UnknownRuleNode(i + 2, rows[i].nodeId.value)
      {
        if exists i :: (0 <= i < |rows| && rows[i].nodeId.Some? && rows[i].nodeId.value !in ids
                        && e == UnknownRuleNode(i + 2, rows[i].nodeId.value)) {
          var i :| 0 <= i < |rows| && rows[i].nodeId.Some? && rows[i].nodeId.value !in ids
            && e == UnknownRuleNode(i + 2, rows[i].nodeId.value);
          if i < |front| { assert front[i] == rows[i]; }
        }
        if e in RuleIdErrors(front, ids) {
          var i :| 0 <= i < |front| && front[i].nodeId.Some? && front[i].nodeId.value !in ids
            && e == UnknownRuleNode(i + 2, front[i].nodeId.value);
          assert front[i] == rows[i];
        }
      }
    }
  }

  /** A weight is reported, with row number index + 2, exactly when it is
      present and either not a number or outside 1..5. */
  lemma {:induction false} WeightErrorsExact(rows: seq<RuleRow>)
    ensures forall e :: e in WeightErrors(rows) <==>
      exists i :: 0 <= i < |rows| && WeightError(rows[i], i) == [e]
    decreases |rows|
  {
    if |rows| > 0 {
      var front := rows[..|rows| - 1];
      WeightErrorsExact(front);
      forall e ensures e in WeightErrors(rows) <==> exists i :: 0 <= i < |rows| && WeightError(rows[i], i) == [e] {
        if exists i :: 0 <= i < |rows| && WeightError(rows[i], i) == [e] {
          var i :| 0 <= i < |rows| && WeightError(rows[i], i) == [e];
          if i < |front| { assert front[i] == rows[i]; }
        }
        if e in WeightErrors(front) {
          var i :| 0 <= i < |front| && WeightError(front[i], i) == [e];
          assert front[i] == rows[i];
        }
      }
    }
  }

  /** No weight error at all means every weight is null or an integer in 1..5. */
  lemma {:induction false} WeightErrorsNone(rows: seq<RuleRow>)
    ensures WeightErrors(rows) == [] <==>
      forall i :: 0 <= i < |rows| ==> rows[i].weight.Missing? || (rows[i].weight.Int? && 1 <= rows[i].weight.n <= 5)
    decreases |rows|
  {
    if |rows| > 0 {
      var front := rows[..|rows| - 1];
      WeightErrorsNone(front);
      assert forall i :: 0 <= i < |front| ==> front[i] == rows[i];
    }
  }

  /** All identifier errors come before all weight errors. */
  lemma ContextErrorsOrdered(rows: seq<RuleRow>, ids: set<string>)
    ensures var r := ContextErrors(rows, ids);
      forall i, j :: (0 <= i < j < |r| && r[j].UnknownRuleNode? ==> r[i].UnknownRuleNode?)
  {
    RuleIdErrorsExact(rows, ids);
    WeightErrorsExact(rows);
    var a: seq<ValidationError> := RuleIdErrors(rows, ids);
    var b: seq<ValidationError> := WeightErrors(rows);
    forall j | |a| <= j < |a + b| ensures !(a + b)[j].UnknownRuleNode? {
      assert (a + b)[j] in b;
    }
    forall i | 0 <= i < |a| ensures (a + b)[i].UnknownRuleNode? {
      assert (a + b)[i] in a;
    }
  }

  /** `validate_context_applicability`: the identifier pass over all rows,
      then the weight pass. */
  method ValidateContextApplicability(rows: seq<RuleRow>, validNodeIds: set<string>)
    returns (errors: seq<ValidationError>)
    ensures errors == ContextErrors(rows, validNodeIds)
  {
    errors := [];
    for i := 0 to |rows|
      invariant errors == RuleIdErrors(rows[..i], validNodeIds)
    {
      assert rows[..i + 1][..i] == rows[..i];
      assert RuleIdErrors(rows[..i + 1], validNodeIds)
        == RuleIdErrors(rows[..i], validNodeIds) + RuleIdError(rows[i], i, validNodeIds);
      var nodeId := rows[i].nodeId;
      if nodeId.Some? && nodeId.value !in validNodeIds {
        errors := errors + [UnknownRuleNode(i + 2, nodeId.value)];
      }
    }
    assert rows[..|rows|] == rows;
    ghost var idErrors := errors;
    for i := 0 to |rows|
      invariant errors == idErrors + WeightErrors(rows[..i])
    {
      assert rows[..i + 1][..i] == rows[..i];
      assert WeightErrors(rows[..i + 1]) == WeightErrors(rows[..i]) + WeightError(rows[i], i);
      match rows[i].weight {
        case Missing =>
        case Int(n) =>
          if n < 1 || n > 5 {
            errors := errors + [WeightOutOfRange(i + 2, n)];
          }
        case NonNumeric(raw) =>
          errors := errors + [InvalidWeight(i + 2, raw)];
      }
    }
    assert rows[..|rows|] == rows;
  }

  // ------------------------------------------------------------- all

  function ColumnErrors(wb: Workbook): seq<ValidationError> {
    ValidateRequiredColumns(wb.nodeMaster.columns, NodeMasterRequiredColumns, NodeMasterSheet)
      + ValidateRequiredColumns(wb.context.columns, ContextApplicabilityRequiredColumns, ContextApplicabilitySheet)
  }

  function AllErrors(wb: Workbook): seq<ValidationError> {
    var sheetErrors := ValidateSheetsExist(wb.sheetNames);
    if sheetErrors != [] then sheetErrors
    else
      var columnErrors := ColumnErrors(wb);
      if columnErrors != [] then columnErrors
      else NodeMasterErrors(wb.nodeMaster.rows) + ContextErrors(wb.context.rows, NodeIds(wb.nodeMaster.rows))
  }

  /** `validate_all`: sheets, then columns, each stage returning early when
      it found something; then both integrity checks, catalog first. */
  method ValidateAll(wb: Workbook) returns (errors: seq<ValidationError>)
    ensures errors == AllErrors(wb)
  {
    errors := ValidateSheetsExist(wb.sheetNames);
    if errors != [] {
      return;
    }
    var nodeColumns := ValidateRequiredColumns(wb.nodeMaster.columns, NodeMasterRequiredColumns, NodeMasterSheet);
    var contextColumns := ValidateRequiredColumns(wb.context.columns, ContextApplicabilityRequiredColumns, ContextApplicabilitySheet);
    errors := nodeColumns + contextColumns;
    if errors != [] {
      return;
    }
    var nodeErrors := ValidateNodeMaster(wb.nodeMaster.rows);
    var validNodeIds := NodeIds(wb.nodeMaster.rows);
    var contextErrors := ValidateContextApplicability(wb.context.rows, validNodeIds);
    errors := nodeErrors + contextErrors;
  }

  /** A missing sheet yields only missing-sheet errors, Node_Master's first,
      and no later stage runs. */
  lemma SheetStageGates(wb: Workbook)
    requires NodeMasterSheet !in wb.sheetNames || ContextApplicabilitySheet !in wb.sheetNames
    ensures AllErrors(wb) == ValidateSheetsExist(wb.sheetNames)
    ensures var r := AllErrors(wb);
      r != [] && |r| <= 2 && (forall e :: e in r ==> e.MissingSheet?)
      && (NodeMasterSheet !in wb.sheetNames ==> r[0] == MissingSheet(NodeMasterSheet))
  {
  }

  /** With both sheets present, missing columns yield at most one error per
      sheet, each for a different sheet, and no integrity check runs. */
  lemma ColumnStageGates(wb: Workbook)
    requires NodeMasterSheet in wb.sheetNames && ContextApplicabilitySheet in wb.sheetNames
    requires ColumnErrors(wb) != []
    ensures AllErrors(wb) == ColumnErrors(wb)
    ensures var r := AllErrors(wb);
      1 <= |r| <= 2 && (forall e :: e in r ==> e.MissingColumns?)
      && (|r| == 2 ==> r[0].sheet == NodeMasterSheet && r[1].sheet == ContextApplicabilitySheet)
  {
    var a := ValidateRequiredColumns(wb.nodeMaster.columns, NodeMasterRequiredColumns, NodeMasterSheet);
    var b := ValidateRequiredColumns(wb.context.columns, ContextApplicabilityRequiredColumns, ContextApplicabilitySheet);
    assert ColumnErrors(wb) == a + b;
    assert ValidateSheetsExist(wb.sheetNames) == [];
    ColumnPair(a, NodeMasterSheet, b, ContextApplicabilitySheet);
  }

  /** Two at-most-one-error column checks, concatenated. */
  lemma ColumnPair(a: seq<ValidationError>, sa: string, b: seq<ValidationError>, sb: string)
    requires |a| <= 1 && (a != [] ==> a[0].MissingColumns? && a[0].sheet == sa)
    requires |b| <= 1 && (b != [] ==> b[0].MissingColumns? && b[0].sheet == sb)
    ensures var r := a + b;
      |r| <= 2 && (forall e :: e in r ==> e.MissingColumns?)
      && (|r| == 2 ==> r[0].sheet == sa && r[1].sheet == sb)
  {
  }

  /** Once sheets and columns pass, both integrity checks run with no gate
      between them, the catalog's errors first, and no stage-one or
      stage-two error appears. */
  lemma IntegrityStageRuns(wb: Workbook)
    requires NodeMasterSheet in wb.sheetNames && ContextApplicabilitySheet in wb.sheetNames
    requires ColumnErrors(wb) == []
    ensures AllErrors(wb) ==
      NodeMasterErrors(wb.nodeMaster.rows) + ContextErrors(wb.context.rows, NodeIds(wb.nodeMaster.rows))
    ensures forall e :: e in AllErrors(wb) ==> IntegrityError(e)
  {
    NodeMasterErrorKinds(wb.nodeMaster.rows);
    ContextErrorKinds(wb.context.rows, NodeIds(wb.nodeMaster.rows));
  }

  /** An error of the third stage: neither a missing sheet nor missing columns. */
  predicate IntegrityError(e: ValidationError) {
    !e.MissingSheet? && !e.MissingColumns?
  }

  /** The kinds `validate_node_master` reports. */
  predicate NodeMasterKind(e: ValidationError) {
    e.DuplicateNodeIds? || e.LeverHasParent? || e.MissingParent? || e.UnknownParent? || e.CircularDependency?
  }

  /** The kinds `validate_context_applicability` reports. */
  predicate ContextKind(e: ValidationError) {
    e.UnknownRuleNode? || e.WeightOutOfRange? || e.InvalidWeight?
  }

  lemma NodeMasterErrorKinds(rows: seq<NodeRow>)
    ensures forall e :: e in NodeMasterErrors(rows) ==> NodeMasterKind(e)
    ensures forall e :: e in NodeMasterErrors(rows) ==> IntegrityError(e)
  {
    var ids := NodeIds(rows);
    ParentErrorsSound(rows, ids);
    CycleErrorsExact(rows);
    var par := ParentErrors(rows, ids);
    forall e | e in par ensures NodeMasterKind(e) {
      var i :| 0 <= i < |rows| && NamesNode(e, rows[i].nodeId) && !ParentRuleHolds(rows[i], ids);
    }
  }

  lemma ContextErrorKinds(rows: seq<RuleRow>, ids: set<string>)
    ensures forall e :: e in ContextErrors(rows, ids) ==> ContextKind(e)
    ensures forall e :: e in ContextErrors(rows, ids) ==> IntegrityError(e)
  {
    RuleIdErrorsExact(rows, ids);
    WeightErrorsExact(rows);
    var wgt := WeightErrors(rows);
    forall e | e in wgt ensures ContextKind(e) {
      var i :| 0 <= i < |rows| && WeightError(rows[i], i) == [e];
    }
  }
}
