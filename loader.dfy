/** The data loader: reads the workbook once, keeps the two tables and the
    validation outcome, and answers queries over the tables only while the
    data counts as loaded. */
module Loader {
  import opened Common
  import opened Config
  import opened Tables
  import opened Models
  import opened Validators

  // ------------------------------------------------------------ defaulting

  /** A catalog row as a node: a null parent stays null, a null description
      becomes "", a null Is_Leaf becomes false and a null Status "Active". */
  function ToNode(row: NodeRow): Node {
    Node(
      row.nodeId, row.nodeName, row.nodeLevel, row.parentNodeId,
      if row.description.Some? then row.description.value else "",
      if row.isLeaf.Some? then row.isLeaf.value else false,
      if row.status.Some? then row.status.value else ActiveStatus)
  }

  /** Every catalog row as a node, in order. */
  function NodesOf(rows: seq<NodeRow>): (r: seq<Node>)
    ensures |r| == |rows| && forall i :: 0 <= i < |rows| ==> r[i] == ToNode(rows[i])
  {
    if |rows| == 0 then [] else NodesOf(rows[..|rows| - 1]) + [ToNode(rows[|rows| - 1])]
  }

  lemma NodeDefaults(row: NodeRow)
    ensures var n := ToNode(row);
      n.nodeId == row.nodeId && n.parentNodeId == row.parentNodeId
      && (row.description.None? ==> n.description == "")
      && (row.isLeaf.None? ==> !n.isLeaf)
      && (row.status.None? ==> n.status == ActiveStatus)
      && (row.status.Some? ==> n.status == row.status.value)
  {
  }

  /** The weight of a rule: a null cell reads as 0. A cell that is not a
      number makes the source's `int(...)` raise, so it is excluded. */
  function WeightOf(cell: WeightCell): int
    requires !cell.NonNumeric?
  {
    if cell.Int? then cell.n else 0
  }

  /** A rule row matches a context when its three context cells equal the
      three inputs; a null cell equals nothing. */
  predicate Matches(row: RuleRow, valueIntent: string, industry: string, businessFunction: string) {
    row.valueIntent == Some(valueIntent) && row.industry == Some(industry)
      && row.businessFunction == Some(businessFunction)
  }

  /** A matching rule row as a rule: null weight 0, null Mandatory_Flag
      false, null Notes "". */
  function ToRule(row: RuleRow): ApplicabilityRule
    requires row.valueIntent.Some? && row.industry.Some? && row.businessFunction.Some?
    requires !row.weight.NonNumeric?
  {
    ApplicabilityRule(
      row.applicabilityId, row.nodeId,
      row.valueIntent.value, row.industry.value, row.businessFunction.value,
      WeightOf(row.weight),
      if row.mandatoryFlag.Some? then row.mandatoryFlag.value else false,
      if row.notes.Some? then row.notes.value else "")
  }

  lemma RuleDefaults(row: RuleRow)
    requires row.valueIntent.Some? && row.industry.Some? && row.businessFunction.Some?
    requires !row.weight.NonNumeric?
    ensures var r := ToRule(row);
      (row.weight.Missing? ==> r.applicabilityWeight == 0)
      && (row.weight.Int? ==> r.applicabilityWeight == row.weight.n)
      && (row.mandatoryFlag.None? ==> !r.mandatoryFlag)
      && (row.notes.None? ==> r.notes == "")
      && r.nodeId == row.nodeId && r.applicabilityId == row.applicabilityId
  {
  }

  // -------------------------------------------------------------- queries

  /** No matching row holds a weight that is not a number. */
  ghost predicate MatchingWeightsReadable(rows: seq<RuleRow>, valueIntent: string, industry: string, businessFunction: string) {
    forall i :: 0 <= i < |rows| && Matches(rows[i], valueIntent, industry, businessFunction) ==>
      !rows[i].weight.NonNumeric?
  }

  /** The positions of the matching rows, ascending. */
  function MatchingIndices(rows: seq<RuleRow>, valueIntent: string, industry: string, businessFunction: string)
    : (r: seq<nat>)
    ensures forall k :: 0 <= k < |r| ==> r[k] < |rows| && Matches(rows[r[k]], valueIntent, industry, businessFunction)
    ensures forall k, m :: 0 <= k < m < |r| ==> r[k] < r[m]
    ensures forall i :: 0 <= i < |rows| && Matches(rows[i], valueIntent, industry, businessFunction) ==> i in r
  {
    if |rows| == 0 then []
    else
      var front := MatchingIndices(rows[..|rows| - 1], valueIntent, industry, businessFunction);
      if Matches(rows[|rows| - 1], valueIntent, industry, businessFunction) then front + [|rows| - 1] else front
  }

  /** The rules for a context, one per matching row in row order. */
  function RulesFor(rows: seq<RuleRow>, valueIntent: string, industry: string, businessFunction: string)
    : seq<ApplicabilityRule>
    requires MatchingWeightsReadable(rows, valueIntent, industry, businessFunction)
  {
    if |rows| == 0 then []
    else
      var last := rows[|rows| - 1];
      RulesFor(rows[..|rows| - 1], valueIntent, industry, businessFunction)
        + (if Matches(last, valueIntent, industry, businessFunction) then [ToRule(last)] else [])
  }

  /** `get_applicability_rules` returns exactly the matching rows, converted,
      in their original order: the k-th rule comes from the k-th matching row. */
  lemma {:induction false} RulesForExact(rows: seq<RuleRow>, valueIntent: string, industry: string, businessFunction: string)
    requires MatchingWeightsReadable(rows, valueIntent, industry, businessFunction)
    ensures var r := RulesFor(rows, valueIntent, industry, businessFunction);
      var idx := MatchingIndices(rows, valueIntent, industry, businessFunction);
      |r| == |idx| && forall k :: 0 <= k < |r| ==> r[k] == ToRule(rows[idx[k]])
    decreases |rows|
  {
    if |rows| > 0 {
      RulesForExact(rows[..|rows| - 1], valueIntent, industry, businessFunction);
    }
  }

  /** Every rule returned for a context carries that context. */
  lemma RulesCarryContext(rows: seq<RuleRow>, valueIntent: string, industry: string, businessFunction: string)
    requires MatchingWeightsReadable(rows, valueIntent, industry, businessFunction)
    ensures forall r :: r in RulesFor(rows, valueIntent, industry, businessFunction) ==>
      r.valueIntent == valueIntent && r.industry == industry && r.businessFunction == businessFunction
  {
    RulesForExact(rows, valueIntent, industry, businessFunction);
  }

  /** The index of the first row with this identifier, if any. */
  function FirstIndex(rows: seq<NodeRow>, nodeId: string): (r: Option<nat>)
    ensures r.None? <==> forall i :: 0 <= i < |rows| ==> rows[i].nodeId != nodeId
    ensures r.Some? ==> (r.value < |rows| && rows[r.value].nodeId == nodeId
      && forall j :: 0 <= j < r.value ==> rows[j].nodeId != nodeId)
  {
    if |rows| == 0 then None
    else if rows[0].nodeId == nodeId then Some(0)
    else
      var rest := FirstIndex(rows[1..], nodeId);
      if rest.None? then None else Some(rest.value + 1)
  }

  /** The present values of one column. */
  function Present(cells: seq<Option<string>>): (r: seq<string>)
    ensures forall x :: x in r <==> Some(x) in cells
  {
    if |cells| == 0 then []
    else (if cells[0].Some? then [cells[0].value] else []) + Present(cells[1..])
  }

  function ValueIntentColumn(rows: seq<RuleRow>): seq<Option<string>> {
    seq(|rows|, i requires 0 <= i < |rows| => rows[i].valueIntent)
  }

  function IndustryColumn(rows: seq<RuleRow>): seq<Option<string>> {
    seq(|rows|, i requires 0 <= i < |rows| => rows[i].industry)
  }

  function FunctionColumn(rows: seq<RuleRow>): seq<Option<string>> {
    seq(|rows|, i requires 0 <= i < |rows| => rows[i].businessFunction)
  }

  // ---------------------------------------------------------- load outcome

  /** What one attempt to open the workbook yields: the file is absent, it
      cannot be opened, or it opens with these sheets. */
  datatype ReadOutcome = NotFound | Unreadable(message: string) | Opened(workbook: Workbook)

  /** The exception reading an absent sheet raises, as an error entry. */
  function SheetNotFound(sheet: string): ValidationError {
    LoadFailed("Worksheet named '" + sheet + "' not found")
  }

  /** The loader's fields; a table is None until a read has replaced it. */
  datatype LoaderState = LoaderState(
    nodeMaster: Option<Sheet<NodeRow>>,
    context: Option<Sheet<RuleRow>>,
    validationErrors: seq<ValidationError>,
    loaded: bool)

  /** The tables pass the integrity checks: the catalog's and the rules'. */
  ghost predicate Consistent(nodeMaster: Sheet<NodeRow>, context: Sheet<RuleRow>) {
    NodeMasterErrors(nodeMaster.rows) == [] && ContextErrors(context.rows, NodeIds(nodeMaster.rows)) == []
  }

  /** Everything `load` does except setting the loaded flag: the tables it
      replaces (Node_Master before Context_Applicability is read, so a
      missing second sheet leaves the first one replaced), the error list,
      and whether it reports success. */
  function ReadAttempt(s: LoaderState, path: string, outcome: ReadOutcome): (r: (LoaderState, bool))
    ensures r.0.loaded == s.loaded
    ensures r.1 <==> (outcome.Opened? && NodeMasterSheet in outcome.workbook.sheetNames
      && ContextApplicabilitySheet in outcome.workbook.sheetNames && AllErrors(outcome.workbook) == [])
    ensures r.1 ==> (r.0.validationErrors == [] && r.0.nodeMaster.Some? && r.0.context.Some?
      && Consistent(r.0.nodeMaster.value, r.0.context.value))
    ensures !outcome.Opened? ==> r.0.nodeMaster == s.nodeMaster && r.0.context == s.context && |r.0.validationErrors| == 1
    ensures !r.1 ==> r.0.validationErrors != []
    ensures outcome.Opened? && NodeMasterSheet in outcome.workbook.sheetNames
      ==> r.0.nodeMaster == Some(outcome.workbook.nodeMaster)
    ensures outcome.Opened? && NodeMasterSheet in outcome.workbook.sheetNames
      && ContextApplicabilitySheet in outcome.workbook.sheetNames
      ==> r.0.context == Some(outcome.workbook.context) && r.0.validationErrors == AllErrors(outcome.workbook)
  {
    match outcome
    case NotFound => (s.(validationErrors := [FileNotFound(path)]), false)
    case Unreadable(message) => (s.(validationErrors := [LoadFailed(message)]), false)
    case Opened(wb) =>
      if NodeMasterSheet !in wb.sheetNames then
        (s.(validationErrors := [SheetNotFound(NodeMasterSheet)]), false)
      else if ContextApplicabilitySheet !in wb.sheetNames then
        (s.(nodeMaster := Some(wb.nodeMaster), validationErrors := [SheetNotFound(ContextApplicabilitySheet)]), false)
      else
        var errors := AllErrors(wb);
        PassingIsConsistent(wb);
        (s.(nodeMaster := Some(wb.nodeMaster), context := Some(wb.context), validationErrors := errors), errors == [])
  }

  /** `load` as the source writes it: only success touches the flag, so a
      failed reload after a good load leaves the flag set. */
  function AfterLoadAsWritten(s: LoaderState, path: string, outcome: ReadOutcome): (r: (LoaderState, bool))
    ensures r.0.loaded == (s.loaded || r.1)
    ensures r.1 <==> (outcome.Opened? && NodeMasterSheet in outcome.workbook.sheetNames
      && ContextApplicabilitySheet in outcome.workbook.sheetNames && AllErrors(outcome.workbook) == [])
    ensures r.1 == AfterLoad(s, path, outcome).1 && r.0.(loaded := r.1) == AfterLoad(s, path, outcome).0
  {
    var (t, ok) := ReadAttempt(s, path, outcome);
    (t.(loaded := s.loaded || ok), ok)
  }

  /** `load` with the flag meaning what it says: set exactly when this load
      succeeded. */
  function AfterLoad(s: LoaderState, path: string, outcome: ReadOutcome): (r: (LoaderState, bool))
    ensures r.0.loaded == r.1
    ensures r.1 ==> r.0.nodeMaster.Some? && r.0.context.Some? && Consistent(r.0.nodeMaster.value, r.0.context.value)
    ensures r.1 <==> (outcome.Opened? && NodeMasterSheet in outcome.workbook.sheetNames
      && ContextApplicabilitySheet in outcome.workbook.sheetNames && AllErrors(outcome.workbook) == [])
  {
    var (t, ok) := ReadAttempt(s, path, outcome);
    (t.(loaded := ok), ok)
  }

  /** The two variants differ only after a successful load: from a state
      that is not loaded they agree. */
  lemma AgreeUnlessLoaded(s: LoaderState, path: string, outcome: ReadOutcome)
    requires !s.loaded
    ensures AfterLoadAsWritten(s, path, outcome) == AfterLoad(s, path, outcome)
  {
  }

  /** A workbook with both sheets, every required column, the given
      catalog rows and no rule rows. */
  function CatalogOnly(rows: seq<NodeRow>): Workbook {
    Workbook(
      {NodeMasterSheet, ContextApplicabilitySheet},
      Sheet((set c | c in NodeMasterRequiredColumns), rows),
      Sheet((set c | c in ContextApplicabilityRequiredColumns), []))
  }

  function LeverL1(): NodeRow {
    NodeRow("L1", "Lever one", Lever, None, None, None, None)
  }

  lemma CatalogOnlyColumnsPass(rows: seq<NodeRow>)
    ensures ColumnErrors(CatalogOnly(rows)) == []
  {
  }

  lemma OneLeverPasses()
    ensures AllErrors(CatalogOnly([LeverL1()])) == []
  {
    var rows := [LeverL1()];
    CatalogOnlyColumnsPass(rows);
    assert rows[..0] == [];
    assert DuplicateErrors(rows) == [];
    assert ParentErrors(rows, NodeIds(rows)) == [];
    assert ParentLookup(rows) == map[];
    assert KeyOrder(rows) == [];
    assert NodeMasterErrors(rows) == [];
  }

  lemma RepeatedLeverFails()
    ensures AllErrors(CatalogOnly([LeverL1(), LeverL1()])) != []
  {
    var rows := [LeverL1(), LeverL1()];
    CatalogOnlyColumnsPass(rows);
    assert rows[0].nodeId == rows[1].nodeId;
    assert DuplicateErrors(rows) != [];
    IntegrityStageRuns(CatalogOnly(rows));
  }

  /** The flag no longer describes the tables under the source's `load`: a
      good load of one Lever, then a reload whose catalog repeats that
      Lever's identifier, reports failure yet stays loaded, over tables
      that fail validation. */
  lemma StaleLoadedFlag()
    ensures var good := CatalogOnly([LeverL1()]);
      var bad := CatalogOnly([LeverL1(), LeverL1()]);
      var first := AfterLoadAsWritten(LoaderState(None, None, [], false), DefaultExcelPath, Opened(good));
      var second := AfterLoadAsWritten(first.0, DefaultExcelPath, Opened(bad));
      first.1 && !second.1 && second.0.loaded
      && second.0.nodeMaster == Some(bad.nodeMaster) && AllErrors(bad) != []
  {
    var good := CatalogOnly([LeverL1()]);
    var bad := CatalogOnly([LeverL1(), LeverL1()]);
    OneLeverPasses();
    RepeatedLeverFails();
    var first := ReadAttempt(LoaderState(None, None, [], false), DefaultExcelPath, Opened(good));
    assert first.1;
    var second := ReadAttempt(first.0.(loaded := true), DefaultExcelPath, Opened(bad));
    assert !second.1;
  }

  /** Under the corrected `load` the same two reads leave the loader not loaded. */
  lemma FailedReloadUnloads()
    ensures var first := AfterLoad(LoaderState(None, None, [], false), DefaultExcelPath, Opened(CatalogOnly([LeverL1()])));
      var second := AfterLoad(first.0, DefaultExcelPath, Opened(CatalogOnly([LeverL1(), LeverL1()])));
      first.1 && first.0.loaded && !second.1 && !second.0.loaded
  {
    OneLeverPasses();
    RepeatedLeverFails();
  }

  /** A workbook with both sheets that passes validation holds consistent tables. */
  lemma PassingIsConsistent(wb: Workbook)
    ensures NodeMasterSheet in wb.sheetNames && ContextApplicabilitySheet in wb.sheetNames && AllErrors(wb) == []
      ==> Consistent(wb.nodeMaster, wb.context)
  {
    if NodeMasterSheet in wb.sheetNames && ContextApplicabilitySheet in wb.sheetNames && AllErrors(wb) == [] {
      assert ColumnErrors(wb) == [];
      IntegrityStageRuns(wb);
    }
  }

  /** Consistent tables hold no rule weight that is not a number, so turning
      any matching row into a rule cannot fail. */
  lemma ConsistentWeightsReadable(nodeMaster: Sheet<NodeRow>, context: Sheet<RuleRow>)
    requires Consistent(nodeMaster, context)
    ensures forall i :: 0 <= i < |context.rows| ==> !context.rows[i].weight.NonNumeric?
  {
    var ids := RuleIdErrors(context.rows, NodeIds(nodeMaster.rows));
    var weights := WeightErrors(context.rows);
    assert ContextErrors(context.rows, NodeIds(nodeMaster.rows)) == ids + weights;
    assert |ids + weights| == 0;
    assert weights == [];
    WeightErrorsNone(context.rows);
  }

  // ------------------------------------------------------------- the class

  class DataLoader {
    const excelPath: string
    var nodeMaster: Option<Sheet<NodeRow>>
    var context: Option<Sheet<RuleRow>>
    var validationErrors: seq<ValidationError>
    var loaded: bool

    function State(): LoaderState
      reads this
    {
      LoaderState(nodeMaster, context, validationErrors, loaded)
    }

    /** While loaded, both tables are present and pass validation. */
    ghost predicate Valid()
      reads this
    {
      loaded ==> nodeMaster.Some? && context.Some? && Consistent(nodeMaster.value, context.value)
    }

    /** The catalog rows, empty before any read. */
    function Catalog(): seq<NodeRow>
      reads this
    {
      if nodeMaster.Some? then nodeMaster.value.rows else []
    }

    /** The rule rows, empty before any read. */
    function RuleRows(): seq<RuleRow>
      reads this
    {
      if context.Some? then context.value.rows else []
    }

    /** A loader for the given path, or for the default workbook; nothing
        is read yet. */
    constructor(path: Option<string>)
      ensures Valid()
      ensures excelPath == if path.Some? then path.value else DefaultExcelPath
      ensures State() == LoaderState(None, None, [], false)
    {
      excelPath := if path.Some? then path.value else DefaultExcelPath;
      nodeMaster := None;
      context := None;
      validationErrors := [];
      loaded := false;
    }

    /** `load`, with the read itself given as `outcome`; the flag is set
        exactly when this load succeeds. */
    method Load(outcome: ReadOutcome) returns (success: bool)
      modifies this
      ensures Valid()
      ensures (State(), success) == AfterLoad(old(State()), excelPath, outcome)
    {
      match outcome {
        case NotFound =>
          validationErrors := [FileNotFound(excelPath)];
          loaded := false;
          return false;
        case Unreadable(message) =>
          validationErrors := [LoadFailed(message)];
          loaded := false;
          return false;
        case Opened(wb) =>
          if NodeMasterSheet !in wb.sheetNames {
            validationErrors := [SheetNotFound(NodeMasterSheet)];
            loaded := false;
            return false;
          }
          nodeMaster := Some(wb.nodeMaster);
          if ContextApplicabilitySheet !in wb.sheetNames {
            validationErrors := [SheetNotFound(ContextApplicabilitySheet)];
            loaded := false;
            return false;
          }
          context := Some(wb.context);
          validationErrors := ValidateAll(wb);
          if validationErrors != [] {
            loaded := false;
            return false;
          }
          loaded := true;
          return true;
      }
    }

    /** `get_unique_value_intents`: the distinct non-null Value_Intent
        cells, ascending; nothing while not loaded. */
    function GetUniqueValueIntents(): (r: seq<string>)
      reads this
      ensures StrictlySortedBy(r, Identity)
      ensures forall x :: x in r <==> loaded && Some(x) in ValueIntentColumn(RuleRows())
    {
      if !loaded then [] else SortedDistinct(Present(ValueIntentColumn(RuleRows())))
    }

    /** `get_unique_industries`. */
    function GetUniqueIndustries(): (r: seq<string>)
      reads this
      ensures StrictlySortedBy(r, Identity)
      ensures forall x :: x in r <==> loaded && Some(x) in IndustryColumn(RuleRows())
    {
      if !loaded then [] else SortedDistinct(Present(IndustryColumn(RuleRows())))
    }

    /** `get_unique_functions`. */
    function GetUniqueFunctions(): (r: seq<string>)
      reads this
      ensures StrictlySortedBy(r, Identity)
      ensures forall x :: x in r <==> loaded && Some(x) in FunctionColumn(RuleRows())
    {
      if !loaded then [] else SortedDistinct(Present(FunctionColumn(RuleRows())))
    }

    /** `get_node_by_id`: the first catalog row with this identifier, as a
        node; None while not loaded or when no row has it. */
    function GetNodeById(nodeId: string): (r: Option<Node>)
      reads this
      ensures !loaded ==> r.None?
      ensures loaded ==> (r.None? <==> forall i :: 0 <= i < |Catalog()| ==> Catalog()[i].nodeId != nodeId)
      ensures r.Some? ==> exists i :: (0 <= i < |Catalog()| && Catalog()[i].nodeId == nodeId
        && (forall j :: 0 <= j < i ==> Catalog()[j].nodeId != nodeId) && r.value == ToNode(Catalog()[i]))
    {
      if !loaded then None
      else
        var i := FirstIndex(Catalog(), nodeId);
        if i.None? then None else Some(ToNode(Catalog()[i.value]))
    }

    /** `get_all_nodes`: one node per catalog row, in row order; nothing
        while not loaded. */
    method GetAllNodes() returns (nodes: seq<Node>)
      ensures nodes == if loaded then NodesOf(Catalog()) else []
    {
      nodes := [];
      if !loaded {
        return;
      }
      var rows := Catalog();
      for i := 0 to |rows|
        invariant nodes == NodesOf(rows[..i])
      {
        assert rows[..i + 1][..i] == rows[..i];
        nodes := nodes + [ToNode(rows[i])];
      }
    }

    /** `get_applicability_rules`: the rules of the rows matching the
        context, in row order; nothing while not loaded. */
    method GetApplicabilityRules(valueIntent: string, industry: string, businessFunction: string)
      returns (rules: seq<ApplicabilityRule>)
      requires Valid()
      ensures !loaded ==> rules == []
      ensures loaded ==> (MatchingWeightsReadable(RuleRows(), valueIntent, industry, businessFunction)
        && rules == RulesFor(RuleRows(), valueIntent, industry, businessFunction))
    {
      rules := [];
      if !loaded {
        return;
      }
      var rows := RuleRows();
      ConsistentWeightsReadable(nodeMaster.value, context.value);
      for i := 0 to |rows|
        invariant rules == RulesFor(rows[..i], valueIntent, industry, businessFunction)
      {
        assert rows[..i + 1][..i] == rows[..i];
        var row := rows[i];
        if Matches(row, valueIntent, industry, businessFunction) {
          rules := rules + [ToRule(row)];
        }
      }
      assert rows[..|rows|] == rows;
    }
  }
}
