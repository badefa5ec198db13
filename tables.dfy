/** The two input tables as the reader hands them over: typed rows whose
    nullable cells are options, and the column header of each sheet. */
module Tables {
  import opened Common

  /** An Applicability_Weight cell: empty, an integer, or something that is
      not a number. */
  datatype WeightCell = Missing | Int(n: int) | NonNumeric(raw: string)

  /** A Node_Master row. */
  datatype NodeRow = NodeRow(
    nodeId: string,
    nodeName: string,
    nodeLevel: string,
    parentNodeId: Option<string>,
    description: Option<string>,
    isLeaf: Option<bool>,
    status: Option<string>)

  /** A Context_Applicability row; the optional columns Mandatory_Flag and
      Notes read as null cells when the sheet lacks them. */
  datatype RuleRow = RuleRow(
    applicabilityId: string,
    nodeId: Option<string>,
    valueIntent: Option<string>,
    industry: Option<string>,
    businessFunction: Option<string>,
    weight: WeightCell,
    mandatoryFlag: Option<bool>,
    notes: Option<string>)

  datatype Sheet<R> = Sheet(columns: set<string>, rows: seq<R>)

  /** What one read of the workbook yields: the sheet names it has and the
      two sheets the engine needs. */
  datatype Workbook = Workbook(
    sheetNames: set<string>, nodeMaster: Sheet<NodeRow>, context: Sheet<RuleRow>)

  /** The identifiers of the catalog, every row's (the column has no nulls here). */
  function NodeIds(rows: seq<NodeRow>): (ids: set<string>)
    ensures forall i :: 0 <= i < |rows| ==> rows[i].nodeId in ids
    ensures forall x :: x in ids ==> exists i :: 0 <= i < |rows| && rows[i].nodeId == x
  {
    set i | 0 <= i < |rows| :: rows[i].nodeId
  }
}
