/** The fixed names the engine compares against: sheet names, the status
    that admits a node, and the four hierarchy levels from root to leaf. */
module Config {

  /** The workbook read when no path is given. */
  const DefaultExcelPath: string := "service_transformation_node_master.xlsx"

  const NodeMasterSheet: string := "Node_Master"
  const ContextApplicabilitySheet: string := "Context_Applicability"

  const DefaultThreshold: int := 3

  const Lever: string := "Lever"
  const BusinessObjective: string := "Business_Objective"
  const ValueDriver: string := "Value_Driver"
  const Kpi: string := "KPI"
  const NodeLevels: seq<string> := [Lever, BusinessObjective, ValueDriver, Kpi]

  const ActiveStatus: string := "Active"
}
