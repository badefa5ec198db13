# Value Tree Generator: a verified model of the assembly engine

The Value Tree Generator reads a workbook with two sheets:

- **Node_Master** is a catalog of nodes. Each node has an identifier, a level (Lever, Business_Objective, Value_Driver or KPI), an optional parent and a status.
- **Context_Applicability** holds weighted rules. Each rule ties a catalog node to a context: a value intent, an industry and a business function.

For a chosen context and a weight threshold, the engine does four things:

1. It keeps the rules whose weight reaches the threshold.
2. It keeps the Active nodes those rules name.
3. It adds their Active ancestors, found by walking the parent links.
4. It arranges the result as a forest of Lever roots, with every child list sorted by identifier.

Before any of this, a staged validator rejects malformed workbooks.

This project models four pieces of the engine, with their contracts proved in Dafny:

- the validator (`Validators`);
- the loader and its state (`Loader`, class `DataLoader`);
- the records (`Models`);
- the assembler (`Assembler`, class `ValueTreeAssembler`).

The assembler's specification lives in three modules:

- `AncestorWalk`: the node lookup and the parent walk.
- `Selection`: which ids a context selects.
- `Hierarchy`: what a correctly built forest is, and the grouping and building methods.

The remaining modules are supporting material:

- `Common`: options, the code-point order of Python's string sort, an insertion sort by key that keeps elements of equal key in their input order, and first-occurrence deduplication.
- `Config`: the constants.
- `Tables`: the typed sheet rows.
- `CatalogLookup`: a bridge proving that a validated catalog gives an acyclic lookup.

Source code that loops or updates state becomes methods with loop invariants:

- the duplicate and parent checks;
- the cycle detector;
- the context check;
- the lookup construction;
- the ancestor walk;
- the grouping and sorting;
- the subtree builder;
- the statistics counter.

Each method is proved against a specification function. Objects whose fields the source updates in place become classes; these are the loader and the assembler. The properties of those functions are proved as lemmas:

- monotonicity in the threshold;
- ancestor closure;
- uniqueness of the forest;
- distinct identifiers in the forest;
- bounds on its size;
- exact membership of the tree;
- the validator's stage gates.

Three behaviours of the code that its comments do not make plain. The model follows the code in each:

- **The walk passes inactive ancestors.** The walk up the parents (`assembler.py:63-71`) does not stop at an inactive ancestor. It skips that node without adding it and goes on to the node's parent. It stops only at a null or empty parent, or at an identifier missing from the lookup (`Selection.InactiveSkipped`).
- **The walk does not test the level.** The docstring (`assembler.py:31-39`) says parents are included "up to Lever", but nothing in the walk checks for a Lever.
- **Missing sheets surface at read time.** `validate_sheets_exist` can never report a missing sheet through `load`. The sheets are read before validation runs, and reading an absent sheet raises. That exception becomes the single error "Worksheet named … not found" (`Loader.ReadAttempt`).

## Model

| member | source | states |
|---|---|---|
| Validators.ValidateSheetsExist | validators.py:25-36 | At most two errors, naming only the two required sheets, with none listed twice. There is one error for each required sheet absent from the workbook, Node_Master's first. The list is empty exactly when both sheets are present. |
| Validators.ValidateRequiredColumns | validators.py:39-50 | At most one error, and none exactly when every required column is present. The error names the sheet. It lists exactly the missing columns, in strictly ascending order. |
| Validators.DuplicateIdsExact | validators.py:57-61 | An id is reported exactly when two different rows carry it. The list is empty exactly when all ids are distinct. |
| Validators.DuplicateErrors | validators.py:57-61 | At most one duplicate error. There is none exactly when the catalog's ids are pairwise distinct. When the error is there, it lists the repeated ids without repeats. |
| Validators.ParentError | validators.py:72-87 | At most one error per row. There is none exactly when the parent rule holds: a Lever has no parent, and any other node has a parent that is in the catalog. The error names the row's node. |
| Validators.ParentErrorsSound | validators.py:66-87 | At most one error per row. Every error names a row whose parent rule fails. |
| Validators.ParentErrorsComplete | validators.py:66-87 | Every row whose parent rule fails has an error naming it. |
| Validators.ParentErrorsEmpty | validators.py:66-87 | There are no parent errors exactly when every row satisfies the parent rule. |
| Validators.CheckParents | validators.py:67-87 | The loop over the rows returns exactly the parent-error list of the whole catalog. |
| Validators.ValidateNodeMaster | validators.py:53-93 | Returns, in this order, the duplicate error, the parent errors, then the cycle errors. |
| Validators.KeyOrder | validators.py:100-109 | The keys of the parent lookup, each listed once: exactly the ids whose rows have a non-null parent. |
| Validators.DetectCycle | validators.py:110-118 | The walk with a visited set reports a cycle exactly when following the parent lookup from the start never leaves the lookup. |
| Validators.CheckCircularDependencies | validators.py:96-120 | The loop over the lookup's keys returns exactly the cycle errors of the catalog, one per key whose walk never ends. |
| Validators.CycleErrorsExact | validators.py:108-118 | A key gets a cycle error exactly when it is in the parent lookup and its walk stays inside the lookup forever. |
| Validators.NoCycleErrorsBoundsChains | validators.py:108-118 | With no cycle errors, every walk leaves the lookup within as many steps as the lookup has keys. |
| Validators.CycleMembersAreCyclic | validators.py:113-118 | A key that some number of steps of the walk brings back to itself is reported as cyclic. |
| Validators.RuleIdErrorsExact | validators.py:128-135 | A rule row gets an unknown-node error, numbered by its spreadsheet row (index + 2), exactly when its Node_ID is not null and not in the catalog. |
| Validators.WeightErrorsExact | validators.py:137-152 | An error is in the list exactly when one row's own weight check yields it. That check gives an out-of-range error carrying the integer weight when it is outside 1..5, and an invalid-weight error for a cell that is not a number. It gives nothing for a null cell. Errors are numbered by spreadsheet row (index + 2). |
| Validators.WeightErrorsNone | validators.py:137-152 | There are no weight errors exactly when every weight is null or an integer between 1 and 5. |
| Validators.ContextErrorsOrdered | validators.py:123-154 | All unknown-node errors come before all weight errors. |
| Validators.ValidateContextApplicability | validators.py:123-154 | The two loops return exactly the unknown-node errors followed by the weight errors. |
| Validators.ValidateAll | validators.py:157-187 | Returns exactly the staged error list: sheets, then columns, then integrity. Each of the first two stages ends the run when it finds an error. The next three lemmas state each stage. |
| Validators.SheetStageGates | validators.py:163-166 | With a required sheet missing, the result is exactly the sheet errors, and nothing else is checked. |
| Validators.ColumnStageGates | validators.py:168-178 | With both sheets present but a column missing, the result is exactly the column errors: at most one for Node_Master, then at most one for Context_Applicability. |
| Validators.IntegrityStageRuns | validators.py:180-187 | With sheets and columns in order, the result is the Node_Master errors followed by the context errors, checked against the catalog's ids. Every error is of an integrity kind. |
| Validators.NodeMasterErrorKinds | validators.py:53-93 | Node_Master validation yields only duplicate, parent and cycle errors. |
| Validators.ContextErrorKinds | validators.py:123-154 | Context validation yields only unknown-node and weight errors. |
| Loader.NodesOf | data_loader.py:141-152 | One node per catalog row, in row order. |
| Loader.NodeDefaults | data_loader.py:143-151 | A node keeps the row's id and parent link, and the row's status when there is one. A null description becomes "", a null Is_Leaf becomes false, and a null status becomes Active. |
| Loader.RuleDefaults | data_loader.py:169-178 | A rule keeps the row's applicability id, node id and integer weight. A null weight becomes 0, a null Mandatory_Flag becomes false, and null Notes become "". |
| Loader.MatchingIndices | data_loader.py:161-165 | Strictly increasing row indices, exactly those of the rows whose three context cells equal the query. |
| Loader.RulesForExact | data_loader.py:154-179 | One rule per matching row, in row order, each converted from its row. |
| Loader.RulesCarryContext | data_loader.py:161-174 | Every returned rule carries the queried value intent, industry and function. |
| Loader.FirstIndex | data_loader.py:121-125 | None exactly when no row has the id. Otherwise the index of the first row with that id. |
| Loader.ReadAttempt | data_loader.py:26-57 | Success exactly when the workbook opens with both sheets and validation finds nothing. In that case the stored tables are consistent and the error list is empty. A failure leaves a non-empty error list. When the file is missing or unreadable, the tables are unchanged and there is one error. When the catalog sheet is present, the catalog table is replaced even if the later read fails. When both sheets are present, both tables are replaced and the error list is exactly the validator's result. |
| Loader.AfterLoadAsWritten | data_loader.py:26-57 | `load` as the code stands. The flag is set after the call exactly when it was set before or this load succeeded. Success is the same as in the corrected load, and so is the state, apart from the flag. |
| Loader.AfterLoad | data_loader.py:26-57 | The loaded flag equals this load's success. When loaded, both tables are present and consistent. |
| Loader.AgreeUnlessLoaded | data_loader.py:46-50 | From a state that is not loaded, the load as written and the corrected load agree. |
| Loader.StaleLoadedFlag | data_loader.py:46-50 | A load as written can fail yet stay loaded over tables that fail validation. |
| Loader.FailedReloadUnloads | data_loader.py:46-50 | Under the corrected load, the same failed reload leaves the loader not loaded. |
| Loader.PassingIsConsistent | validators.py:157-187 | A workbook with both sheets that passes validation holds consistent tables. |
| Loader.ConsistentWeightsReadable | data_loader.py:175 | Consistent tables hold no non-numeric weight, so converting a rule's weight cannot fail. |
| Loader.DataLoader.constructor | data_loader.py:18-24 | Uses the given path, or the configured path when none is given. Starts with no tables, no errors and not loaded. |
| Loader.DataLoader.Load | data_loader.py:26-57 | The new state and the result are those of the corrected load applied to the previous state, and the loaded-implies-consistent invariant holds. |
| Loader.DataLoader.GetUniqueValueIntents | data_loader.py:83-88 | Strictly ascending. It contains exactly the non-null Value_Intent cells of the loaded rules, and nothing when not loaded. |
| Loader.DataLoader.GetUniqueIndustries | data_loader.py:102-107 | The same for the Industry column. |
| Loader.DataLoader.GetUniqueFunctions | data_loader.py:109-114 | The same for the Function column. |
| Loader.DataLoader.GetNodeById | data_loader.py:116-134 | None when not loaded, or when no catalog row has the id. Otherwise the first row with that id, converted with the defaults. |
| Loader.DataLoader.GetAllNodes | data_loader.py:136-152 | The loop returns one node per catalog row when loaded, and nothing otherwise. |
| Loader.DataLoader.GetApplicabilityRules | data_loader.py:154-179 | Nothing when not loaded. Otherwise the weights are readable and the loop returns the rules of the matching rows, in order. |
| Models.SameNodeIsEquivalence | models.py:21-24 | Node equality by identifier is reflexive, symmetric and transitive. |
| Models.NodeHashRespectsEquality | models.py:18-24 | Equal nodes hash alike. |
| Models.NewValueTreeNode | models.py:40-60 | A new tree node holds the node and no children. Its accessors return the node's fields. |
| Models.NewValueTree | models.py:63-68 | A new tree has the given roots, no context and a node count of 0. |
| Models.GetAllNodes | models.py:70-81 | Returns the preorder listing of the forest, whose length is the forest's size. An empty forest lists nothing. |
| Models.Collect | models.py:74-77 | Appends a subtree's preorder listing to the accumulator. |
| Models.PreorderForestLength | models.py:70-81 | The preorder listing has exactly as many nodes as the forest. |
| Common.SortByKey | assembler.py:104 | A permutation of the input whose keys ascend. |
| Common.SortByKeyStable | assembler.py:103-104 | For every key, the elements with that key leave the sort in their input order, as Python's stable `list.sort` keeps them. |
| Common.SortedDistinct | data_loader.py:87-88 | Strictly ascending, with exactly the values of the input. |
| AncestorWalk.LookupOf | assembler.py:20-24 | Its keys are exactly the nodes' ids, and each entry is keyed by its own id. |
| AncestorWalk.LookupLastWins | assembler.py:23-24 | For a repeated id, the entry is the last node with that id. |
| AncestorWalk.AcyclicHalts | assembler.py:63-71 | In an acyclic lookup, the walk from any node ends within \|lookup\| + 1 steps. |
| AncestorWalk.DepthOfChild | assembler.py:107-112 | A child's depth is one more than its parent's, so building subtrees terminates. |
| CatalogLookup.LookupsAgree | validators.py:100-106 | When the catalog's Node_IDs are pairwise distinct, the validator's parent lookup and the assembler's node lookup give the same parent links. With a repeated id they can differ: the validator keeps the last non-null parent, while the lookup keeps the last row. |
| CatalogLookup.ConsistentCatalogAcyclic | validators.py:108-118 | A catalog that passes validation gives an acyclic node lookup. |
| Selection.AboveThreshold | assembler.py:47 | Exactly the rules whose weight reaches the threshold. |
| Selection.EligibleExact | assembler.py:50-54 | An id is eligible exactly when it is an Active catalog node and a rule at or above the threshold names it. |
| Selection.IncludedStep | assembler.py:58-71 | Each eligible id adds itself and the Active ids its walk passes. |
| Selection.IncludedActive | assembler.py:67-69 | Every included id is an Active catalog node. |
| Selection.IncludedExact | assembler.py:57-71 | An id is included exactly when it is eligible, or it is an Active node that some eligible node's walk reaches before the walk ends. |
| Selection.AncestorClosure | assembler.py:63-71 | The Active parent of an included node is included, unless the parent link ends the walk. |
| Selection.InactiveSkipped | assembler.py:65-71 | An inactive node on the walk is not included, and the walk continues to its parent. |
| Selection.IncludedMonotone | assembler.py:57-71 | More eligible ids never shrink the included set. |
| Selection.ThresholdMonotone | assembler.py:47-71 | Raising the threshold can only shrink the eligible and the included sets. |
| Hierarchy.IncludedNodes | assembler.py:91-95 | Exactly the requested ids that are in the lookup. |
| Hierarchy.GroupByParent | assembler.py:98-100 | Every included node appears, once, in the list of its parent id, and each list holds only nodes with that parent. |
| Hierarchy.SortGroups | assembler.py:103-104 | Same parent keys. Each list is a permutation of its old contents, sorted by node id. |
| Hierarchy.SortedGroupsTable | assembler.py:98-104 | The sorted lists are strictly ascending and hold exactly the included children of their parent. |
| Hierarchy.BuildSubtree | assembler.py:107-112 | The subtree's root is the given node. Every node's children are exactly its included children, strictly sorted by id, recursively. |
| Hierarchy.CollectRoots | assembler.py:115-120 | One well-built subtree per root. The root ids are exactly the included Levers whose parent is null or not included, each once. |
| Hierarchy.BuildForest | assembler.py:88-125 | The result is the well-built forest over the included nodes, with roots strictly sorted by id. |
| Hierarchy.SubtreeUnique | assembler.py:107-112 | Two well-built subtrees with the same root are equal. |
| Hierarchy.ForestUnique | assembler.py:88-125 | The forest is determined by the lookup and the included ids, whatever order the sets and dictionaries are iterated in. |
| Hierarchy.ForestListing | assembler.py:88-125 | No id appears twice in the forest. Every listed node is included and is the lookup's entry for its id. |
| Hierarchy.ForestSizeBound | assembler.py:84-125 | The forest has at most as many nodes as the included set. |
| Hierarchy.OrphanDropped | assembler.py:114-120 | A non-Lever node whose parent is null or excluded does not appear, and the forest is strictly smaller than the included set. |
| Hierarchy.TreeMembership | assembler.py:107-120 | A catalog node is in the forest exactly when it is included and its chain of included ancestors reaches a root. |
| Hierarchy.ChildListed | assembler.py:107-112 | An included node whose parent is in the forest is in the forest. |
| Hierarchy.PathToTop | assembler.py:107-112 | Every node of a subtree is included and is reached from the subtree's root by parent links through included nodes. |
| Hierarchy.RootsAreLevers | assembler.py:114-123 | Every root is a Lever whose parent is null or not included. |
| Hierarchy.ChildrenNameParent | assembler.py:107-112 | Every child names its tree parent as its parent. |
| Assembler.LevelCountExtremes | assembler.py:138-146 | A level's count is 0 exactly when no listed node sits at that level. It equals the number of nodes exactly when every node does. |
| Assembler.LevelCountsSum | assembler.py:138-146 | The four level counters sum to the number of nodes whose level is one of the four known levels. |
| Assembler.CountNode | assembler.py:138-146 | The if/elif chain adds one to the counter of the node's level, and nothing for an unknown level. |
| Assembler.CountLevels | assembler.py:137-149 | The recursion adds the level counts of the subtree's preorder listing. |
| Assembler.GetStatistics | assembler.py:127-154 | total_nodes is the tree's node count. Each level counter is the number of forest nodes at that level. |
| Assembler.StatisticsBound | assembler.py:127-154 | The level counters sum to at most the forest's size. |
| Assembler.FileNodes | assembler.py:23-24 | The loop stores each node under its id. Later nodes overwrite earlier ones, over the lookup it starts from. |
| Assembler.EligibleNodeIds | assembler.py:50-54 | The loop collects exactly the eligible ids. |
| Assembler.WalkFrom | assembler.py:58-71 | The loop adds the start id and the Active ids of its walk. |
| Assembler.WalkAncestors | assembler.py:57-71 | The loops produce exactly the included set. |
| Assembler.ValueTreeAssembler.constructor | assembler.py:14-18 | Keeps the loader. The lookup is the catalog's nodes by id when loaded, and empty otherwise. |
| Assembler.ValueTreeAssembler.BuildNodeLookup | assembler.py:20-24 | Adds the catalog's nodes by id to the lookup when loaded. |
| Assembler.ValueTreeAssembler.BuildHierarchy | assembler.py:88-125 | Returns the well-built forest over the requested ids present in the lookup, no larger than that set. The context is empty and the count is 0. |
| Assembler.ValueTreeAssembler.AssembleValueTree | assembler.py:26-86 | The threshold defaults to 3. The context echoes the four inputs. node_count is the size of the selected set, and every selected id is an Active catalog node. The roots form the well-built forest over the selected set. The forest is no larger than node_count, and strictly smaller when a selected node is orphaned. |

## Left out

- Reading the workbook. pandas, the Excel file and the file system become the `ReadOutcome` parameter of `Load`: the file is missing, unreadable, or opens with these sheets. Error messages other than the sheet-not-found text are constructors carrying their data, not formatted strings.
- The optional Value_Intent_Summary sheet and `get_value_intent_description`. They are presentation-only lookups outside the assembly core. In addition, `config.py` in this repository does not define the summary sheet's constant that the loader imports.
- The `node_master_df` and `context_df` properties, which raise when the loader is not loaded. The model reads the stored tables directly and states every operation's unloaded case.
- Floating-point cells. A weight cell is missing, an integer, or non-numeric. Python's `int()` truncation of a fractional weight is not modelled.
- Truthiness of `bool(...)`. Is_Leaf and Mandatory_Flag are `Option<bool>`, so `bool()` of a non-boolean cell is not modelled.
- Node_ID cells, which are non-null strings. The column's `dropna()` has no effect in the model.
- Iteration order of Python sets and dictionaries. `GroupByParent` and `CollectRoots` pick elements in an arbitrary order. `Hierarchy.ForestUnique` shows that the resulting forest does not depend on that order.
- Update in place of tree nodes. `BuildSubtree` builds each `ValueTreeNode` as a value and appends children by reassignment. No node is shared between subtrees, so there is no aliasing to lose.
- Python's recursion limit on deep hierarchies, and the walk's non-termination on a cyclic lookup. The model requires an acyclic lookup, which every validated catalog gives (`CatalogLookup.ConsistentCatalogAcyclic`).
- `app.py`, the web front end.
- Loader.DataLoader.Load: the class keeps the corrected flag, set exactly when the latest load succeeded. The code's behaviour lives only in `Loader.AfterLoadAsWritten` and `Loader.StaleLoadedFlag`: a failed reload after a good one stays loaded. The class never enters that state, because its invariant (loaded implies validated tables) would not hold there.
- Assembler.ValueTreeAssembler.AssembleValueTree: this holds only under the corrected `load`. With the flag as written, a failed reload can leave a lookup built from unvalidated tables (see Findings).

## Findings

| source | as written | input that shows it | evidently intended | confidence | as-written member | corrected member |
|---|---|---|---|---|---|---|
| data_loader.py:46-50 | `load` sets the loaded flag only on success and never clears it. A failed reload after a good one returns False but stays loaded. It keeps the rejected Node_Master and Context_Applicability tables it has just read. | A first load of a catalog with one Lever `L1` succeeds. A second load whose catalog lists `L1` twice fails with a duplicate error, yet remains loaded over the duplicated catalog. | The loaded flag means that the latest load succeeded, so the stored tables always passed validation. | not executed | Loader.StaleLoadedFlag | Loader.FailedReloadUnloads |
