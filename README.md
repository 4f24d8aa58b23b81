# Maximum adjacency determination, modelled in Dafny

The FourColorTheorem scripts compute two adjacency figures for every polygon
of a feature class and write them into two SHORT fields:

- **FirstLevelAdjacency** (primary): how many other features share a line
  segment with the feature of focus.
- **SecondLevelAdjacency** (secondary): the features found for the primary
  figure are copied to a temporary feature class, `tempFC`. For each feature
  of that copy, the script counts how many of the copy's features share a line
  segment with it. The largest of these counts is the secondary figure.

Both figures rest on `AdjacentSelectionClass.selectAdjacent`. It runs a
NEW_SELECTION of the candidates that share a line segment with the focus. It
then runs a REMOVE_FROM_SELECTION of the candidates identical to the focus.

Two versions of the driver script exist:

- `MaxAdjacencyDetermination1.py` writes `tempFC` to the workspace. It deletes
  the copy by name at the end of each iteration. Its second level reads the
  copy's `OBJECTID` column, with no fallback.
- `MaxAdjacencyDetermination2.py` writes `tempFC` to `in_memory`. It empties
  `in_memory` at the end of each iteration. Before reading the copy's ID
  column, it looks for `OBJECTID`, falls back to `OID`, and stops the run when
  neither exists.

The model, module by module:

- `Results`: `Option`, `Result`, and the errors that stop a run:
  - a missing cursor field;
  - "neither OBJECTID nor OID";
  - Python's `ValueError` from `max()` of an empty list;
  - a where clause that does not parse.
- `WhereClauses`: the text `<field>=<id>`. `str(ID)` becomes `Decimal`, which
  is proved invertible. Parsing a clause is proved to recover its field and ID.
- `Layers`: feature classes and layers as values. A layer is its fields, its
  rows in cursor order, and a selection. The module also has the arcpy tools
  the scripts call: MakeFeatureLayer, SelectLayerByAttribute, GetCount,
  CalculateField and FeatureClassToFeatureClass. A layer whose selection arcpy
  changes in place becomes a new value that the script's local variable is
  reassigned to.
- `Cursors`: the two `for … append` loops over a search cursor and over
  `desc.fields`. Both are methods with loop invariants.
- `AdjacentSelectionClass`: the class and `selectAdjacent`. The spatial
  predicate SHARE_A_LINE_SEGMENT_WITH is a parameter `shares(c, f)`, which is
  never assumed to be symmetric.
- `Adjacency`: the order-free reference definitions of the primary and
  secondary figures, Python's `max`, and `ExpectedRun`. `ExpectedRun` is the
  outcome of a whole run: the writes made in order, and how the run ends.
- `FeatureSteps`: the primary step and the second-level counting loop, which
  both scripts share.
- `MaxAdjacencyDetermination1` and `MaxAdjacencyDetermination2`: each script's
  per-feature loop, written as methods. Each is proved to produce
  `ExpectedRun`. Each is also proved to leave a stated final workspace.

A feature with no neighbours gives an empty list of second-level counts.
`max()` then raises a `ValueError`, nothing catches it, and the model ends the
run there. That feature keeps its primary write, and every earlier write
stays.

## Model

| member | source | states |
|---|---|---|
| WhereClauses.Decimal | MaxAdjacencyDetermination2.py:63 | `str(ID)`: a non-empty string of decimal digits, with a leading zero only for 0 |
| WhereClauses.ParseDecimalInvertsDecimal | MaxAdjacencyDetermination2.py:63 | reading the digits of `str(ID)` back gives ID, for every ID |
| WhereClauses.ParseWhereInvertsWhereClause | MaxAdjacencyDetermination2.py:61-63 | a clause `<field>=<id>`, for a field name without `=`, parses back to exactly that field and that ID |
| Layers.Filter | MaxAdjacencyDetermination2.py:83-88 | the rows a copy receives are exactly the selected rows, as a subsequence of the layer's rows (layer order kept); a copy of distinct rows has distinct rows |
| Layers.CountIsSelectionSize | MaxAdjacencyDetermination2.py:72 | GetCount of a layer with distinct rows is the size of its selection |
| Layers.FilterSingleton | MaxAdjacencyDetermination2.py:74-78 | a layer selected down to one existing ID gives exactly that row, so CalculateField writes only the feature of focus |
| Layers.SelectByIdSelectsThatRow | MaxAdjacencyDetermination2.py:61-63 | selecting by `<id field>=<ID>` with NEW_SELECTION succeeds and selects exactly the row with that ID, or nothing if there is none, and discards any earlier selection |
| Cursors.CollectIds | MaxAdjacencyDetermination2.py:49-56 | the cursor loop lists every row's ID once, in cursor order; a missing field raises the error before anything is appended |
| Cursors.FieldNames | MaxAdjacencyDetermination2.py:108-112 | the loop over `desc.fields` lists every field's name, in order |
| AdjacentSelectionClass.SelectAdjacent | AdjacentSelectionClass.py:17-32 | the candidate layer comes back with the same rows; exactly the candidates that share a line segment with a focus feature and are not a focus feature are selected |
| AdjacentSelectionClass.NewSelectionIgnoresEarlierSelection | AdjacentSelectionClass.py:20-24 | NEW_SELECTION: what the candidate layer had selected before does not change the result |
| AdjacentSelectionClass.FieldNameIsUnused | AdjacentSelectionClass.py:12-15 | the stored field name has no effect on the selection |
| Adjacency.SelectAdjacentIsNeighbours | MaxAdjacencyDetermination2.py:66-69 | with one feature of focus, `selectAdjacent` selects exactly that feature's neighbours, the focus excluded |
| Adjacency.CountWithinBelowPrimary | MaxAdjacencyDetermination2.py:139-146 | a second-level count never counts its own focus, so it is at most primary - 1 |
| Adjacency.MaxOf | MaxAdjacencyDetermination2.py:148 | Python's `max`: fails with ValueError exactly on the empty list; otherwise returns an entry of the list that no entry exceeds |
| Adjacency.SecondaryFailsIffIsolated | MaxAdjacencyDetermination2.py:148 | `max()` of the second-level counts fails exactly when the feature has no neighbours, and then with ValueError |
| Adjacency.SecondaryIsLargestCount | MaxAdjacencyDetermination2.py:134-148 | when it succeeds, the secondary figure is the largest second-level count over the neighbours, as an order-free set definition states it, and it is at most primary - 1 |
| Adjacency.MaxOfCountsIgnoresOrder | MaxAdjacencyDetermination2.py:134-148 | `max` of the second-level counts is the same for any two lists of the same features, whatever their order |
| Adjacency.AnyOrderGivesSecondary | MaxAdjacencyDetermination2.py:83-148 | counting inside a copy that holds exactly the neighbours gives the secondary figure, whatever order the copy lists them in |
| Adjacency.CopyOfNeighboursGivesSecondary | MaxAdjacencyDetermination2.py:83-146 | in particular, counting inside the copy FeatureClassToFeatureClass makes, in its own order, gives the secondary figure |
| Adjacency.FirstIsolated | MaxAdjacencyDetermination2.py:58-148 | the position of the first feature without neighbours: every earlier feature has neighbours, and the feature found has none |
| Adjacency.LoopGivesExpectedRun | MaxAdjacencyDetermination2.py:58-157 | a loop that processed i features and then either finished or stopped on feature i gives exactly the expected outcome of the run |
| Adjacency.WritesPairUp | MaxAdjacencyDetermination2.py:58-154 | with no isolated feature, each feature gets two writes in cursor order: its primary figure, then its secondary figure |
| Adjacency.CompletedRunWritesBothMetrics | MaxAdjacencyDetermination2.py:58-157 | a completed run counts every feature and writes, for each in cursor order, its neighbour count and then the largest second-level count, which is at most primary - 1 |
| Adjacency.AbortedRunKeepsEarlierWrites | MaxAdjacencyDetermination2.py:49-157 | a stopped run writes nothing exactly when OBJECTID is missing; otherwise it keeps the full writes of the earlier features plus the last feature's primary write, without rollback |
| Adjacency.IsolatedFeatureStopsRun | MaxAdjacencyDetermination2.py:148 | the run stops with ValueError exactly when some feature has no neighbours and the copy's ID field is found, and it stops at the first such feature |
| FeatureSteps.PrimaryStep | MaxAdjacencyDetermination2.py:58-78 | the focus layer selects exactly the ID, the duplicate selects exactly its neighbours, and one write of the neighbour count goes to that feature |
| FeatureSteps.SecondaryCounts | MaxAdjacencyDetermination2.py:134-146 | one count per ID of the copy, in list order, each counting that ID's neighbours within the copy |
| MaxAdjacencyDetermination2.ResolveIdField | MaxAdjacencyDetermination2.py:113-120 | OBJECTID when the copy has it, else OID when the copy has it, else the "neither exists" error; a chosen field is always present |
| MaxAdjacencyDetermination2.SecondLevel | MaxAdjacencyDetermination2.py:92-148 | the second level over the copy: the error of a missing ID field, else `max` of the counts over the copy's rows |
| MaxAdjacencyDetermination2.ProcessFeature | MaxAdjacencyDetermination2.py:58-156 | one iteration: the primary write; then either both writes and an emptied `in_memory`, or the stopping error with the copy left behind |
| MaxAdjacencyDetermination2.Advance | MaxAdjacencyDetermination2.py:58-157 | one iteration takes the loop from "i features done" to "i + 1 done", or to "stopped at feature i" |
| MaxAdjacencyDetermination2.ProcessFeatures | MaxAdjacencyDetermination2.py:58-157 | the loop ends with every feature processed or stopped at one feature, with the writes and `in_memory` of that state |
| MaxAdjacencyDetermination2.Run | MaxAdjacencyDetermination2.py:49-157 | the run's outcome is `ExpectedRun` with the OBJECTID/OID check, and `in_memory` ends as stated |
| MaxAdjacencyDetermination1.SecondLevel | MaxAdjacencyDetermination1.py:88-127 | the second level over the copy: the missing-OBJECTID error, else `max` of the counts over the copy's rows |
| MaxAdjacencyDetermination1.ProcessFeature | MaxAdjacencyDetermination1.py:57-135 | one iteration: the primary write; then either both writes with `tempFC` deleted from the workspace, or the stopping error with `tempFC` left behind |
| MaxAdjacencyDetermination1.Advance | MaxAdjacencyDetermination1.py:57-136 | one iteration takes the loop from "i features done" to "i + 1 done", or to "stopped at feature i" |
| MaxAdjacencyDetermination1.ProcessFeatures | MaxAdjacencyDetermination1.py:57-136 | the loop ends with every feature processed or stopped at one feature, with the writes and workspace of that state |
| MaxAdjacencyDetermination1.Run | MaxAdjacencyDetermination1.py:48-136 | the run's outcome is `ExpectedRun` with the OBJECTID-only check, and the workspace ends as stated, with every entry other than `tempFC` unchanged |

## Left out

- Geometry and the arcpy geoprocessing engine are left out. SHARE_A_LINE_SEGMENT_WITH is the parameter `shares`. ARE_IDENTICAL_TO is taken to mean "has the focus's ID".
- The copy made by FeatureClassToFeatureClass renumbers object IDs. The model keeps each feature's ID in the copy. A one-to-one renumbering changes no count.
- The schema a copy receives is an input (`tempFields`). Which schemas arcpy gives a workspace or `in_memory` copy is not part of this model.
- arcpy treats a layer with an empty selection as "all rows" in some tools. This rule is not modelled. The model assumes that an emptied selection counts as 0 in GetCount and that FeatureClassToFeatureClass then writes an empty `tempFC`. An emptied selection arises whenever `selectAdjacent`'s REMOVE_FROM_SELECTION leaves nothing: for an isolated feature at the first level, and for a neighbour with no neighbour inside the copy at the second level. The `ValueError` outcome for an isolated feature and the `primary - 1` bound on the secondary figure both rest on this assumption.
- The text round trip of GetCount's result object (`str`, then `int`) is taken as the count itself.
- The written values are unbounded naturals. The 16-bit width of the SHORT fields is not modelled.
- AddField, AddMessage and AddWarning are left out: they are output and schema set-up only.
- `sys.exit` and the uncaught `ValueError` both become an `Aborted` outcome.
- The workspace switch at MaxAdjacencyDetermination2.py:91 and the environment settings are left out.
- The `arcpy.Exists("tempFC")` test is left out, and so is its `sys.exit` branch. The copy is always written just before the test.
- The `except` branch of script 2's second cursor is left out. That cursor reads a field just found in the copy's schema, so it cannot fail.
- The source's closing TODO comment (MaxAdjacencyDetermination2.py:160) marks no code; nothing follows the loop.
