/**
 * The steps of the per-feature loop that both scripts share: the primary
 * selection, count and write, and the loop that collects one second-level
 * count per primary neighbour.
 */
module FeatureSteps {
  import opened Results
  import opened Layers
  import opened WhereClauses
  import opened AdjacentSelectionClass
  import opened Adjacency

  /** The name under which each feature's neighbours are copied. */
  const TempFCName := "tempFC"

  /** The copy of the neighbours of `v` among `rows`, with the schema `tempFields`. */
  function TempCopy(shares: Shares, rows: seq<Id>, tempFields: seq<Field>, v: Id): FeatureClass {
    FeatureClass(tempFields, Filter(rows, Neighbours(shares, v, Members(rows))))
  }

  /**
   * Select the feature of focus by `OBJECTID=<id>`, select its neighbours in
   * the duplicate layer, count them and write the count to the focus.  The
   * layers come back with their new selections, as arcpy leaves them.
   */
  method PrimaryStep(shares: Shares, master: Layer, duplicate: Layer, id: Id)
    returns (focus: Layer, adjacent: Layer, writes: seq<Write>)
    requires HasField(master.fields, ObjectId) && Distinct(master.rows) && id in master.rows
    requires duplicate.rows == master.rows
    ensures focus == master.(selection := {id})
    ensures adjacent == duplicate.(selection := Neighbours(shares, id, Members(master.rows)))
    ensures writes == [Write(id, FirstLevelField, |Neighbours(shares, id, Members(master.rows))|)]
  {
    SelectByIdSelectsThatRow(master, ObjectId, id);
    focus := SelectByAttribute(master, WhereClause(ObjectId, id)).value;
    var selector := AdjacentSelection(focus, duplicate, FirstLevelField);
    adjacent := SelectAdjacent(selector, shares);
    SelectAdjacentIsNeighbours(selector, shares, id);
    CountIsSelectionSize(adjacent);
    var primary := GetCount(adjacent);
    assert primary == |Neighbours(shares, id, Members(master.rows))|;
    FilterSingleton(master.rows, id);
    writes := CalculateField(focus, FirstLevelField, primary);
    assert |writes| == 1 && writes[0] == Write(id, FirstLevelField, primary);
  }

  /**
   * For each ID of the temporary copy, in list order: select it by
   * `<idField>=<id>`, select its neighbours within the copy, and append their
   * count.  Exactly one entry per ID, each counting only features of the copy.
   */
  method SecondaryCounts(shares: Shares, tempMaster: Layer, tempDuplicate: Layer, idField: string, ids: seq<Id>)
    returns (counts: seq<nat>)
    requires HasField(tempMaster.fields, idField) && '=' !in idField
    requires Distinct(tempMaster.rows) && tempDuplicate.rows == tempMaster.rows
    requires forall i :: 0 <= i < |ids| ==> ids[i] in tempMaster.rows
    ensures counts == Counts(shares, ids, Members(tempMaster.rows))
  {
    counts := [];
    var duplicate := tempDuplicate;
    for i := 0 to |ids|
      invariant duplicate.rows == tempMaster.rows
      invariant |counts| == i
      invariant forall j :: 0 <= j < i ==> counts[j] == CountWithin(shares, ids[j], Members(tempMaster.rows))
    {
      SelectByIdSelectsThatRow(tempMaster, idField, ids[i]);
      var focus := SelectByAttribute(tempMaster, WhereClause(idField, ids[i])).value;
      var selector := AdjacentSelection(focus, duplicate, SecondLevelField);
      var adjacent := SelectAdjacent(selector, shares);
      SelectAdjacentIsNeighbours(selector, shares, ids[i]);
      CountIsSelectionSize(adjacent);
      counts := counts + [GetCount(adjacent)];
      duplicate := adjacent;
    }
  }
}
