/**
 * AdjacentSelectionClass: built from the focus layer (whose selection is the
 * feature of focus), the candidate layer and a field name, it selects in the
 * candidate layer every feature that shares a line segment with the focus and
 * then removes from that selection the focus itself.  "Identical to the focus"
 * is taken to mean "has the focus's ID".
 */
module AdjacentSelectionClass {
  import opened Layers

  /** The three constructor arguments, kept unchanged as fields. */
  datatype AdjacentSelection =
    AdjacentSelection(masterFeatureLayer: Layer, duplicateFeatureLayer: Layer, fieldName: string)

  /** First step, NEW_SELECTION: candidates sharing a line segment with some selected focus feature. */
  function ShareSelection(s: AdjacentSelection, shares: Shares): set<Id> {
    set c | c in s.duplicateFeatureLayer.rows
          && exists f :: f in s.masterFeatureLayer.selection && shares(c, f)
  }

  /**
   * selectAdjacent: the candidate layer with its selection replaced by the
   * first step's result minus the focus features (REMOVE_FROM_SELECTION).
   */
  function SelectAdjacent(s: AdjacentSelection, shares: Shares): (r: Layer)
    ensures r.fields == s.duplicateFeatureLayer.fields && r.rows == s.duplicateFeatureLayer.rows
    ensures r.selection <= Members(s.duplicateFeatureLayer.rows)
    ensures forall c :: c in r.selection ==>
              exists f :: f in s.masterFeatureLayer.selection && shares(c, f)
    ensures r.selection !! s.masterFeatureLayer.selection
    ensures r.selection <= ShareSelection(s, shares)
    ensures forall c :: c in s.duplicateFeatureLayer.rows && c !in s.masterFeatureLayer.selection
              && (exists f :: f in s.masterFeatureLayer.selection && shares(c, f))
              ==> c in r.selection
  {
    var first := s.duplicateFeatureLayer.(selection := ShareSelection(s, shares));
    first.(selection := first.selection - s.masterFeatureLayer.selection)
  }

  /** NEW_SELECTION: whatever the candidate layer had selected before has no effect. */
  lemma NewSelectionIgnoresEarlierSelection(s: AdjacentSelection, shares: Shares, earlier: set<Id>)
    ensures SelectAdjacent(s.(duplicateFeatureLayer := s.duplicateFeatureLayer.(selection := earlier)), shares)
         == SelectAdjacent(s, shares)
  {
  }

  /** The field name is stored but never read. */
  lemma FieldNameIsUnused(s: AdjacentSelection, shares: Shares, name: string)
    ensures SelectAdjacent(s.(fieldName := name), shares) == SelectAdjacent(s, shares)
  {
  }
}
