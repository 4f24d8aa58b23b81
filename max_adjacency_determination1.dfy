/**
 * MaxAdjacencyDetermination1, the earlier version of the run: the temporary
 * copy is written to the workspace under the name tempFC (overwriting any
 * earlier one) and deleted by that name at the end of each iteration, and
 * the second level reads its IDs from OBJECTID with no fallback.
 */
module MaxAdjacencyDetermination1 {
  import opened Results
  import opened Layers
  import opened Cursors
  import opened Adjacency
  import opened FeatureSteps

  /** The error the copy's schema raises at the second level, if any. */
  function TempIdCheck(tempFields: seq<Field>): Option<Error> {
    if HasField(tempFields, ObjectId) then None else Some(MissingField(ObjectId))
  }

  /**
   * The second level for one feature, on its temporary copy `temp`: list the
   * copy's OBJECTIDs, count each one's neighbours within the copy, and take
   * the max of the counts.
   */
  method SecondLevel(shares: Shares, temp: FeatureClass) returns (r: Result<nat>)
    requires Distinct(temp.rows)
    ensures TempIdCheck(temp.fields).Some? ==> r == Err(TempIdCheck(temp.fields).value)
    ensures TempIdCheck(temp.fields).None? ==> r == MaxOf(Counts(shares, temp.rows, Members(temp.rows)))
  {
    var tempMaster := MakeFeatureLayer(temp);
    var tempDuplicate := MakeFeatureLayer(temp);
    var ids := CollectIds(tempMaster, ObjectId);
    if ids.Err? {
      return Err(ids.error);
    }
    var counts := SecondaryCounts(shares, tempMaster, tempDuplicate, ObjectId, ids.value);
    r := MaxOf(counts);
  }

  /**
   * One iteration of the loop for feature `id`: the primary step, the copy of
   * its neighbours into the workspace as tempFC, the second level, the
   * secondary write and the deletion of tempFC; `stop` is the error that ends
   * the run here, if any (tempFC is then left behind).
   */
  method ProcessFeature(shares: Shares, fc: FeatureClass, master: Layer, duplicate: Layer, id: Id,
                        tempFields: seq<Field>, workspace: map<string, FeatureClass>)
    returns (focus: Layer, adjacent: Layer, writes: seq<Write>, stop: Option<Error>,
             workspaceAfter: map<string, FeatureClass>)
    requires Distinct(fc.rows) && id in fc.rows
    requires master.fields == fc.fields && master.rows == fc.rows && HasField(fc.fields, ObjectId)
    requires duplicate.rows == fc.rows
    ensures focus.fields == fc.fields && focus.rows == fc.rows && adjacent.rows == fc.rows
    ensures stop.None? ==> && TempIdCheck(tempFields).None?
                           && !Isolated(shares, id, fc.rows)
                           && writes == FeatureWrites(shares, fc.rows, id)
                           && workspaceAfter == workspace - {TempFCName}
    ensures stop.Some? ==>
              && writes == [Write(id, FirstLevelField, Primary(shares, id, fc.rows))]
              && (if TempIdCheck(tempFields).Some? then stop == TempIdCheck(tempFields)
                  else stop == Some(EmptySequence) && Isolated(shares, id, fc.rows))
              && workspaceAfter == workspace[TempFCName := TempCopy(shares, fc.rows, tempFields, id)]
  {
    var primaryWrites;
    focus, adjacent, primaryWrites := PrimaryStep(shares, master, duplicate, id);
    writes := primaryWrites;
    var temp := CopySelected(adjacent, tempFields);
    workspaceAfter := workspace[TempFCName := temp];
    var secondary := SecondLevel(shares, temp);
    CopyOfNeighboursGivesSecondary(shares, fc.rows, id);
    assert TempIdCheck(tempFields).None? ==> secondary == Secondary(shares, id, fc.rows);
    SecondaryFailsIffIsolated(shares, id, fc.rows);
    if secondary.Err? {
      stop := Some(secondary.error);
      return;
    }
    FilterSingleton(fc.rows, id);
    var secondaryWrites := CalculateField(focus, SecondLevelField, secondary.value);
    assert secondaryWrites == [Write(id, SecondLevelField, secondary.value)];
    writes := writes + secondaryWrites;
    stop := None;
    workspaceAfter := workspaceAfter - {TempFCName};
  }

  /** The workspace once the first `processed` features went through both levels: tempFC is deleted by name at the end of each iteration. */
  function WorkspaceAfter(workspace: map<string, FeatureClass>, processed: nat): map<string, FeatureClass> {
    if processed == 0 then workspace else workspace - {TempFCName}
  }

  /** The workspace once feature `processed` stopped the run: its copy is left behind as tempFC. */
  function WorkspaceAfterStop(shares: Shares, fc: FeatureClass, tempFields: seq<Field>,
                   workspace: map<string, FeatureClass>, processed: nat): map<string, FeatureClass>
    requires processed < |fc.rows|
  {
    (workspace - {TempFCName})[TempFCName := TempCopy(shares, fc.rows, tempFields, fc.rows[processed])]
  }

  /** The loop's state once the first `processed` features went through both levels. */
  ghost predicate Processed(shares: Shares, fc: FeatureClass, tempFields: seq<Field>,
                            workspace: map<string, FeatureClass>, processed: nat,
                            writes: seq<Write>, workspaceAfter: map<string, FeatureClass>)
  {
    && ProcessedWithoutStop(shares, fc.rows, TempIdCheck(tempFields), processed)
    && writes == Writes(shares, fc.rows, fc.rows[..processed])
    && workspaceAfter == WorkspaceAfter(workspace, processed)
  }

  /**
   * The loop's state once feature `processed` stopped the run with `e`, after
   * that feature's primary write.
   */
  ghost predicate Stopped(shares: Shares, fc: FeatureClass, tempFields: seq<Field>,
                          workspace: map<string, FeatureClass>, processed: nat, e: Error,
                          writes: seq<Write>, workspaceAfter: map<string, FeatureClass>)
  {
    && ProcessedWithoutStop(shares, fc.rows, TempIdCheck(tempFields), processed)
    && StopsAt(shares, fc.rows, TempIdCheck(tempFields), processed, e)
    && writes == Writes(shares, fc.rows, fc.rows[..processed])
                 + [Write(fc.rows[processed], FirstLevelField, Primary(shares, fc.rows[processed], fc.rows))]
    && workspaceAfter == WorkspaceAfterStop(shares, fc, tempFields, workspace, processed)
  }

  /** One pass of the loop body, on feature `processed`, read as a step between loop states. */
  method Advance(shares: Shares, fc: FeatureClass, master: Layer, duplicate: Layer, tempFields: seq<Field>,
                 workspace: map<string, FeatureClass>, processed: nat, writes: seq<Write>,
                 workspaceBefore: map<string, FeatureClass>)
    returns (focus: Layer, adjacent: Layer, writesAfter: seq<Write>, stop: Option<Error>,
             workspaceAfter: map<string, FeatureClass>)
    requires Distinct(fc.rows) && HasField(fc.fields, ObjectId) && processed < |fc.rows|
    requires master.fields == fc.fields && master.rows == fc.rows && duplicate.rows == fc.rows
    requires Processed(shares, fc, tempFields, workspace, processed, writes, workspaceBefore)
    ensures focus.fields == fc.fields && focus.rows == fc.rows && adjacent.rows == fc.rows
    ensures stop.None? ==> Processed(shares, fc, tempFields, workspace, processed + 1, writesAfter, workspaceAfter)
    ensures stop.Some? ==> Stopped(shares, fc, tempFields, workspace, processed, stop.value, writesAfter, workspaceAfter)
  {
    var featureWrites;
    focus, adjacent, featureWrites, stop, workspaceAfter :=
      ProcessFeature(shares, fc, master, duplicate, fc.rows[processed], tempFields, workspaceBefore);
    WritesExtend(shares, fc.rows, fc.rows, processed);
    writesAfter := writes + featureWrites;
    var copy := TempCopy(shares, fc.rows, tempFields, fc.rows[processed]);
    if stop.Some? {
      assert workspaceBefore[TempFCName := copy] == (workspace - {TempFCName})[TempFCName := copy];
    } else {
      assert (workspace - {TempFCName}) - {TempFCName} == workspace - {TempFCName};
    }
  }

  /**
   * The per-feature loop, over the IDs in cursor order.  `processed` features
   * went through both levels; `stop` is the error raised by the next one, if
   * any, after its primary write.
   */
  method ProcessFeatures(shares: Shares, fc: FeatureClass, ids: seq<Id>, tempFields: seq<Field>,
                         workspace: map<string, FeatureClass>)
    returns (processed: nat, writes: seq<Write>, stop: Option<Error>, workspaceAfter: map<string, FeatureClass>)
    requires Distinct(fc.rows) && HasField(fc.fields, ObjectId) && ids == fc.rows
    ensures stop.None? ==> && processed == |fc.rows| && writes == Writes(shares, fc.rows, fc.rows)
                           && Processed(shares, fc, tempFields, workspace, processed, writes, workspaceAfter)
    ensures stop.Some? ==> Stopped(shares, fc, tempFields, workspace, processed, stop.value, writes, workspaceAfter)
  {
    var master := MakeFeatureLayer(fc);
    var duplicate := MakeFeatureLayer(fc);
    workspaceAfter := workspace;
    writes := [];
    processed := 0;
    while processed < |ids|
      invariant processed <= |ids|
      invariant master.fields == fc.fields && master.rows == fc.rows && duplicate.rows == fc.rows
      invariant Processed(shares, fc, tempFields, workspace, processed, writes, workspaceAfter)
    {
      master, duplicate, writes, stop, workspaceAfter :=
        Advance(shares, fc, master, duplicate, tempFields, workspace, processed, writes, workspaceAfter);
      if stop.Some? {
        return;
      }
      processed := processed + 1;
    }
    assert fc.rows[..processed] == fc.rows;
    stop := None;
  }

  /**
   * The workspace a run leaves: after a completed run every other entry is
   * as it was and tempFC is gone; a run stopped inside the loop leaves the
   * last feature's copy behind as tempFC.
   */
  function ExpectedWorkspace(shares: Shares, fc: FeatureClass, tempFields: seq<Field>,
                             workspace: map<string, FeatureClass>): map<string, FeatureClass>
  {
    var outcome := ExpectedRun(shares, fc, TempIdCheck(tempFields));
    if outcome.Completed? then WorkspaceAfter(workspace, outcome.featureCount)
    else if outcome.featureCount == 0 then workspace
    else WorkspaceAfterStop(shares, fc, tempFields, workspace, outcome.featureCount - 1)
  }

  /**
   * The script's run over feature class `fc`.  `tempFields` is the schema a
   * copy receives in the workspace; `workspace` is the workspace before the
   * run and `workspaceAfter` what the run leaves in it.
   */
  method Run(shares: Shares, fc: FeatureClass, tempFields: seq<Field>, workspace: map<string, FeatureClass>)
    returns (outcome: RunOutcome, workspaceAfter: map<string, FeatureClass>)
    requires Distinct(fc.rows)
    ensures outcome == ExpectedRun(shares, fc, TempIdCheck(tempFields))
    ensures workspaceAfter == ExpectedWorkspace(shares, fc, tempFields, workspace)
  {
    var collected := CollectIds(MakeFeatureLayer(fc), ObjectId);
    if collected.Err? {
      return Aborted(collected.error, [], 0), workspace;
    }
    var processed, writes, stop;
    processed, writes, stop, workspaceAfter := ProcessFeatures(shares, fc, collected.value, tempFields, workspace);
    LoopGivesExpectedRun(shares, fc, TempIdCheck(tempFields), processed, stop);
    if stop.Some? {
      return Aborted(stop.value, writes, processed + 1), workspaceAfter;
    }
    return Completed(writes, processed), workspaceAfter;
  }
}
