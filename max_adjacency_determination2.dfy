/**
 * MaxAdjacencyDetermination2: for every feature, write its primary and
 * secondary adjacency.  The temporary copy lives in the in-memory workspace,
 * which is emptied at the end of each iteration, and the second level finds
 * its ID field by probing the copy's schema for OBJECTID, then OID.
 */
module MaxAdjacencyDetermination2 {
  import opened Results
  import opened Layers
  import opened Cursors
  import opened Adjacency
  import opened FeatureSteps

  /** OBJECTID if the schema has it, else OID, else no usable ID field. */
  function ResolveIdField(names: seq<string>): (r: Result<string>)
    ensures r == Ok(ObjectId) <==> ObjectId in names
    ensures r == Ok(Oid) <==> ObjectId !in names && Oid in names
    ensures r == Err(NoUniqueIdField) <==> ObjectId !in names && Oid !in names
    ensures r.Ok? ==> r.value in names
  {
    if ObjectId in names then Ok(ObjectId)
    else if Oid in names then Ok(Oid)
    else Err(NoUniqueIdField)
  }

  /** The error the copy's schema raises at the second level, if any. */
  function TempIdCheck(tempFields: seq<Field>): Option<Error> {
    match ResolveIdField(Names(tempFields))
    case Ok(_) => None
    case Err(e) => Some(e)
  }

  /**
   * The second level for one feature, on its temporary copy `temp`: find the
   * ID field, list the copy's IDs, count each one's neighbours within the
   * copy, and take the max of the counts.
   */
  method SecondLevel(shares: Shares, temp: FeatureClass) returns (r: Result<nat>)
    requires Distinct(temp.rows)
    ensures TempIdCheck(temp.fields).Some? ==> r == Err(TempIdCheck(temp.fields).value)
    ensures TempIdCheck(temp.fields).None? ==> r == MaxOf(Counts(shares, temp.rows, Members(temp.rows)))
  {
    var tempMaster := MakeFeatureLayer(temp);
    var tempDuplicate := MakeFeatureLayer(temp);
    var names := FieldNames(temp.fields);
    var idField := ResolveIdField(names);
    if idField.Err? {
      return Err(idField.error);
    }
    var ids := CollectIds(tempMaster, idField.value);
    var counts := SecondaryCounts(shares, tempMaster, tempDuplicate, idField.value, ids.value);
    r := MaxOf(counts);
  }

  /**
   * One iteration of the loop for feature `id`: the primary step, the copy of
   * its neighbours into the in-memory workspace, the second level, and the
   * secondary write; `stop` is the error that ends the run here, if any.
   */
  method ProcessFeature(shares: Shares, fc: FeatureClass, master: Layer, duplicate: Layer, id: Id,
                        tempFields: seq<Field>, inMemory: map<string, FeatureClass>)
    returns (focus: Layer, adjacent: Layer, writes: seq<Write>, stop: Option<Error>,
             inMemoryAfter: map<string, FeatureClass>)
    requires Distinct(fc.rows) && id in fc.rows
    requires master.fields == fc.fields && master.rows == fc.rows && HasField(fc.fields, ObjectId)
    requires duplicate.rows == fc.rows
    ensures focus.fields == fc.fields && focus.rows == fc.rows && adjacent.rows == fc.rows
    ensures stop.None? ==> && TempIdCheck(tempFields).None?
                           && !Isolated(shares, id, fc.rows)
                           && writes == FeatureWrites(shares, fc.rows, id)
                           && inMemoryAfter == map[]
    ensures stop.Some? ==>
              && writes == [Write(id, FirstLevelField, Primary(shares, id, fc.rows))]
              && (if TempIdCheck(tempFields).Some? then stop == TempIdCheck(tempFields)
                  else stop == Some(EmptySequence) && Isolated(shares, id, fc.rows))
              && inMemoryAfter == inMemory[TempFCName := TempCopy(shares, fc.rows, tempFields, id)]
  {
    var primaryWrites;
    focus, adjacent, primaryWrites := PrimaryStep(shares, master, duplicate, id);
    writes := primaryWrites;
    var temp := CopySelected(adjacent, tempFields);
    inMemoryAfter := inMemory[TempFCName := temp];
    var secondary := SecondLevel(shares, temp);
    CopyOfNeighboursGivesSecondary(shares, fc.rows, id);
    assert TempIdCheck(tempFields).None? ==> secondary == Secondary(shares, id, fc.rows);
    SecondaryFailsIffIsolated(shares, id, fc.rows);
    if secondary.Err? {
      stop := Some(secondary.error);
      return;
    }
    FilterSingleton(fc.rows, id);
    var secondaryWrites := CalculateField(focus, SecondLevelField, secondary.value);
    assert secondaryWrites == [Write(id, SecondLevelField, secondary.value)];
    writes := writes + secondaryWrites;
    stop := None;
    inMemoryAfter := map[];
  }

  /** The in-memory workspace once the first `processed` features went through both levels: tempFC is emptied at the end of each iteration. */
  function InMemoryAfter(inMemory: map<string, FeatureClass>, processed: nat): map<string, FeatureClass> {
    if processed == 0 then inMemory else map[]
  }

  /** The in-memory workspace once feature `processed` stopped the run: its copy is left behind as tempFC. */
  function InMemoryAfterStop(shares: Shares, fc: FeatureClass, tempFields: seq<Field>,
                   inMemory: map<string, FeatureClass>, processed: nat): map<string, FeatureClass>
    requires processed < |fc.rows|
  {
    InMemoryAfter(inMemory, processed)[TempFCName := TempCopy(shares, fc.rows, tempFields, fc.rows[processed])]
  }

  /** The loop's state once the first `processed` features went through both levels. */
  ghost predicate Processed(shares: Shares, fc: FeatureClass, tempFields: seq<Field>,
                            inMemory: map<string, FeatureClass>, processed: nat,
                            writes: seq<Write>, inMemoryAfter: map<string, FeatureClass>)
  {
    && ProcessedWithoutStop(shares, fc.rows, TempIdCheck(tempFields), processed)
    && writes == Writes(shares, fc.rows, fc.rows[..processed])
    && inMemoryAfter == InMemoryAfter(inMemory, processed)
  }

  /**
   * The loop's state once feature `processed` stopped the run with `e`, after
   * that feature's primary write.
   */
  ghost predicate Stopped(shares: Shares, fc: FeatureClass, tempFields: seq<Field>,
                          inMemory: map<string, FeatureClass>, processed: nat, e: Error,
                          writes: seq<Write>, inMemoryAfter: map<string, FeatureClass>)
  {
    && ProcessedWithoutStop(shares, fc.rows, TempIdCheck(tempFields), processed)
    && StopsAt(shares, fc.rows, TempIdCheck(tempFields), processed, e)
    && writes == Writes(shares, fc.rows, fc.rows[..processed])
                 + [Write(fc.rows[processed], FirstLevelField, Primary(shares, fc.rows[processed], fc.rows))]
    && inMemoryAfter == InMemoryAfterStop(shares, fc, tempFields, inMemory, processed)
  }

  /** One pass of the loop body, on feature `processed`, read as a step between loop states. */
  method Advance(shares: Shares, fc: FeatureClass, master: Layer, duplicate: Layer, tempFields: seq<Field>,
                 inMemory: map<string, FeatureClass>, processed: nat, writes: seq<Write>,
                 inMemoryBefore: map<string, FeatureClass>)
    returns (focus: Layer, adjacent: Layer, writesAfter: seq<Write>, stop: Option<Error>,
             inMemoryAfter: map<string, FeatureClass>)
    requires Distinct(fc.rows) && HasField(fc.fields, ObjectId) && processed < |fc.rows|
    requires master.fields == fc.fields && master.rows == fc.rows && duplicate.rows == fc.rows
    requires Processed(shares, fc, tempFields, inMemory, processed, writes, inMemoryBefore)
    ensures focus.fields == fc.fields && focus.rows == fc.rows && adjacent.rows == fc.rows
    ensures stop.None? ==> Processed(shares, fc, tempFields, inMemory, processed + 1, writesAfter, inMemoryAfter)
    ensures stop.Some? ==> Stopped(shares, fc, tempFields, inMemory, processed, stop.value, writesAfter, inMemoryAfter)
  {
    var featureWrites;
    focus, adjacent, featureWrites, stop, inMemoryAfter :=
      ProcessFeature(shares, fc, master, duplicate, fc.rows[processed], tempFields, inMemoryBefore);
    WritesExtend(shares, fc.rows, fc.rows, processed);
    writesAfter := writes + featureWrites;
  }

  /**
   * The per-feature loop, over the IDs in cursor order.  `processed` features
   * went through both levels; `stop` is the error raised by the next one, if
   * any, after its primary write.
   */
  method ProcessFeatures(shares: Shares, fc: FeatureClass, ids: seq<Id>, tempFields: seq<Field>,
                         inMemory: map<string, FeatureClass>)
    returns (processed: nat, writes: seq<Write>, stop: Option<Error>, inMemoryAfter: map<string, FeatureClass>)
    requires Distinct(fc.rows) && HasField(fc.fields, ObjectId) && ids == fc.rows
    ensures stop.None? ==> && processed == |fc.rows| && writes == Writes(shares, fc.rows, fc.rows)
                           && Processed(shares, fc, tempFields, inMemory, processed, writes, inMemoryAfter)
    ensures stop.Some? ==> Stopped(shares, fc, tempFields, inMemory, processed, stop.value, writes, inMemoryAfter)
  {
    var master := MakeFeatureLayer(fc);
    var duplicate := MakeFeatureLayer(fc);
    inMemoryAfter := inMemory;
    writes := [];
    processed := 0;
    while processed < |ids|
      invariant processed <= |ids|
      invariant master.fields == fc.fields && master.rows == fc.rows && duplicate.rows == fc.rows
      invariant Processed(shares, fc, tempFields, inMemory, processed, writes, inMemoryAfter)
    {
      master, duplicate, writes, stop, inMemoryAfter :=
        Advance(shares, fc, master, duplicate, tempFields, inMemory, processed, writes, inMemoryAfter);
      if stop.Some? {
        return;
      }
      processed := processed + 1;
    }
    assert fc.rows[..processed] == fc.rows;
    stop := None;
  }

  /**
   * The in-memory workspace a run leaves: emptied once a feature completes
   * its iteration; a run stopped inside the loop leaves the last feature's
   * copy behind as tempFC.
   */
  function ExpectedInMemory(shares: Shares, fc: FeatureClass, tempFields: seq<Field>,
                            inMemory: map<string, FeatureClass>): map<string, FeatureClass>
  {
    var outcome := ExpectedRun(shares, fc, TempIdCheck(tempFields));
    if outcome.Completed? then InMemoryAfter(inMemory, outcome.featureCount)
    else if outcome.featureCount == 0 then inMemory
    else InMemoryAfterStop(shares, fc, tempFields, inMemory, outcome.featureCount - 1)
  }

  /**
   * The script's run over feature class `fc`.  `tempFields` is the schema an
   * in-memory copy receives; `inMemory` is the in-memory workspace before the
   * run, and `inMemoryAfter` what the run leaves in it.
   */
  method Run(shares: Shares, fc: FeatureClass, tempFields: seq<Field>, inMemory: map<string, FeatureClass>)
    returns (outcome: RunOutcome, inMemoryAfter: map<string, FeatureClass>)
    requires Distinct(fc.rows)
    ensures outcome == ExpectedRun(shares, fc, TempIdCheck(tempFields))
    ensures inMemoryAfter == ExpectedInMemory(shares, fc, tempFields, inMemory)
  {
    var collected := CollectIds(MakeFeatureLayer(fc), ObjectId);
    if collected.Err? {
      return Aborted(collected.error, [], 0), inMemory;
    }
    var processed, writes, stop;
    processed, writes, stop, inMemoryAfter := ProcessFeatures(shares, fc, collected.value, tempFields, inMemory);
    LoopGivesExpectedRun(shares, fc, TempIdCheck(tempFields), processed, stop);
    if stop.Some? {
      return Aborted(stop.value, writes, processed + 1), inMemoryAfter;
    }
    return Completed(writes, processed), inMemoryAfter;
  }
}
