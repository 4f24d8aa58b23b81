/**
 * The two-level adjacency metric the scripts compute for each feature v:
 * primary = the number of features sharing a line segment with v;
 * secondary = the largest number, over the neighbours u of v, of neighbours
 * of v that share a line segment with u.  Also the outcome of a whole run:
 * the field writes made and how the run ends.
 */
module Adjacency {
  import opened Results
  import opened Layers
  import opened AdjacentSelectionClass

  /** The fields the scripts add to the feature class and fill. */
  const FirstLevelField := "FirstLevelAdjacency"
  const SecondLevelField := "SecondLevelAdjacency"

  /** The features of `universe`, other than v itself, that share a line segment with v. */
  function Neighbours(shares: Shares, v: Id, universe: set<Id>): set<Id> {
    set c | c in universe && shares(c, v) && c != v
  }

  /** With one feature of focus, selectAdjacent selects exactly that feature's neighbours. */
  lemma SelectAdjacentIsNeighbours(s: AdjacentSelection, shares: Shares, v: Id)
    requires s.masterFeatureLayer.selection == {v}
    ensures SelectAdjacent(s, shares).selection == Neighbours(shares, v, Members(s.duplicateFeatureLayer.rows))
  {
    var r := SelectAdjacent(s, shares).selection;
    var n := Neighbours(shares, v, Members(s.duplicateFeatureLayer.rows));
    forall c | c in n ensures c in r {
      assert v in s.masterFeatureLayer.selection && shares(c, v);
    }
  }

  function Primary(shares: Shares, v: Id, rows: seq<Id>): nat {
    |Neighbours(shares, v, Members(rows))|
  }

  predicate Isolated(shares: Shares, v: Id, rows: seq<Id>) {
    Neighbours(shares, v, Members(rows)) == {}
  }

  /** The second-level count of u: its neighbours inside the neighbourhood `nbhd`. */
  function CountWithin(shares: Shares, u: Id, nbhd: set<Id>): nat {
    |Neighbours(shares, u, nbhd)|
  }

  lemma SubsetCardinality(a: set<Id>, b: set<Id>)
    requires a <= b
    ensures |a| <= |b|
  {
    assert b == a + (b - a);
  }

  /** A neighbour never counts itself, so its count is at most primary - 1. */
  lemma CountWithinBelowPrimary(shares: Shares, u: Id, nbhd: set<Id>)
    requires u in nbhd
    ensures CountWithin(shares, u, nbhd) <= |nbhd| - 1
  {
    SubsetCardinality(Neighbours(shares, u, nbhd), nbhd - {u});
  }

  /** The list of second-level counts, one per neighbour in `order`. */
  function Counts(shares: Shares, order: seq<Id>, nbhd: set<Id>): seq<nat> {
    seq(|order|, i requires 0 <= i < |order| => CountWithin(shares, order[i], nbhd))
  }

  /** Python's max() of a list: its largest entry, or a ValueError for an empty list. */
  function MaxOf(s: seq<nat>): (r: Result<nat>)
    ensures r.Err? <==> s == []
    ensures r.Err? ==> r.error == EmptySequence
    ensures r.Ok? ==> r.value in s && forall i :: 0 <= i < |s| ==> s[i] <= r.value
  {
    if s == [] then Err(EmptySequence)
    else if |s| == 1 then Ok(s[0])
    else
      var m := MaxOf(s[1..]).value;
      Ok(if s[0] >= m then s[0] else m)
  }

  /**
   * The secondary value as the scripts compute it: the max of the counts
   * taken over v's neighbours in the order the temporary copy lists them.
   */
  function Secondary(shares: Shares, v: Id, rows: seq<Id>): Result<nat> {
    var nbhd := Neighbours(shares, v, Members(rows));
    MaxOf(Counts(shares, Filter(rows, nbhd), nbhd))
  }

  /** Order-free reference: m is the largest second-level count among v's neighbours. */
  ghost predicate IsLargestCount(shares: Shares, v: Id, rows: seq<Id>, m: nat) {
    var nbhd := Neighbours(shares, v, Members(rows));
    && (forall u :: u in nbhd ==> CountWithin(shares, u, nbhd) <= m)
    && (exists u :: u in nbhd && CountWithin(shares, u, nbhd) == m)
  }

  /** max() of the counts fails exactly for a feature with no neighbours, and then with a ValueError. */
  lemma SecondaryFailsIffIsolated(shares: Shares, v: Id, rows: seq<Id>)
    ensures Secondary(shares, v, rows).Err? <==> Isolated(shares, v, rows)
    ensures Secondary(shares, v, rows).Err? ==> Secondary(shares, v, rows).error == EmptySequence
  {
    var nbhd := Neighbours(shares, v, Members(rows));
    var order := Filter(rows, nbhd);
    assert Members(order) == nbhd;
    NoMembersIsEmpty(order);
    assert |Counts(shares, order, nbhd)| == |order|;
  }

  lemma SecondaryIsLargestCount(shares: Shares, v: Id, rows: seq<Id>)
    ensures Secondary(shares, v, rows).Err? <==> Isolated(shares, v, rows)
    ensures Secondary(shares, v, rows).Err? ==> Secondary(shares, v, rows).error == EmptySequence
    ensures Secondary(shares, v, rows).Ok? ==>
              && IsLargestCount(shares, v, rows, Secondary(shares, v, rows).value)
              && Secondary(shares, v, rows).value <= Primary(shares, v, rows) - 1
  {
    var nbhd := Neighbours(shares, v, Members(rows));
    var order := Filter(rows, nbhd);
    var counts := Counts(shares, order, nbhd);
    assert Members(order) == nbhd;
    SecondaryFailsIffIsolated(shares, v, rows);
    var r := MaxOf(counts);
    if r.Ok? {
      var m := r.value;
      forall u | u in nbhd ensures CountWithin(shares, u, nbhd) <= m {
        var i :| 0 <= i < |order| && order[i] == u;
        assert counts[i] == CountWithin(shares, u, nbhd);
      }
      var i :| 0 <= i < |counts| && counts[i] == m;
      assert order[i] in nbhd;
      CountWithinBelowPrimary(shares, order[i], nbhd);
    }
  }

  /** The max of the counts depends only on which features are listed, not on their order. */
  lemma MaxOfCountsIgnoresOrder(shares: Shares, a: seq<Id>, b: seq<Id>, nbhd: set<Id>)
    requires Members(a) == Members(b)
    ensures MaxOf(Counts(shares, a, nbhd)) == MaxOf(Counts(shares, b, nbhd))
  {
    var ca := Counts(shares, a, nbhd);
    var cb := Counts(shares, b, nbhd);
    NoMembersIsEmpty(a);
    NoMembersIsEmpty(b);
    if a != [] {
      var ma := MaxOf(ca).value;
      var mb := MaxOf(cb).value;
      var i :| 0 <= i < |ca| && ca[i] == ma;
      assert a[i] in Members(b);
      var j :| 0 <= j < |b| && b[j] == a[i];
      assert cb[j] == ma;
      var k :| 0 <= k < |cb| && cb[k] == mb;
      assert b[k] in Members(a);
      var l :| 0 <= l < |a| && a[l] == b[k];
      assert ca[l] == mb;
    }
  }

  /**
   * Counting within a copy of v's neighbours gives v's secondary value,
   * whatever order the copy lists them in.
   */
  lemma AnyOrderGivesSecondary(shares: Shares, v: Id, rows: seq<Id>, order: seq<Id>)
    requires Members(order) == Neighbours(shares, v, Members(rows))
    ensures MaxOf(Counts(shares, order, Members(order))) == Secondary(shares, v, rows)
  {
    var nbhd := Neighbours(shares, v, Members(rows));
    assert Members(Filter(rows, nbhd)) == nbhd;
    MaxOfCountsIgnoresOrder(shares, order, Filter(rows, nbhd), nbhd);
  }

  /** In particular, counting within the copy FeatureClassToFeatureClass makes, in its own order. */
  lemma CopyOfNeighboursGivesSecondary(shares: Shares, rows: seq<Id>, v: Id)
    ensures var copy := Filter(rows, Neighbours(shares, v, Members(rows)));
            MaxOf(Counts(shares, copy, Members(copy))) == Secondary(shares, v, rows)
  {
    var nbhd := Neighbours(shares, v, Members(rows));
    assert Members(Filter(rows, nbhd)) == nbhd;
    AnyOrderGivesSecondary(shares, v, rows, Filter(rows, nbhd));
  }

  /** The CalculateField writes one feature receives: primary, then secondary when max() succeeds. */
  function FeatureWrites(shares: Shares, rows: seq<Id>, v: Id): seq<Write> {
    [Write(v, FirstLevelField, Primary(shares, v, rows))]
    + match Secondary(shares, v, rows)
      case Ok(m) => [Write(v, SecondLevelField, m)]
      case Err(_) => []
  }

  /** The writes of processing `ids` in order, every feature reaching its secondary step. */
  function Writes(shares: Shares, rows: seq<Id>, ids: seq<Id>): seq<Write> {
    if ids == [] then []
    else Writes(shares, rows, ids[..|ids| - 1]) + FeatureWrites(shares, rows, ids[|ids| - 1])
  }

  /** The position of the first isolated feature in `ids`, or |ids| when there is none. */
  function FirstIsolated(shares: Shares, rows: seq<Id>, ids: seq<Id>): (k: nat)
    ensures k <= |ids|
    ensures forall i :: 0 <= i < k ==> !Isolated(shares, ids[i], rows)
    ensures k < |ids| ==> Isolated(shares, ids[k], rows)
  {
    if ids == [] then 0
    else if Isolated(shares, ids[0], rows) then 0
    else 1 + FirstIsolated(shares, rows, ids[1..])
  }

  /**
   * How a run ends: every feature processed, or stopped by `error`; either
   * way the writes already made stay (there is no rollback), and
   * `featureCount` is the script's intFeatureCount at that point.
   */
  datatype RunOutcome =
    | Completed(writes: seq<Write>, featureCount: nat)
    | Aborted(error: Error, writes: seq<Write>, featureCount: nat)

  /**
   * The outcome of a run over feature class `fc`.  `tempCheck` is the error,
   * if any, that the schema of the temporary copy causes when the second
   * level looks for its ID field; it surfaces on the first feature, after that
   * feature's primary write.
   */
  function ExpectedRun(shares: Shares, fc: FeatureClass, tempCheck: Option<Error>): (r: RunOutcome)
    ensures r.featureCount <= |fc.rows|
  {
    if !HasField(fc.fields, ObjectId) then Aborted(MissingField(ObjectId), [], 0)
    else if fc.rows != [] && tempCheck.Some? then
      Aborted(tempCheck.value, [Write(fc.rows[0], FirstLevelField, Primary(shares, fc.rows[0], fc.rows))], 1)
    else
      var k := FirstIsolated(shares, fc.rows, fc.rows);
      if k == |fc.rows| then Completed(Writes(shares, fc.rows, fc.rows), |fc.rows|)
      else Aborted(EmptySequence, Writes(shares, fc.rows, fc.rows[..k + 1]), k + 1)
  }

  /** One more feature processed: its writes follow those of the features before it. */
  lemma WritesExtend(shares: Shares, rows: seq<Id>, ids: seq<Id>, i: nat)
    requires i < |ids|
    ensures Writes(shares, rows, ids[..i + 1]) == Writes(shares, rows, ids[..i]) + FeatureWrites(shares, rows, ids[i])
  {
    assert ids[..i + 1][..i] == ids[..i];
  }

  /** The first i features went through both levels and none of them stopped the run. */
  ghost predicate ProcessedWithoutStop(shares: Shares, rows: seq<Id>, tempCheck: Option<Error>, i: nat) {
    && i <= |rows|
    && (forall j :: 0 <= j < i ==> !Isolated(shares, rows[j], rows))
    && (i > 0 ==> tempCheck.None?)
  }

  /** Feature i stops the run with error e: the copy's schema on the first feature, else isolation. */
  ghost predicate StopsAt(shares: Shares, rows: seq<Id>, tempCheck: Option<Error>, i: nat, e: Error) {
    && i < |rows|
    && if tempCheck.Some? then i == 0 && e == tempCheck.value
       else e == EmptySequence && Isolated(shares, rows[i], rows)
  }

  /** What the per-feature loop has done, read as the outcome of the run. */
  lemma LoopGivesExpectedRun(shares: Shares, fc: FeatureClass, tempCheck: Option<Error>, i: nat, stop: Option<Error>)
    requires HasField(fc.fields, ObjectId) && ProcessedWithoutStop(shares, fc.rows, tempCheck, i)
    requires stop.None? ==> i == |fc.rows|
    requires stop.Some? ==> StopsAt(shares, fc.rows, tempCheck, i, stop.value)
    ensures ExpectedRun(shares, fc, tempCheck)
         == if stop.None? then Completed(Writes(shares, fc.rows, fc.rows), i)
            else Aborted(stop.value,
                         Writes(shares, fc.rows, fc.rows[..i])
                           + [Write(fc.rows[i], FirstLevelField, Primary(shares, fc.rows[i], fc.rows))],
                         i + 1)
  {
    var k := FirstIsolated(shares, fc.rows, fc.rows);
    if stop.None? {
      assert k == |fc.rows|;
    } else if tempCheck.Some? {
      assert fc.rows[..i] == [];
    } else {
      assert k == i;
      WritesExtend(shares, fc.rows, fc.rows, i);
      SecondaryFailsIffIsolated(shares, fc.rows[i], fc.rows);
      assert FeatureWrites(shares, fc.rows, fc.rows[i])
          == [Write(fc.rows[i], FirstLevelField, Primary(shares, fc.rows[i], fc.rows))];
    }
  }

  lemma {:induction false} WritesPairUp(shares: Shares, rows: seq<Id>, ids: seq<Id>)
    requires forall i :: 0 <= i < |ids| ==> !Isolated(shares, ids[i], rows)
    ensures |Writes(shares, rows, ids)| == 2 * |ids|
    ensures forall i :: 0 <= i < |ids| ==>
              && Writes(shares, rows, ids)[2 * i] == Write(ids[i], FirstLevelField, Primary(shares, ids[i], rows))
              && Writes(shares, rows, ids)[2 * i + 1].id == ids[i]
              && Writes(shares, rows, ids)[2 * i + 1].field == SecondLevelField
              && Ok(Writes(shares, rows, ids)[2 * i + 1].value) == Secondary(shares, ids[i], rows)
  {
    if ids != [] {
      var n := |ids| - 1;
      var front := ids[..n];
      WritesPairUp(shares, rows, front);
      SecondaryFailsIffIsolated(shares, ids[n], rows);
      var w := Writes(shares, rows, ids);
      assert w == Writes(shares, rows, front) + FeatureWrites(shares, rows, ids[n]);
      forall i | 0 <= i < |ids|
        ensures w[2 * i] == Write(ids[i], FirstLevelField, Primary(shares, ids[i], rows))
        ensures w[2 * i + 1].id == ids[i] && w[2 * i + 1].field == SecondLevelField
        ensures Ok(w[2 * i + 1].value) == Secondary(shares, ids[i], rows)
      {
        if i < n {
          assert ids[i] == front[i];
        }
      }
    }
  }

  /**
   * A run that completes writes, for each feature in cursor order, its
   * primary count and then the largest of its second-level counts.
   */
  lemma CompletedRunWritesBothMetrics(shares: Shares, fc: FeatureClass, tempCheck: Option<Error>)
    requires ExpectedRun(shares, fc, tempCheck).Completed?
    ensures ExpectedRun(shares, fc, tempCheck).featureCount == |fc.rows|
    ensures |ExpectedRun(shares, fc, tempCheck).writes| == 2 * |fc.rows|
    ensures forall i :: 0 <= i < |fc.rows| ==>
              var w := ExpectedRun(shares, fc, tempCheck).writes;
              var v := fc.rows[i];
              && w[2 * i] == Write(v, FirstLevelField, |Neighbours(shares, v, Members(fc.rows))|)
              && w[2 * i + 1].id == v && w[2 * i + 1].field == SecondLevelField
              && IsLargestCount(shares, v, fc.rows, w[2 * i + 1].value)
              && w[2 * i + 1].value <= |Neighbours(shares, v, Members(fc.rows))| - 1
  {
    WritesPairUp(shares, fc.rows, fc.rows);
    forall i | 0 <= i < |fc.rows|
      ensures Secondary(shares, fc.rows[i], fc.rows).Ok?
      ensures IsLargestCount(shares, fc.rows[i], fc.rows, Secondary(shares, fc.rows[i], fc.rows).value)
      ensures Secondary(shares, fc.rows[i], fc.rows).value <= Primary(shares, fc.rows[i], fc.rows) - 1
    {
      SecondaryIsLargestCount(shares, fc.rows[i], fc.rows);
    }
  }

  /**
   * A run that stops keeps what it wrote: nothing when OBJECTID is missing,
   * otherwise the full writes of the features before the last one counted
   * plus that feature's primary write, and never its secondary one.
   */
  lemma AbortedRunKeepsEarlierWrites(shares: Shares, fc: FeatureClass, tempCheck: Option<Error>)
    requires ExpectedRun(shares, fc, tempCheck).Aborted?
    ensures ExpectedRun(shares, fc, tempCheck).featureCount <= |fc.rows|
    ensures ExpectedRun(shares, fc, tempCheck).featureCount == 0 <==> !HasField(fc.fields, ObjectId)
    ensures ExpectedRun(shares, fc, tempCheck).featureCount == 0 ==>
              ExpectedRun(shares, fc, tempCheck) == Aborted(MissingField(ObjectId), [], 0)
    ensures ExpectedRun(shares, fc, tempCheck).featureCount > 0 ==>
              var k := ExpectedRun(shares, fc, tempCheck).featureCount - 1;
              ExpectedRun(shares, fc, tempCheck).writes
                == Writes(shares, fc.rows, fc.rows[..k])
                   + [Write(fc.rows[k], FirstLevelField, Primary(shares, fc.rows[k], fc.rows))]
  {
    var o := ExpectedRun(shares, fc, tempCheck);
    if HasField(fc.fields, ObjectId) && !(fc.rows != [] && tempCheck.Some?) {
      var k := FirstIsolated(shares, fc.rows, fc.rows);
      var ids := fc.rows[..k + 1];
      assert ids[..k] == fc.rows[..k];
      SecondaryFailsIffIsolated(shares, fc.rows[k], fc.rows);
    }
  }

  /**
   * max() of an empty list stops the run exactly at the first isolated
   * feature: every feature before it has neighbours, it has none.
   */
  lemma IsolatedFeatureStopsRun(shares: Shares, fc: FeatureClass, tempCheck: Option<Error>)
    requires tempCheck != Some(EmptySequence)
    ensures (ExpectedRun(shares, fc, tempCheck).Aborted? && ExpectedRun(shares, fc, tempCheck).error == EmptySequence)
        <==> HasField(fc.fields, ObjectId) && (fc.rows == [] || tempCheck.None?)
             && exists v :: v in fc.rows && Isolated(shares, v, fc.rows)
    ensures ExpectedRun(shares, fc, tempCheck).Aborted? && ExpectedRun(shares, fc, tempCheck).error == EmptySequence ==>
              var k := ExpectedRun(shares, fc, tempCheck).featureCount - 1;
              && 0 <= k < |fc.rows|
              && Isolated(shares, fc.rows[k], fc.rows)
              && forall i :: 0 <= i < k ==> !Isolated(shares, fc.rows[i], fc.rows)
  {
    var k := FirstIsolated(shares, fc.rows, fc.rows);
    if exists v :: v in fc.rows && Isolated(shares, v, fc.rows) {
      var v :| v in fc.rows && Isolated(shares, v, fc.rows);
      var j :| 0 <= j < |fc.rows| && fc.rows[j] == v;
      assert k <= j;
    }
  }
}
