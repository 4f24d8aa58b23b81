/**
 * Feature classes, feature layers and the geoprocessing tools the scripts
 * apply to them, reduced to what they do to IDs and selections.  A feature is
 * known by its ID; the geometry is reached only through the `Shares` relation.
 */
module Layers {
  import opened Results
  import opened WhereClauses

  /** The value of a feature's unique-ID field (OBJECTID or OID). */
  type Id = nat

  /**
   * shares(c, f): feature c shares a line segment with feature f.  Decided by
   * the geometry engine; nothing is assumed about it, not even symmetry.
   */
  type Shares = (Id, Id) -> bool

  /** The unique-ID field names the scripts probe, in order of preference. */
  const ObjectId := "OBJECTID"
  const Oid := "OID"

  datatype Field = Field(name: string)

  /** A stored feature class: its schema and its rows, in cursor order. */
  datatype FeatureClass = FeatureClass(fields: seq<Field>, rows: seq<Id>)

  /** A feature layer: a view of a feature class with a current selection. */
  datatype Layer = Layer(fields: seq<Field>, rows: seq<Id>, selection: set<Id>)

  /** One CalculateField write: feature `id` gets `value` in field `field`. */
  datatype Write = Write(id: Id, field: string, value: nat)

  function Members(rows: seq<Id>): set<Id> {
    set r | r in rows
  }

  /** No ID occurs twice: the geodatabase keeps OBJECTID values unique. */
  predicate Distinct(rows: seq<Id>) {
    forall i, j | 0 <= i < j < |rows| :: rows[i] != rows[j]
  }

  function Names(fields: seq<Field>): seq<string> {
    seq(|fields|, i requires 0 <= i < |fields| => fields[i].name)
  }

  predicate HasField(fields: seq<Field>, name: string) {
    name in Names(fields)
  }

  /** `a` is `b` with some entries left out: the entries of `a` appear in `b` in the same order. */
  predicate SubsequenceOf(a: seq<Id>, b: seq<Id>)
    decreases |a| + |b|
  {
    if a == [] then true
    else if b == [] then false
    else if a[0] == b[0] then SubsequenceOf(a[1..], b[1..])
    else SubsequenceOf(a, b[1..])
  }

  /** The rows whose ID is in `keep`, in their original order. */
  function Filter(rows: seq<Id>, keep: set<Id>): (r: seq<Id>)
    ensures Members(r) == Members(rows) * keep
    ensures SubsequenceOf(r, rows)
    ensures Distinct(rows) ==> Distinct(r)
  {
    if rows == [] then []
    else
      var rest := Filter(rows[1..], keep);
      assert Members(rows) == {rows[0]} + Members(rows[1..]);
      if rows[0] in keep then
        assert Members([rows[0]] + rest) == {rows[0]} + Members(rest);
        assert ([rows[0]] + rest)[1..] == rest;
        DistinctPrepend(rows, rest);
        [rows[0]] + rest
      else
        assert rest != [] ==> rest[0] in Members(rest);
        rest
  }

  /** Helper for Filter: prepending the head of a distinct sequence to a sub-collection of its tail. */
  lemma DistinctPrepend(rows: seq<Id>, rest: seq<Id>)
    requires rows != [] && Members(rest) <= Members(rows[1..])
    requires Distinct(rows) ==> Distinct(rest)
    ensures Distinct(rows) ==> Distinct([rows[0]] + rest)
  {
    if Distinct(rows) {
      assert rows[0] !in Members(rows[1..]);
      var r := [rows[0]] + rest;
      forall i, j | 0 <= i < j < |r| ensures r[i] != r[j] {
        if i == 0 {
          assert r[j] in Members(rest);
        }
      }
    }
  }

  lemma {:induction false} DistinctCardinality(rows: seq<Id>)
    requires Distinct(rows)
    ensures |Members(rows)| == |rows|
  {
    if rows != [] {
      assert Members(rows) == {rows[0]} + Members(rows[1..]);
      assert rows[0] !in Members(rows[1..]);
      DistinctCardinality(rows[1..]);
    }
  }

  lemma NoMembersIsEmpty(rows: seq<Id>)
    ensures Members(rows) == {} <==> rows == []
  {
    if rows != [] {
      assert rows[0] in Members(rows);
    }
  }

  lemma {:induction false} FilterSingleton(rows: seq<Id>, id: Id)
    requires Distinct(rows) && id in rows
    ensures Filter(rows, {id}) == [id]
  {
    if rows[0] == id {
      assert id !in Members(rows[1..]);
      var rest := Filter(rows[1..], {id});
      assert Members(rest) == {};
      NoMembersIsEmpty(rest);
    } else {
      FilterSingleton(rows[1..], id);
    }
  }

  /** MakeFeatureLayer: a fresh view of a feature class, nothing selected. */
  function MakeFeatureLayer(fc: FeatureClass): Layer {
    Layer(fc.fields, fc.rows, {})
  }

  /**
   * FeatureClassToFeatureClass: the selected rows, in layer order, stored
   * under the schema `schema` that the output storage gives the copy.
   */
  function CopySelected(layer: Layer, schema: seq<Field>): FeatureClass {
    FeatureClass(schema, Filter(layer.rows, layer.selection))
  }

  /** GetCount: the number of selected rows. */
  function GetCount(layer: Layer): nat {
    |Filter(layer.rows, layer.selection)|
  }

  lemma CountIsSelectionSize(layer: Layer)
    requires Distinct(layer.rows) && layer.selection <= Members(layer.rows)
    ensures GetCount(layer) == |layer.selection|
  {
    var selected := Filter(layer.rows, layer.selection);
    assert Members(selected) == layer.selection;
    DistinctCardinality(selected);
  }

  /** CalculateField: the same value written to every selected row, in row order. */
  function CalculateField(layer: Layer, field: string, value: nat): seq<Write> {
    var selected := Filter(layer.rows, layer.selection);
    seq(|selected|, i requires 0 <= i < |selected| => Write(selected[i], field, value))
  }

  /**
   * SelectLayerByAttribute with NEW_SELECTION: the rows whose ID equals the
   * one the clause names; whatever was selected before is discarded.
   */
  function SelectByAttribute(layer: Layer, clause: string): Result<Layer> {
    match ParseWhere(clause)
    case None => Err(InvalidWhereClause(clause))
    case Some((name, id)) =>
      if HasField(layer.fields, name) then Ok(layer.(selection := Members(layer.rows) * {id}))
      else Err(InvalidWhereClause(clause))
  }

  lemma SelectByIdSelectsThatRow(layer: Layer, field: string, id: Id)
    requires HasField(layer.fields, field) && '=' !in field
    ensures SelectByAttribute(layer, WhereClause(field, id))
         == Ok(layer.(selection := if id in layer.rows then {id} else {}))
  {
    ParseWhereInvertsWhereClause(field, id);
    assert Members(layer.rows) * {id} == if id in layer.rows then {id} else {};
  }
}
