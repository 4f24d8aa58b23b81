/** The two loops that read a layer's schema and its ID column into Python lists. */
module Cursors {
  import opened Results
  import opened Layers

  /**
   * `for row in SearchCursor(layer, field): ids.append(row[0])` inside
   * try/except: every row's ID once, in cursor order, or the error raised
   * when the layer has no such field (before anything is appended).
   */
  method CollectIds(layer: Layer, field: string) returns (r: Result<seq<Id>>)
    requires layer.selection == {}
    ensures HasField(layer.fields, field) ==> r == Ok(layer.rows)
    ensures !HasField(layer.fields, field) ==> r == Err(MissingField(field))
  {
    if !HasField(layer.fields, field) {
      return Err(MissingField(field));
    }
    var ids: seq<Id> := [];
    for i := 0 to |layer.rows|
      invariant ids == layer.rows[..i]
    {
      ids := ids + [layer.rows[i]];
    }
    assert layer.rows[..|layer.rows|] == layer.rows;
    return Ok(ids);
  }

  /** `for field in desc.fields: names.append(field.name)`. */
  method FieldNames(fields: seq<Field>) returns (names: seq<string>)
    ensures names == Names(fields)
  {
    names := [];
    for i := 0 to |fields|
      invariant |names| == i
      invariant forall j :: 0 <= j < i ==> names[j] == fields[j].name
    {
      names := names + [fields[i].name];
    }
  }
}
