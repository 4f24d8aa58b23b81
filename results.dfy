/** Optional values, results, and the conditions under which a run stops. */
module Results {

  datatype Option<T> = None | Some(value: T)

  /** What ends a run: an uncaught exception or a `sys.exit` after a warning. */
  datatype Error =
    | MissingField(name: string)          // a search cursor names a field the layer does not have
    | NoUniqueIdField                     // the temporary copy has neither OBJECTID nor OID
    | EmptySequence                       // Python's max() applied to an empty list
    | InvalidWhereClause(clause: string)  // a where clause the layer cannot evaluate

  datatype Result<T> = Ok(value: T) | Err(error: Error)
}
