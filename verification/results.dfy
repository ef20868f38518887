/** Error values and the result type shared by the coordinate store, the
    clustering step and the map view. Each error stands for one exception the
    Python code raises. */
module Results {

  datatype Error =
    /** `k, v = row` on a coordinate-file row that does not have two fields (ValueError) */
    | MalformedRow(index: nat)
    /** indexing a table or a row by a column it does not have (KeyError) */
    | MissingColumn(name: string)
    /** calling a string method on a missing (NaN) cell (AttributeError) */
    | NotAString(column: string)
    /** calling a method the object does not define (AttributeError) */
    | MissingAttribute(name: string)

  datatype Option<T> = None | Some(value: T)

  datatype Result<T> = Success(value: T) | Failure(error: Error)
}
