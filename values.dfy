/**
 * Cell values of the uploaded table. A pandas cell that is missing (NaN, NaT,
 * pd.NA or None) is `None`; every other cell is `Some(v)`.
 */
module Values {

  datatype Option<+T> = None | Some(value: T)

  /** The scalar kinds that occur in the uploaded sheet. */
  datatype Value = Text(s: string) | Number(x: real) | Flag(b: bool)

  type Cell = Option<Value>
}
