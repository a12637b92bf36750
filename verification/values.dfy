/** Cell values of a table. A pandas cell is either missing (NaN / None) or holds a
    number or some other (text, categorical, boolean) value. */
module Values {

  /** A value that may be absent. A missing cell is `None`, and so is a statistic
      that pandas reports as NaN because no values went into it. */
  datatype Option<+T> = None | Some(value: T)

  /** A present cell value: a number (taken exactly, as a real) or anything else,
      represented by its text. */
  datatype Value = Num(x: real) | Str(s: string)

  /** One cell of a table. */
  type Cell = Option<Value>
}
