/** A value that may be absent: Java's null returns and JavaScript's null results. */
module Optional {

  datatype Option<T> = None | Some(value: T)
}
