/** The optional results returned by the key-value lookups and by the trace queries. */
module Options {

  datatype Option<+T> = None | Some(value: T)

}
