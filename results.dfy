/** The optional value used for lookups that can miss. */
module Results {

  datatype Option<+T> = None | Some(value: T)
}
