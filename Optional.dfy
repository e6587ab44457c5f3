/** The Some/None datatype the parser uses where the source returns `None`. */
module Optional {

  datatype Option<+T> = None | Some(value: T)
}
