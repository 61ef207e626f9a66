/** The nullable results of the menu system (a view reference that may be null). */
module Optional {

  datatype Option<+T> = None | Some(value: T)
}
