/** The optional value used for "no skip list given" and for "enumeration finished". */
module Optional {

  datatype Option<+T> = None | Some(value: T)

}
