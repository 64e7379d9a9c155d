/** The conventional Some/None datatype, used for absent optional fields and
    for a date string that does not parse. */
module Wrappers {

  datatype Option<+T> = None | Some(value: T)

}
