/** The optional value used wherever the system signals absence: a registry
    miss (the source throws), an unparsable address (inet_pton returns 0),
    or a cursor that has not been placed on any entry. */
module Options {

  datatype Option<+T> = None | Some(value: T)

}
