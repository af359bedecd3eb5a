/** The optional value used where the C code uses a nullable pointer or the
    `INFINITY` sentinel of a running minimum. */
module Options {

  datatype Option<+T> = None | Some(value: T)
}
