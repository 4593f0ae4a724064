/** An optional value, standing for JavaScript's `undefined` results. */
module Options {

  datatype Option<T> = None | Some(value: T)

}
