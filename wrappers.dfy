/** Option and Result, and the failures the modelled code can raise. */
module Wrappers {

  datatype Option<+T> = None | Some(value: T)

  /** The exceptions that escape the modelled operations. */
  datatype Fault =
    | CastFailure   // an unchecked `as T?` cast met a value of another type
    | NullLib       // `!!` applied to a module root without a `lib` directory
    | IoFailure     // the file tree refused to create a child
    | LoadFailure   // reading or parsing the module's configuration file threw

  datatype Result<+T> = Ok(value: T) | Err(fault: Fault)
}
