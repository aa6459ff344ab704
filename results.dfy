/** Optional values, the errors the record code can raise, and a result type
    carrying either a value or one of those errors. */
module Results {

  datatype Option<+T> = None | Some(value: T)

  /** The exceptions the modelled Python code raises. */
  datatype Error =
    | HeaderKeyError(key: string)   // `p.header[key]` on a record without that key
    | ConfigKeyError(at: real)      // `config.atConfLoockup[at]` without an entry for `at`
    | NoData                        // `self.data.shape` when the record holds no data
    | NameError(name: string)       // a name the code uses but never binds
    | IndexError                    // a list index out of range
    | EmptyMask                     // a mean over a mask that selects no pixel

  datatype Result<+T> = Ok(value: T) | Err(error: Error)
}
