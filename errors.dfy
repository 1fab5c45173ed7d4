/** Failure values of the scraper: the Python exceptions its core can raise,
    and the optional / fallible results that carry them. */
module Errors {

  datatype Option<+T> = None | Some(value: T)

  /** The exceptions the modelled code raises. */
  datatype PyError =
    | IndexError      // a list index past the end: `findall(...)[0]`, `split("/")[2]`
    | AttributeError  // `.text` read on a page element that is not there
    | NameError       // a local variable read before it was ever assigned

  datatype Result<+T> = Ok(value: T) | Err(error: PyError)
}
