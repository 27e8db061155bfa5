/** The optional-value datatype used for the `-1`/`None` results of the
    repository's searches (`bytes.find`, `bytes.rfind`, `re.match`). */
module Wrappers {

  datatype Option<+T> = None | Some(value: T)
}
