/** The Some/None datatype used wherever the dapp's code returns `false` or
    stores `false` as an "absent" marker. */
module Wrappers {

  datatype Option<+T> = None | Some(value: T)
}
