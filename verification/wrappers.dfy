/** Optional values, used for the result of the linear solve (None stands
    for a singular matrix) and of the search (None stands for "no
    equilibrium found"). */
module Wrappers {

  datatype Option<+T> = None | Some(value: T)
}
