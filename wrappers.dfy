/** Optional results. `None` stands for "no value": an empty `Optional`, or an
    operation of the simulator that throws instead of returning. */
module Wrappers {
  datatype Option<+T> = None | Some(value: T)
}
