/** Optional values: a nullable column of the traffic_logs table. */
module Wrappers {

  datatype Option<+T> = None | Some(value: T)
}
