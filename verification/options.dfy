/** Optional values: C's NULL pointers, -1 sentinels and unwritten out-parameters. */
module Options {

  datatype Option<+T> = None | Some(value: T)
}
