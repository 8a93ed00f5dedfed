/** Option type for the allocator's null results and failed heap growth. */
module Options {
  datatype Option<+T> = None | Some(value: T)
}
