/** A value that may be missing: a Swift optional such as `Int?`, or a key
    the key-value store does not hold. */
module Optional {

  datatype Option<+T> = None | Some(value: T)
}
