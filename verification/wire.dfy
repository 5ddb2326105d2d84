/** The framework-neutral shape of serialized data, as the serialization
    framework presents it to the table's adapter: a unit marker, a map of
    already-encoded key/value pairs with an optional size hint, or any
    other shape. `K` and `W` stand for the framework's encoding of one
    prefix and of one value. */
module WireFormat {
  import opened Wrappers

  /** Errors raised by the framework or by the key and value codecs. */
  datatype Error =
    | InvalidType          // the input is neither a unit nor a map
    | Custom(msg: string)  // any error reported by a codec or by the sink

  datatype Wire<K, W> =
    | Unit
    | Map(sizeHint: Option<nat>, entries: seq<(K, W)>)
    | Unexpected
}
