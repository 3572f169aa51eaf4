/** The protobuf messages stored and exchanged by the server (generated by
    prost from the project's .proto file). */
module Models {
  import opened Bytes

  /** The value stored under an input's key by the current pipeline. */
  datatype DbItem = DbItem(inputIndex: u32, txId: seq<byte>, blockHeight: u32)

  /** The value produced by the older pipeline: no height. */
  datatype Item = Item(index: u32, txId: seq<byte>)

  /** A search's height window; `end == 0` means "no upper bound". */
  datatype BlockInterval = BlockInterval(start: u32, end: u32)
}
