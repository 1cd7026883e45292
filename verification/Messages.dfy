/** What the relay sends to the server. */
module Messages {
  import opened Bytes

  /** The messages of a login, the frames of the buffer and keep-alives. */
  datatype Msg = DeviceId | SerialRequest | Serial | Position | User | RawFrame(raw: seq<byte>) | KeepAlive {
    predicate IsData() { RawFrame? || KeepAlive? }
  }
}
