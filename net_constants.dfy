/** The network packet types (`TNetType`) shared by the relay and the laptop client. */
module NetConstants {
  import opened Bytes

  const NetErrorPacket: Byte := 0
  const NetStatusPacket: Byte := 1
  const NetMessagePacket: Byte := 2
  const NetCommandPacket: Byte := 3
}
