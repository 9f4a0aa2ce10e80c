/**
 * The TLS relay's sending side: tuples from `arduino/recv` are encoded into
 * byte frames for the laptop client. Each encoder allocates a zeroed
 * bytearray and fills it by index and by slice assignment.
 */
module TlsSend {
  import opened Bytes
  import opened ControlConstants
  import opened NetConstants
  import opened ArduinoRecv

  function Min(a: nat, b: nat): nat { if a < b then a else b }

  /**
   * `a[lo:hi] = rep` on a bytearray: the slice bounds are clamped to the array, and
   * the array grows or shrinks when `rep` is not as long as the slice. The resized
   * bytearray is returned as a new array.
   */
  method SliceAssign(a: array<Byte>, lo: nat, hi: nat, rep: seq<Byte>) returns (b: array<Byte>)
    ensures fresh(b)
    ensures var l := Min(lo, a.Length); var h := if hi < l then l else Min(hi, a.Length);
      b[..] == a[..l] + rep + a[h..]
  {
    var l := Min(lo, a.Length);
    var h := if hi < l then l else Min(hi, a.Length);
    var want := a[..l] + rep + a[h..];
    b := new Byte[|want|](i requires 0 <= i < |want| => want[i]);
    assert b[..] == want;
  }

  /** `handle_error_response(packet)`: `[NET_ERROR_PACKET, code]`. */
  method HandleErrorResponse(packet: ArduinoTuple) returns (data: seq<Byte>)
    ensures data == [NetErrorPacket, packet.command]
  {
    var buffer := new Byte[2](_ => 0);
    buffer[0] := NetErrorPacket;
    buffer[1] := packet.command;
    data := buffer[..];
  }

  /**
   * `handle_message(packet)`: a 33-byte frame, the type byte then the first
   * (at most 32) bytes of the message's UTF-8 encoding, zero padded.
   */
  method HandleMessage(message: seq<Byte>) returns (data: seq<Byte>)
    ensures var n := Min(|message|, DataMaxStrLen);
      data == [NetMessagePacket] + message[..n] + Zeros(DataMaxStrLen - n)
  {
    var buffer := new Byte[DataMaxStrLen + 1](_ => 0);
    buffer[0] := NetMessagePacket;
    var n := Min(|message|, DataMaxStrLen);
    var resized := SliceAssign(buffer, 1, 1 + n, message[..n]);
    assert buffer[..1] == [NetMessagePacket];
    assert buffer[1 + n..] == Zeros(DataMaxStrLen - n);
    data := resized[..];
  }

  /**
   * `(c_uint32 * 16)(*params)`, which ctypes builds when a tuple is assigned to the
   * `params` field: a shorter tuple is padded with zeros.
   */
  function PadParams(params: seq<U32>): (r: seq<U32>)
    requires |params| <= ParamsCount
    ensures |r| == ParamsCount && r[..|params|] == params
    ensures forall k :: |params| <= k < ParamsCount ==> r[k] == 0
  {
    params + seq(ParamsCount - |params|, _ => 0)
  }

  /** `TPacket()` with only `params` set, as `handle_status` builds it. */
  function ParamsOnlyPacket(params: seq<U32>): (p: Packet)
    requires |params| <= ParamsCount
    ensures p.WellFormed() && p.params == PadParams(params)
  {
    EmptyPacket().(params := PadParams(params))
  }

  /**
   * `handle_status(packet)` as written: the whole 100-byte packet image replaces
   * `data[1:101]` of a 65-byte array, which grows it to 101 bytes and puts
   * the parameters at offsets 37..100.
   */
  method HandleStatusAsWritten(params: seq<U32>) returns (data: seq<Byte>)
    requires |params| <= ParamsCount
    ensures data == [NetStatusPacket] + PacketBytes(ParamsOnlyPacket(params))
    ensures |data| == 101 && data[1..37] == Zeros(36) && data[37..101] == LE32s(PadParams(params))
  {
    var buffer := new Byte[65](_ => 0);
    buffer[0] := NetStatusPacket;
    var toBytes := PacketBytes(ParamsOnlyPacket(params));
    var resized := SliceAssign(buffer, 1, 1 + |toBytes|, toBytes);
    assert buffer[..1] == [NetStatusPacket];
    data := resized[..];
    assert data[37..101] == toBytes[36..100];
    assert toBytes[1..36] == Zeros(35) by {
      assert toBytes[..36] == [0, 0] + Zeros(2) + Zeros(DataMaxStrLen);
    }
  }

  /**
   * `handle_status(packet)` as the 65-byte array intends: the type byte followed by
   * exactly the 64 parameter bytes of the packet image.
   */
  method HandleStatus(params: seq<U32>) returns (data: seq<Byte>)
    requires |params| <= ParamsCount
    ensures data == [NetStatusPacket] + LE32s(PadParams(params))
  {
    var buffer := new Byte[65](_ => 0);
    buffer[0] := NetStatusPacket;
    var toBytes := PacketBytes(ParamsOnlyPacket(params));
    var resized := SliceAssign(buffer, 1, 65, toBytes[36..100]);
    assert buffer[..1] == [NetStatusPacket];
    data := resized[..];
  }

  /** What the relay does with one tuple: send a frame, send nothing, or raise (ending the send thread). */
  datatype SendOutcome = Sent(frame: seq<Byte>) | NotSent | SendRaises

  /**
   * A tuple `handle_status` can read: `packet[2]` exists and is a tuple of at most 16
   * integers. Any other tuple raises, in `packet[2]` or in the ctypes assignment.
   */
  predicate StatusReadable(packet: ArduinoTuple)
  {
    packet.Status? && |packet.params| <= ParamsCount
  }

  /**
   * `handle_response(packet)`: `TResponseType(packet[1])` raises on an unknown code;
   * RESP_OK sends `[NET_ERROR_PACKET, RESP_OK]`, RESP_STATUS the 101-byte status frame
   * `handle_status` builds, other codes nothing.
   */
  method HandleResponse(packet: ArduinoTuple) returns (r: SendOutcome)
    ensures ResponseTypeOf(packet.command).None? ==> r == SendRaises
    ensures packet.command == RespOk.Code() ==> r == Sent([NetErrorPacket, RespOk.Code()])
    ensures packet.command == RespStatus.Code() && StatusReadable(packet) ==>
      r == Sent([NetStatusPacket] + PacketBytes(ParamsOnlyPacket(packet.params)))
      && |r.frame| == 101 && r.frame[37..101] == LE32s(PadParams(packet.params))
    ensures packet.command == RespStatus.Code() && !StatusReadable(packet) ==> r == SendRaises
    ensures RespStatus.Code() < packet.command < 6 ==> r == NotSent
  {
    var command := ResponseTypeOf(packet.command);
    if command.None? {
      return SendRaises;
    }
    if command.value == RespOk {
      var resp := new Byte[2](_ => 0);
      resp[0] := NetErrorPacket;
      resp[1] := RespOk.Code();
      r := Sent(resp[..]);
    } else if command.value == RespStatus {
      if StatusReadable(packet) {
        var frame := HandleStatusAsWritten(packet.params);
        r := Sent(frame);
      } else {
        r := SendRaises;
      }
    } else {
      r := NotSent;
    }
  }

  /** `handle_response(packet)` with the intended 65-byte status frame of `HandleStatus`. */
  method HandleResponseIntended(packet: ArduinoTuple) returns (r: SendOutcome)
    ensures ResponseTypeOf(packet.command).None? ==> r == SendRaises
    ensures packet.command == RespOk.Code() ==> r == Sent([NetErrorPacket, RespOk.Code()])
    ensures packet.command == RespStatus.Code() && StatusReadable(packet) ==>
      r == Sent([NetStatusPacket] + LE32s(PadParams(packet.params)))
    ensures packet.command == RespStatus.Code() && !StatusReadable(packet) ==> r == SendRaises
    ensures RespStatus.Code() < packet.command < 6 ==> r == NotSent
  {
    var command := ResponseTypeOf(packet.command);
    if command.None? {
      return SendRaises;
    }
    if command.value == RespOk {
      r := Sent([NetErrorPacket, RespOk.Code()]);
    } else if command.value == RespStatus {
      if StatusReadable(packet) {
        var frame := HandleStatus(packet.params);
        r := Sent(frame);
      } else {
        r := SendRaises;
      }
    } else {
      r := NotSent;
    }
  }

  /** `handle_arduinopacket(packet_tuple)`: dispatch on the packet type; `TPacketType(...)` raises on an unknown one. */
  method HandleArduinoPacket(packet: ArduinoTuple) returns (r: SendOutcome)
    ensures PacketTypeOf(packet.packetType).None? ==> r == SendRaises
    ensures packet.packetType == PacketError.Code() ==> r == Sent([NetErrorPacket, packet.command])
    ensures packet.packetType == PacketResponse.Code() && packet.command == RespOk.Code() ==> r == Sent([NetErrorPacket, RespOk.Code()])
    ensures packet.packetType == PacketResponse.Code() ==>
      (r == SendRaises <==>
         (ResponseTypeOf(packet.command).None? || (packet.command == RespStatus.Code() && !StatusReadable(packet))))
    ensures packet.packetType == PacketResponse.Code() && packet.command == RespStatus.Code() && StatusReadable(packet) ==>
      r == Sent([NetStatusPacket] + PacketBytes(ParamsOnlyPacket(packet.params))) && |r.frame| == 101
    ensures packet.packetType == PacketMessage.Code() && packet.Text? ==>
      var n := Min(|packet.message|, DataMaxStrLen);
      r == Sent([NetMessagePacket] + packet.message[..n] + Zeros(DataMaxStrLen - n))
    ensures packet.packetType == PacketMessage.Code() && !packet.Text? ==> r == SendRaises
    ensures packet.packetType in {PacketCommand.Code(), PacketHello.Code()} ==> r == NotSent
  {
    var packetType := PacketTypeOf(packet.packetType);
    if packetType.None? {
      return SendRaises;
    }
    match packetType.value {
      case PacketResponse =>
        r := HandleResponse(packet);
      case PacketError =>
        var frame := HandleErrorResponse(packet);
        r := Sent(frame);
      case PacketMessage =>
        if packet.Text? {
          var frame := HandleMessage(packet.message);
          r := Sent(frame);
        } else {
          r := SendRaises;
        }
      case _ =>
        r := NotSent;
    }
  }
}
