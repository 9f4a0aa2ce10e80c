/**
 * The Arduino receive node: each packet read from the serial link is turned
 * into a tuple published on `arduino/recv`, according to its packet type and
 * response code. A packet whose codes are not members of their enums raises,
 * which ends the receive loop.
 */
module ArduinoRecv {
  import opened Bytes
  import opened Wrappers
  import opened ControlConstants
  import opened Control

  const ArduinoRecvTopic: string := "arduino/recv"

  /**
   * The tuples published on `arduino/recv`: `(packetType, command)`,
   * `(packetType, command, params)` and `(packetType, command, message)`;
   * a message string is represented by its UTF-8 bytes.
   */
  datatype ArduinoTuple =
    | Ack(packetType: Byte, command: Byte)
    | Status(packetType: Byte, command: Byte, params: seq<U32>)
    | Text(packetType: Byte, command: Byte, message: seq<Byte>)

  datatype HandlerResult = Publish(topic: string, payload: ArduinoTuple) | NoPublish | Raises

  predicate Continuation(b: Byte) { 0x80 <= b <= 0xBF }

  /** Strict UTF-8, as Python's decoder accepts it: no overlong forms, no surrogates, nothing above U+10FFFF. */
  predicate Utf8Valid(b: seq<Byte>)
    decreases |b|
  {
    if b == [] then true
    else
      var x := b[0];
      if x < 0x80 then Utf8Valid(b[1..])
      else if 0xC2 <= x <= 0xDF then |b| >= 2 && Continuation(b[1]) && Utf8Valid(b[2..])
      else if 0xE0 <= x <= 0xEF then
        |b| >= 3
        && (if x == 0xE0 then 0xA0 <= b[1] <= 0xBF else if x == 0xED then 0x80 <= b[1] <= 0x9F else Continuation(b[1]))
        && Continuation(b[2]) && Utf8Valid(b[3..])
      else if 0xF0 <= x <= 0xF4 then
        |b| >= 4
        && (if x == 0xF0 then 0x90 <= b[1] <= 0xBF else if x == 0xF4 then 0x80 <= b[1] <= 0x8F else Continuation(b[1]))
        && Continuation(b[2]) && Continuation(b[3]) && Utf8Valid(b[4..])
      else false
  }

  /** Pure ASCII is valid UTF-8. */
  lemma {:induction false} AsciiIsUtf8(b: seq<Byte>)
    requires forall k :: 0 <= k < |b| ==> b[k] < 0x80
    ensures Utf8Valid(b)
  {
    if b != [] {
      AsciiIsUtf8(b[1..]);
    }
  }

  /** A single byte of 0x80 or more is not valid UTF-8. */
  lemma LoneHighByteInvalid(x: Byte)
    requires x >= 0x80
    ensures !Utf8Valid([x])
  {
  }

  /** Reading a `c_char` array field: the bytes before the first NUL. */
  function CString(data: seq<Byte>): (r: seq<Byte>)
    ensures |r| <= |data| && r == data[..|r|]
    ensures forall k :: 0 <= k < |r| ==> r[k] != 0
    ensures |r| < |data| ==> data[|r|] == 0
  {
    if data == [] || data[0] == 0 then [] else [data[0]] + CString(data[1..])
  }

  /** `handleResponse(res, publishPackets)`. */
  function HandleResponse(res: Packet, publishPackets: bool): (r: HandlerResult)
    requires res.WellFormed()
    ensures r.Raises? <==> ResponseTypeOf(res.command).None?
    ensures r.Publish? ==>
      publishPackets && r.topic == ArduinoRecvTopic && r.payload.packetType == res.packetType && r.payload.command == res.command
    ensures publishPackets && res.command == RespOk.Code() ==> r.Publish? && r.payload == Ack(res.packetType, res.command)
    ensures publishPackets && res.command == RespStatus.Code() ==> r.Publish? && r.payload == Status(res.packetType, res.command, res.params)
    ensures RespStatus.Code() < res.command < 6 ==> r == NoPublish
  {
    match ResponseTypeOf(res.command)
    case None => Raises
    case Some(RespOk) => if publishPackets then Publish(ArduinoRecvTopic, Ack(res.packetType, res.command)) else NoPublish
    case Some(RespStatus) =>
      if publishPackets then Publish(ArduinoRecvTopic, Status(res.packetType, res.command, res.params)) else NoPublish
    case Some(_) => NoPublish
  }

  /** `handleErrorResponse(res, publishPackets)`: the code is looked up (and may raise) before publishing. */
  function HandleErrorResponse(res: Packet, publishPackets: bool): (r: HandlerResult)
    ensures r.Raises? <==> ResponseTypeOf(res.command).None?
    ensures ResponseTypeOf(res.command).Some? ==>
      r == (if publishPackets then Publish(ArduinoRecvTopic, Ack(res.packetType, res.command)) else NoPublish)
  {
    if ResponseTypeOf(res.command).None? then Raises
    else if publishPackets then Publish(ArduinoRecvTopic, Ack(res.packetType, res.command))
    else NoPublish
  }

  /** `handleMessage(res, publishPackets)`: `str(res.data, 'utf-8')` raises on bytes that are not UTF-8. */
  function HandleMessage(res: Packet, publishPackets: bool): (r: HandlerResult)
    requires res.WellFormed()
    ensures r.Raises? <==> !Utf8Valid(CString(res.data))
    ensures r.Publish? ==>
      publishPackets && r.payload == Text(res.packetType, res.command, CString(res.data)) && |r.payload.message| <= DataMaxStrLen && 0 !in r.payload.message
    ensures publishPackets && Utf8Valid(CString(res.data)) ==> r.Publish?
  {
    var message := CString(res.data);
    if !Utf8Valid(message) then Raises
    else if publishPackets then Publish(ArduinoRecvTopic, Text(res.packetType, res.command, message))
    else NoPublish
  }

  /** A message whose text is plain ASCII always decodes, so it is published when publishing is on. */
  lemma AsciiMessagePublished(res: Packet)
    requires res.WellFormed()
    requires forall k :: 0 <= k < |CString(res.data)| ==> CString(res.data)[k] < 0x80
    ensures HandleMessage(res, true) == Publish(ArduinoRecvTopic, Text(res.packetType, res.command, CString(res.data)))
  {
    AsciiIsUtf8(CString(res.data));
  }

  /** A message of one byte of 0x80 or more fails the strict decode, and the handler raises. */
  lemma LoneHighByteMessageRaises(res: Packet, publishPackets: bool)
    requires res.WellFormed() && res.data[0] >= 0x80 && res.data[1] == 0
    ensures HandleMessage(res, publishPackets) == Raises
  {
    assert CString(res.data[1..]) == [];
    assert CString(res.data) == [res.data[0]];
    LoneHighByteInvalid(res.data[0]);
  }

  /** The packet-type dispatch of `receiveThread`: `TPacketType(packet.packetType)` raises on an unknown code. */
  function Dispatch(packet: Packet, publishPackets: bool): (r: HandlerResult)
    requires packet.WellFormed()
    ensures PacketTypeOf(packet.packetType).None? ==> r.Raises?
    ensures !publishPackets ==> !r.Publish?
    ensures r.Publish? ==> r.topic == ArduinoRecvTopic && r.payload.packetType == packet.packetType
    ensures packet.packetType in {PacketCommand.Code(), PacketHello.Code()} ==> r == NoPublish
  {
    match PacketTypeOf(packet.packetType)
    case None => Raises
    case Some(PacketResponse) => HandleResponse(packet, publishPackets)
    case Some(PacketError) => HandleErrorResponse(packet, publishPackets)
    case Some(PacketMessage) => HandleMessage(packet, publishPackets)
    case Some(_) => NoPublish
  }

  /**
   * The receive loop over successive `receivePacket` results: None is skipped, and an
   * exception (from `receivePacket` or a handler) ends the loop. Returns what was
   * published and whether the loop ended on an exception.
   */
  function ReceiveLoop(results: seq<Reception>, publishPackets: bool): (r: (seq<ArduinoTuple>, bool))
    requires forall k :: 0 <= k < |results| ==> results[k].Received? ==> results[k].packet.WellFormed()
    ensures !publishPackets ==> r.0 == []
    ensures |r.0| <= |results|
  {
    if results == [] then ([], false)
    else
      match results[0]
      case NoPacket => ReceiveLoop(results[1..], publishPackets)
      case Raised => ([], true)
      case Received(p) =>
        match Dispatch(p, publishPackets)
        case Raises => ([], true)
        case NoPublish => ReceiveLoop(results[1..], publishPackets)
        case Publish(_, payload) =>
          var rest := ReceiveLoop(results[1..], publishPackets);
          ([payload] + rest.0, rest.1)
  }

  /** A reception that ends the loop: `receivePacket` raised, or the packet's handler raises. */
  predicate Stops(x: Reception, publishPackets: bool)
    requires x.Received? ==> x.packet.WellFormed()
  {
    x.Raised? || (x.Received? && Dispatch(x.packet, publishPackets).Raises?)
  }

  /** The position of the first reception that ends the loop, or `|results|` when none does. */
  function FirstStop(results: seq<Reception>, publishPackets: bool): (n: nat)
    requires forall k :: 0 <= k < |results| ==> results[k].Received? ==> results[k].packet.WellFormed()
    ensures n <= |results|
    ensures n < |results| ==> Stops(results[n], publishPackets)
    ensures forall k :: 0 <= k < n ==> !Stops(results[k], publishPackets)
  {
    if results == [] then 0
    else if Stops(results[0], publishPackets) then 0
    else 1 + FirstStop(results[1..], publishPackets)
  }

  /** In order, the payloads the handlers publish for the received packets, stopping nowhere. */
  function Published(results: seq<Reception>, publishPackets: bool): (ps: seq<ArduinoTuple>)
    requires forall k :: 0 <= k < |results| ==> results[k].Received? ==> results[k].packet.WellFormed()
  {
    if results == [] then []
    else
      var rest := Published(results[1..], publishPackets);
      if results[0].Received? && Dispatch(results[0].packet, publishPackets).Publish? then
        [Dispatch(results[0].packet, publishPackets).payload] + rest
      else rest
  }

  /**
   * The loop publishes, in order, exactly the payloads of the packets before the first
   * reception that raises, and it ends on an exception exactly when such a reception occurs.
   */
  lemma {:induction false} ReceiveLoopPublishes(results: seq<Reception>, publishPackets: bool)
    requires forall k :: 0 <= k < |results| ==> results[k].Received? ==> results[k].packet.WellFormed()
    ensures var n := FirstStop(results, publishPackets);
      ReceiveLoop(results, publishPackets) == (Published(results[..n], publishPackets), n < |results|)
  {
    var n := FirstStop(results, publishPackets);
    if results != [] && !Stops(results[0], publishPackets) {
      ReceiveLoopPublishes(results[1..], publishPackets);
      assert results[..n][1..] == results[1..][..n - 1];
    } else if results != [] {
      assert results[..n] == [];
    }
  }

  /** Nothing is published after a packet whose handling raises. */
  lemma {:induction false} ReceiveLoopStopsAtRaise(results: seq<Reception>, publishPackets: bool, k: nat)
    requires forall j :: 0 <= j < |results| ==> results[j].Received? ==> results[j].packet.WellFormed()
    requires k < |results| && results[k].Received? && Dispatch(results[k].packet, publishPackets).Raises?
    ensures ReceiveLoop(results, publishPackets) == ReceiveLoop(results[..k + 1], publishPackets)
    ensures ReceiveLoop(results, publishPackets).1
  {
    if k > 0 {
      assert results[1..][..k] == results[..k + 1][1..];
      ReceiveLoopStopsAtRaise(results[1..], publishPackets, k - 1);
    }
  }
}
