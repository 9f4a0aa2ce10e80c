/**
 * The code enums and the two packed (`_pack_ = 1`) ctypes structures shared with
 * the Arduino: the 100-byte packet `TPacket` and the 140-byte frame `TComms`.
 * Multi-byte fields are little-endian.
 */
module ControlConstants {
  import opened Wrappers
  import opened Bytes

  datatype PacketType = PacketCommand | PacketResponse | PacketError | PacketMessage | PacketHello
  {
    function Code(): (c: Byte)
      ensures c < 5
    {
      match this
      case PacketCommand => 0
      case PacketResponse => 1
      case PacketError => 2
      case PacketMessage => 3
      case PacketHello => 4
    }
  }

  /** `TPacketType(c)`: defined exactly for the codes 0..4. */
  function PacketTypeOf(c: int): (r: Option<PacketType>)
    ensures r.Some? <==> 0 <= c < 5
    ensures r.Some? ==> r.value.Code() == c
  {
    if c == 0 then Some(PacketCommand)
    else if c == 1 then Some(PacketResponse)
    else if c == 2 then Some(PacketError)
    else if c == 3 then Some(PacketMessage)
    else if c == 4 then Some(PacketHello)
    else None
  }

  datatype ResponseType = RespOk | RespStatus | RespBadPacket | RespBadChecksum | RespBadCommand | RespBadResponse
  {
    function Code(): (c: Byte)
      ensures c < 6
    {
      match this
      case RespOk => 0
      case RespStatus => 1
      case RespBadPacket => 2
      case RespBadChecksum => 3
      case RespBadCommand => 4
      case RespBadResponse => 5
    }
  }

  /** `TResponseType(c)`: defined exactly for the codes 0..5. */
  function ResponseTypeOf(c: int): (r: Option<ResponseType>)
    ensures r.Some? <==> 0 <= c < 6
    ensures r.Some? ==> r.value.Code() == c
  {
    if c == 0 then Some(RespOk)
    else if c == 1 then Some(RespStatus)
    else if c == 2 then Some(RespBadPacket)
    else if c == 3 then Some(RespBadChecksum)
    else if c == 4 then Some(RespBadCommand)
    else if c == 5 then Some(RespBadResponse)
    else None
  }

  datatype CommandType = Forward | Reverse | TurnLeft | TurnRight | Stop | GetStats | ClearStats
  {
    function Code(): (c: Byte)
      ensures c < 7
    {
      match this
      case Forward => 0
      case Reverse => 1
      case TurnLeft => 2
      case TurnRight => 3
      case Stop => 4
      case GetStats => 5
      case ClearStats => 6
    }
  }

  /** `TCommandType(c)`: defined exactly for the codes 0..6. */
  function CommandTypeOf(c: int): (r: Option<CommandType>)
    ensures r.Some? <==> 0 <= c < 7
    ensures r.Some? ==> r.value.Code() == c
  {
    if c == 0 then Some(Forward)
    else if c == 1 then Some(Reverse)
    else if c == 2 then Some(TurnLeft)
    else if c == 3 then Some(TurnRight)
    else if c == 4 then Some(Stop)
    else if c == 5 then Some(GetStats)
    else if c == 6 then Some(ClearStats)
    else None
  }

  datatype ResultType = PacketOk | PacketBad | PacketChecksumBad | PacketIncomplete | PacketComplete
  {
    function Code(): (c: Byte)
      ensures c < 5
    {
      match this
      case PacketOk => 0
      case PacketBad => 1
      case PacketChecksumBad => 2
      case PacketIncomplete => 3
      case PacketComplete => 4
    }
  }

  /** `TResultType(c)`: defined exactly for the codes 0..4. */
  function ResultTypeOf(c: int): (r: Option<ResultType>)
    ensures r.Some? <==> 0 <= c < 5
    ensures r.Some? ==> r.value.Code() == c
  {
    if c == 0 then Some(PacketOk)
    else if c == 1 then Some(PacketBad)
    else if c == 2 then Some(PacketChecksumBad)
    else if c == 3 then Some(PacketIncomplete)
    else if c == 4 then Some(PacketComplete)
    else None
  }

  /** Every member of the four enums has a distinct code, and the lookup inverts it. */
  lemma CodesDistinct(a: PacketType, b: ResponseType, c: CommandType, d: ResultType)
    ensures PacketTypeOf(a.Code()) == Some(a)
    ensures ResponseTypeOf(b.Code()) == Some(b)
    ensures CommandTypeOf(c.Code()) == Some(c)
    ensures ResultTypeOf(d.Code()) == Some(d)
  {
  }

  const DataMaxStrLen: nat := 32
  const ParamsCount: nat := 16
  /** `ctypes.sizeof(TPacket)`: two u8 fields, 2 + 32 chars, 16 u32 fields, no padding. */
  const PacketSize: nat := 1 + 1 + 2 + DataMaxStrLen + 4 * ParamsCount
  const CommsMagicNumber: U32 := 0xFCFDFEFF
  const CommsBufferSize: nat := 128
  /** `ctypes.sizeof(TComms)`: two u32 fields, the buffer, the u8 checksum and 3 chars. */
  const CommsPacketSize: nat := 4 + 4 + CommsBufferSize + 1 + 3

  /** The sizes the rest of the protocol relies on: the packet image fits the frame buffer. */
  lemma Sizes()
    ensures PacketSize == 100 && CommsPacketSize == 140
    ensures PacketSize <= CommsBufferSize
  {
  }

  /** A `TPacket` value; `dummy` and `data` are the raw bytes of the `c_char` arrays. */
  datatype Packet = Packet(packetType: Byte, command: Byte, dummy: seq<Byte>, data: seq<Byte>, params: seq<U32>)
  {
    predicate WellFormed()
    {
      |dummy| == 2 && |data| == DataMaxStrLen && |params| == ParamsCount
    }
  }

  /** `TPacket()`: every field zero. */
  function EmptyPacket(): (p: Packet)
    ensures p.WellFormed()
    ensures p.packetType == 0 && p.command == 0
    ensures forall k :: 0 <= k < |p.params| ==> p.params[k] == 0
  {
    Packet(0, 0, Zeros(2), Zeros(DataMaxStrLen), seq(ParamsCount, _ => 0))
  }

  /** `bytes(packet)`: the packed image. */
  function PacketBytes(p: Packet): (r: seq<Byte>)
    requires p.WellFormed()
    ensures |r| == PacketSize
  {
    [p.packetType, p.command] + p.dummy + p.data + LE32s(p.params)
  }

  /** `TPacket.from_buffer(b)`: the packet whose image is the first 100 bytes. */
  function ParsePacket(b: seq<Byte>): (p: Packet)
    requires |b| >= PacketSize
    ensures p.WellFormed()
  {
    Packet(b[0], b[1], b[2..4], b[4..36], FromLE32s(b[36..100]))
  }

  /** The packed layout: type @0, command @1, dummy @2..3, data @4..35, param k @36+4k..39+4k. */
  lemma PacketLayout(p: Packet, k: nat)
    requires p.WellFormed() && k < ParamsCount
    ensures var b := PacketBytes(p);
      b[0] == p.packetType && b[1] == p.command && b[2..4] == p.dummy && b[4..36] == p.data
      && b[36 + 4 * k..40 + 4 * k] == LE32(p.params[k])
  {
    var b := PacketBytes(p);
    assert b[36..100] == LE32s(p.params);
    LE32sAt(p.params, k);
    assert b[36 + 4 * k..40 + 4 * k] == b[36..100][4 * k..4 * k + 4];
  }

  lemma PacketRoundTrip(p: Packet)
    requires p.WellFormed()
    ensures ParsePacket(PacketBytes(p)) == p
  {
    var b := PacketBytes(p);
    assert b[2..4] == p.dummy;
    assert b[4..36] == p.data;
    assert b[36..100] == LE32s(p.params);
    LE32sRoundTrip(p.params);
  }

  lemma PacketBytesRoundTrip(b: seq<Byte>)
    requires |b| == PacketSize
    ensures PacketBytes(ParsePacket(b)) == b
  {
    FromLE32sRoundTrip(b[36..100]);
    assert b == [b[0], b[1]] + b[2..4] + b[4..36] + b[36..100];
  }

  /** A `TComms` value. */
  datatype Comms = Comms(magic: U32, dataSize: U32, buffer: seq<Byte>, checksum: Byte, dummy: seq<Byte>)
  {
    predicate WellFormed()
    {
      |buffer| == CommsBufferSize && |dummy| == 3
    }
  }

  /** `bytes(comms)`: the packed 140-byte image. */
  function CommsBytes(c: Comms): (r: seq<Byte>)
    requires c.WellFormed()
    ensures |r| == CommsPacketSize
  {
    LE32(c.magic) + LE32(c.dataSize) + c.buffer + [c.checksum] + c.dummy
  }

  /** `TComms.from_buffer_copy(d)`: reads the first 140 bytes (a shorter buffer raises). */
  function ParseComms(d: seq<Byte>): (c: Comms)
    requires |d| >= CommsPacketSize
    ensures c.WellFormed()
  {
    Comms(FromLE32(d[0..4]), FromLE32(d[4..8]), d[8..136], d[136], d[137..140])
  }

  /** The packed layout: magic @0..3, dataSize @4..7, buffer @8..135, checksum @136, dummy @137..139. */
  lemma CommsLayout(c: Comms)
    requires c.WellFormed()
    ensures var b := CommsBytes(c);
      b[0..4] == LE32(c.magic) && b[4..8] == LE32(c.dataSize) && b[8..136] == c.buffer
      && b[136] == c.checksum && b[137..140] == c.dummy
  {
    LE32RoundTrip(c.magic);
    LE32RoundTrip(c.dataSize);
  }

  lemma CommsRoundTrip(c: Comms)
    requires c.WellFormed()
    ensures ParseComms(CommsBytes(c)) == c
  {
    CommsLayout(c);
    LE32RoundTrip(c.magic);
    LE32RoundTrip(c.dataSize);
  }

  lemma CommsBytesRoundTrip(d: seq<Byte>)
    requires |d| >= CommsPacketSize
    ensures CommsBytes(ParseComms(d)) == d[..CommsPacketSize]
  {
    FromLE32RoundTrip(d[0..4]);
    FromLE32RoundTrip(d[4..8]);
    assert d[..140] == d[0..4] + d[4..8] + d[8..136] + [d[136]] + d[137..140];
  }
}
