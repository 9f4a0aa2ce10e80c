/**
 * Framing of a packet for the serial link: the 100-byte packet image is copied
 * into a zeroed 128-byte buffer, protected by the XOR of the buffer bytes and
 * prefixed by a magic number and the buffer length.
 */
module ControlSerialize {
  import opened Wrappers
  import opened Bytes
  import opened ControlConstants

  /** `calc_checksum(d, size)`: the XOR of the first `size` bytes (a shorter `d` raises IndexError). */
  method CalcChecksum(d: seq<Byte>, size: nat) returns (chk: Byte)
    requires size <= |d|
    ensures chk == Xor(d[..size])
  {
    chk := 0;
    var i := 0;
    while i < size
      invariant 0 <= i <= size
      invariant chk == Xor(d[..i])
    {
      assert d[..i + 1][..i] == d[..i];
      chk := XorByte(chk, d[i]);
      i := i + 1;
    }
  }

  /** The checksum of all-zero bytes is 0. */
  lemma ChecksumOfZeros(n: nat)
    ensures Xor(Zeros(n)) == 0
  {
    XorZeros(n);
  }

  /** The frame buffer: the packet image followed by zeros up to 128 bytes. */
  function FrameBuffer(p: Packet): (b: seq<Byte>)
    requires p.WellFormed()
    ensures |b| == CommsBufferSize
  {
    PacketBytes(p) + Zeros(CommsBufferSize - PacketSize)
  }

  /** What `serialize(p, magic)` returns. */
  function Frame(p: Packet, magic: U32): (f: seq<Byte>)
    requires p.WellFormed()
    ensures |f| == CommsPacketSize
  {
    var buffer := FrameBuffer(p);
    CommsBytes(Comms(magic, CommsBufferSize, buffer, Xor(buffer), Zeros(3)))
  }

  /** `serialize(payload, magic_number)`: memmove into a zeroed C array, checksum it, pack the frame. */
  method Serialize(p: Packet, magic: U32) returns (r: seq<Byte>)
    requires p.WellFormed()
    ensures r == Frame(p, magic)
  {
    var payloadBytes := new Byte[CommsBufferSize](_ => 0);
    var image := PacketBytes(p);
    for i := 0 to PacketSize
      invariant payloadBytes[..i] == image[..i]
      invariant forall k :: i <= k < CommsBufferSize ==> payloadBytes[k] == 0
    {
      payloadBytes[i] := image[i];
    }
    assert payloadBytes[..] == FrameBuffer(p) by {
      assert payloadBytes[..PacketSize] == image;
      forall k | PacketSize <= k < CommsBufferSize ensures payloadBytes[k] == FrameBuffer(p)[k] { }
    }
    var dataSize := payloadBytes.Length;
    var chk := CalcChecksum(payloadBytes[..], dataSize);
    assert payloadBytes[..][..dataSize] == payloadBytes[..];
    r := CommsBytes(Comms(magic, dataSize, payloadBytes[..], chk, Zeros(3)));
  }

  /**
   * The serialized layout: magic at 0, dataSize 128 at 4, the packet image at 8..107,
   * zeros at 108..135, the XOR of bytes 8..135 at 136, three zero bytes.
   */
  lemma FrameLayout(p: Packet, magic: U32)
    requires p.WellFormed()
    ensures var f := Frame(p, magic);
      && FromLE32(f[0..4]) == magic && FromLE32(f[4..8]) == CommsBufferSize
      && f[8..108] == PacketBytes(p) && f[108..136] == Zeros(28)
      && f[136] == Xor(f[8..136]) && f[137..140] == Zeros(3)
  {
    var buffer := FrameBuffer(p);
    var f := Frame(p, magic);
    CommsLayout(Comms(magic, CommsBufferSize, buffer, Xor(buffer), Zeros(3)));
    LE32RoundTrip(magic);
    LE32RoundTrip(CommsBufferSize);
    assert f[8..108] == buffer[..100];
    assert f[108..136] == buffer[100..];
  }

  datatype Decoded =
    | Decoded(result: ResultType, payload: Option<seq<Byte>>)
      /** `calc_checksum` indexed past the 128-byte buffer: a received dataSize above 128. */
    | IndexOutOfRange

  /** `deserialize(d, magic_number)`. */
  function Deserialize(d: seq<Byte>, magic: U32): (r: Decoded)
    requires |d| >= CommsPacketSize
    ensures r == Decoded(PacketBad, None) <==> FromLE32(d[0..4]) != magic
    ensures r.IndexOutOfRange? <==> FromLE32(d[0..4]) == magic && FromLE32(d[4..8]) > CommsBufferSize
    ensures r.Decoded? && r.result != PacketBad ==> r.payload == Some(d[8..136])
    ensures r.Decoded? && r.result == PacketOk
      <==> FromLE32(d[0..4]) == magic && FromLE32(d[4..8]) <= CommsBufferSize && d[136] == Xor(d[8..8 + FromLE32(d[4..8])])
    ensures r.Decoded? ==> r.result in {PacketOk, PacketBad, PacketChecksumBad}
  {
    var comms := ParseComms(d);
    var payload := comms.buffer;
    if comms.magic != magic then Decoded(PacketBad, None)
    else if comms.dataSize > CommsBufferSize then IndexOutOfRange
    else
      assert payload[..comms.dataSize] == d[8..8 + comms.dataSize];
      if comms.checksum != Xor(payload[..comms.dataSize]) then Decoded(PacketChecksumBad, Some(payload))
      else Decoded(PacketOk, Some(payload))
  }

  /** Round trip: a serialized packet deserializes to PACKET_OK, and its payload holds the packet. */
  lemma DeserializeFrame(p: Packet, magic: U32)
    requires p.WellFormed()
    ensures Deserialize(Frame(p, magic), magic) == Decoded(PacketOk, Some(FrameBuffer(p)))
    ensures ParsePacket(FrameBuffer(p)) == p
  {
    var f := Frame(p, magic);
    FrameLayout(p, magic);
    assert f[8..136] == FrameBuffer(p);
    PacketRoundTrip(p);
    var b := FrameBuffer(p);
    var img := PacketBytes(p);
    assert b[2..4] == img[2..4] && b[4..36] == img[4..36] && b[36..100] == img[36..100];
  }

  /** Any change to one buffer byte of a serialized frame is reported as a checksum mismatch. */
  lemma CorruptedBufferDetected(p: Packet, magic: U32, i: nat, x: Byte)
    requires p.WellFormed() && i < CommsBufferSize && x != Frame(p, magic)[8 + i]
    ensures var g := Frame(p, magic)[8 + i := x];
      Deserialize(g, magic) == Decoded(PacketChecksumBad, Some(g[8..136]))
  {
    var f := Frame(p, magic);
    var g := f[8 + i := x];
    FrameLayout(p, magic);
    assert g[0..4] == f[0..4] && g[4..8] == f[4..8] && g[136] == f[136];
    assert g[8..136] == f[8..136][i := x];
    XorDetectsOneByteChange(f[8..136], i, x);
  }

  /** A changed checksum byte is reported as a checksum mismatch too. */
  lemma CorruptedChecksumDetected(p: Packet, magic: U32, x: Byte)
    requires p.WellFormed() && x != Frame(p, magic)[136]
    ensures var g := Frame(p, magic)[136 := x];
      Deserialize(g, magic) == Decoded(PacketChecksumBad, Some(g[8..136]))
  {
    var f := Frame(p, magic);
    var g := f[136 := x];
    FrameLayout(p, magic);
    assert g[0..4] == f[0..4] && g[4..8] == f[4..8] && g[8..136] == f[8..136];
  }

  /** A frame carrying another magic number is PACKET_BAD, whatever its checksum. */
  lemma WrongMagicRejected(p: Packet, sent: U32, expected: U32)
    requires p.WellFormed() && sent != expected
    ensures Deserialize(Frame(p, sent), expected) == Decoded(PacketBad, None)
  {
    FrameLayout(p, sent);
  }
}
