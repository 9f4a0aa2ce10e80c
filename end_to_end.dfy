/**
 * The laptop client against the TLS relay nodes: what the relay makes of the
 * bytes the client writes, and what the client makes of the frames the relay sends.
 */
module EndToEnd {
  import opened Bytes
  import opened Strings
  import opened ControlConstants
  import opened Control
  import opened NetConstants
  import opened Client
  import R = TlsRecv
  import ArduinoRecv
  import TlsSend

  /** A stream of whole 10-byte frames reaches the relay's reassembly whole and in order. */
  lemma {:induction false} FramesReassembled(frames: seq<seq<Byte>>)
    requires forall k :: 0 <= k < |frames| ==> |frames[k]| == R.ExpectedMessageSize
    ensures R.Chunks(R.Flatten(frames)) == frames && R.Leftover(R.Flatten(frames)) == []
  {
    if frames != [] {
      FramesReassembled(frames[1..]);
      var s := R.Flatten(frames);
      assert s[..R.ExpectedMessageSize] == frames[0];
      assert s[R.ExpectedMessageSize..] == R.Flatten(frames[1..]);
    }
  }

  /**
   * With the corrected `sendData`, every key's frame, written one after another, is a
   * frame the relay handles, in order.
   */
  lemma KeyFramesReassembled(keys: seq<Byte>)
    ensures R.Chunks(R.Flatten(FramesOf(keys, FrameLength))) == FramesOf(keys, FrameLength)
  {
    FramesReassembled(FramesOf(keys, FrameLength));
  }

  lemma {:induction false} FlattenLength(pieces: seq<seq<Byte>>, width: nat)
    requires forall k :: 0 <= k < |pieces| ==> |pieces[k]| == width
    ensures |R.Flatten(pieces)| == width * |pieces|
  {
    if pieces != [] {
      FlattenLength(pieces[1..], width);
    }
  }

  lemma {:induction false} ChunksCount(s: seq<Byte>)
    ensures |R.Chunks(s)| == |s| / R.ExpectedMessageSize
    decreases |s|
  {
    if |s| >= R.ExpectedMessageSize {
      ChunksCount(s[R.ExpectedMessageSize..]);
    }
  }

  /**
   * The writer as written sends 8 bytes per key, so of the `m` frames it writes while
   * every write succeeds the relay handles only `8 * m / 10`: fewer than `m` once
   * any key was sent.
   */
  lemma WriterAsWrittenLosesFrames(keys: seq<Byte>, results: seq<int>)
    requires |results| >= |keys| && forall k :: 0 <= k < |results| ==> results[k] > 0
    ensures var w := Writes(true, keys, results, PointerSize).0;
      var handled := |R.Chunks(R.Flatten(w))|;
      handled == 8 * |w| / 10 && (|w| > 0 ==> handled < |w|)
  {
    WritesAllSucceed(keys, results, PointerSize);
    var w := Writes(true, keys, results, PointerSize).0;
    FlattenLength(w, PointerSize);
    ChunksCount(R.Flatten(w));
  }

  /** The forward key's frame is the command line "f 5 50" at the relay. */
  lemma ForwardKeyCommandLine()
    ensures var f := KeyFrame(Key('f')).value;
      R.CommandLine(f[1] as char, FromLE32(f[2..6]), FromLE32(f[6..10])) == "f 5 50"
  {
    var f := KeyFrame(Key('f')).value;
    LE32RoundTrip(DefaultDist);
    LE32RoundTrip(DefaultPower);
    assert f[2..6] == LE32(DefaultDist) && f[6..10] == LE32(DefaultPower);
    DefaultNumerals();
  }

  /**
   * A lower-case move key's frame is published on "arduino/send" as that move with the
   * client's default distance (or angle) and power as its two parameters.
   */
  lemma MoveKeyPublished(key: Byte)
    requires key in {Key('f'), Key('b'), Key('l'), Key('r')}
    ensures var p1 := if key in {Key('f'), Key('b')} then DefaultDist else DefaultAng;
      var p2 := if key in {Key('f'), Key('b')} then DefaultPower else TurningPower;
      R.HandleNetworkData(KeyFrame(key).value) == R.FrameResult(R.Published(R.ArduinoSendTopic,
        ParsedCommand(PacketCommand, MoveCommand([key as char]).value,
          [Token(NatToString(p1)), Token(NatToString(p2))] + ZeroParams(14))), false)
  {
    var f := KeyFrame(key).value;
    var p1 := if key in {Key('f'), Key('b')} then DefaultDist else DefaultAng;
    var p2 := if key in {Key('f'), Key('b')} then DefaultPower else TurningPower;
    assert f == [NetCommandPacket, key] + LE32(p1) + LE32(p2);
    LE32RoundTrip(p1);
    LE32RoundTrip(p2);
    var g := f[1..];
    assert g == [key] + LE32(p1) + LE32(p2);
    assert g[1..5] == LE32(p1);
    assert g[5..9] == LE32(p2);
    R.HandleCommandMove(g);
  }

  /** The forward key makes the relay publish Forward with parameters "5" and "50". */
  lemma ForwardKeyPublished()
    ensures R.HandleNetworkData(KeyFrame(Key('f')).value) == R.FrameResult(R.Published(R.ArduinoSendTopic,
      ParsedCommand(PacketCommand, Forward, [Token("5"), Token("50")] + ZeroParams(14))), false)
  {
    MoveKeyPublished(Key('f'));
    DefaultNumerals();
  }

  lemma DefaultNumerals()
    ensures NatToString(DefaultDist) == "5" && NatToString(DefaultPower) == "50"
  {
    assert NatToString(5) == "5";
    assert NatToString(50) == NatToString(5) + [DigitChar(0)];
  }

  /** Lower-case stop, clear and get-stats keys are published with sixteen zero parameters. */
  lemma PlainKeyPublished(key: Byte)
    requires key in {Key('s'), Key('c'), Key('g')}
    ensures R.HandleNetworkData(KeyFrame(key).value) == R.FrameResult(R.Published(R.ArduinoSendTopic,
      ParsedCommand(PacketCommand, PlainCommand([key as char]).value, ZeroParams(ParamsCount))), false)
  {
    R.HandleCommandPlain(KeyFrame(key).value[1..]);
  }

  /**
   * The upper-case keys and the `h`, `v` (sent as `u`) and `t` (sent as `m`) keys build
   * frames the relay's parser does not recognise: nothing is published and exit is not set.
   */
  lemma OtherKeysNotPublished(key: Byte)
    requires key in {Key('F'), Key('B'), Key('L'), Key('R'), Key('S'), Key('C'), Key('G'), Key('h'), Key('v'), Key('t')}
    ensures R.HandleNetworkData(KeyFrame(key).value) == R.FrameResult(R.NotPublished, false)
  {
    var f := KeyFrame(key).value;
    R.HandleCommandOther(f[1..]);
  }

  /** The relay's error frame `[NET_ERROR_PACKET, code]` is reported by the client as that code's error kind. */
  lemma ErrorFrameAtClient(code: Byte, stale: seq<Byte>, colourCode: int, ultrasonicCode: int)
    requires |stale| == ReadBufferSize - 2
    requires colourCode != ultrasonicCode && colourCode !in {0, 1, 2, 3} && ultrasonicCode !in {0, 1, 2, 3}
    ensures HandleNetwork([NetErrorPacket, code] + stale, colourCode, ultrasonicCode) == ErrorReport(HandleError(code))
  {
  }

  /**
   * The corrected status frame `[NET_STATUS_PACKET] + params` is read back by the client
   * as the sixteen parameters, each as the signed 32-bit value with the same bits.
   */
  lemma {:induction false} StatusFrameAtClient(params: seq<U32>, stale: seq<Byte>, colourCode: int, ultrasonicCode: int)
    requires |params| == ParamsCount && |stale| == ReadBufferSize - 65
    requires colourCode != ultrasonicCode && colourCode !in {0, 1, 2, 3} && ultrasonicCode !in {0, 1, 2, 3}
    ensures var e := HandleNetwork([NetStatusPacket] + LE32s(params) + stale, colourCode, ultrasonicCode);
      e.StatusReport? && |e.data| == ParamsCount &&
      forall k :: 0 <= k < ParamsCount ==> e.data[k] % 0x1_0000_0000 == params[k]
  {
    var buffer := [NetStatusPacket] + LE32s(params) + stale;
    assert buffer[1..65] == LE32s(params);
    Int32sOfWords(buffer, params);
  }

  /**
   * The status frame as the relay writes it puts the parameters at offsets 37..100, so
   * the client's first nine values are always zero: a first parameter of 1 reads back as 0.
   */
  lemma StatusAsWrittenReadsZeros(params: seq<U32>, stale: seq<Byte>, colourCode: int, ultrasonicCode: int)
    requires |params| == ParamsCount && |stale| == ReadBufferSize - 101 && params[0] == 1
    requires colourCode != ultrasonicCode && colourCode !in {0, 1, 2, 3} && ultrasonicCode !in {0, 1, 2, 3}
    ensures var e := HandleNetwork([NetStatusPacket] + PacketBytes(TlsSend.ParamsOnlyPacket(params)) + stale, colourCode, ultrasonicCode);
      e.StatusReport? && e.data[0] == 0 && e.data[0] != params[0]
  {
    var buffer := [NetStatusPacket] + PacketBytes(TlsSend.ParamsOnlyPacket(params)) + stale;
    assert buffer[1..5] == [0, 0, 0, 0];
  }

  /** A message shorter than 32 bytes reaches the client whole, NUL-terminated by the padding. */
  lemma MessageFrameAtClient(message: seq<Byte>, stale: seq<Byte>, colourCode: int, ultrasonicCode: int)
    requires |message| < DataMaxStrLen && NoNul(message) && |stale| == ReadBufferSize - 1 - DataMaxStrLen
    requires colourCode != ultrasonicCode && colourCode !in {0, 1, 2, 3} && ultrasonicCode !in {0, 1, 2, 3}
    ensures HandleNetwork([NetMessagePacket] + message + Zeros(DataMaxStrLen - |message|) + stale, colourCode, ultrasonicCode)
      == MessageReport(message)
  {
    var buffer := [NetMessagePacket] + message + Zeros(DataMaxStrLen - |message|) + stale;
    CStringOfTerminated(message, Zeros(DataMaxStrLen - |message|) + stale);
    assert buffer[1..] == message + (Zeros(DataMaxStrLen - |message|) + stale);
  }

  predicate NoNul(s: seq<Byte>) { forall k :: 0 <= k < |s| ==> s[k] != 0 }

  lemma {:induction false} CStringOfTerminated(s: seq<Byte>, rest: seq<Byte>)
    requires NoNul(s) && |rest| > 0 && rest[0] == 0
    ensures ArduinoRecv.CString(s + rest) == s
  {
    if s != [] {
      assert (s + rest)[1..] == s[1..] + rest;
      CStringOfTerminated(s[1..], rest);
    } else {
      assert s + rest == rest;
    }
  }

  /** The first 8 bytes of the forward key's frame: the type, the key and the distance, then half of the power. */
  lemma ForwardFramePrefix()
    ensures KeyFrame(Key('f')).value[..PointerSize] == [3, 102, 5, 0, 0, 0, 50, 0]
  {
    assert LE32(DefaultDist) == [5, 0, 0, 0] && LE32(DefaultPower) == [50, 0, 0, 0];
  }

  /** Two 8-byte writes make one whole frame and six pending bytes at the relay. */
  lemma OverlappedWire(wire: seq<Byte>)
    requires wire == [3, 102, 5, 0, 0, 0, 50, 0] + [3, 102, 5, 0, 0, 0, 50, 0]
    ensures R.Chunks(wire) == [wire[..10]] && |R.Leftover(wire)| == 6
    ensures wire[..10] == [3, 102, 5, 0, 0, 0, 50, 0, 3, 102]
  {
    assert |wire[10..]| == 6;
    assert R.Chunks(wire[10..]) == [];
  }

  /** The overlapped frame is Forward with distance 5 and power 1711472690 at the relay. */
  lemma OverlappedFramePublished(frame: seq<Byte>)
    requires frame == [3, 102, 5, 0, 0, 0, 50, 0, 3, 102]
    ensures R.HandleNetworkData(frame) == R.FrameResult(R.Published(R.ArduinoSendTopic,
      ParsedCommand(PacketCommand, Forward, [Token(NatToString(5)), Token(NatToString(1711472690))] + ZeroParams(14))), false)
  {
    var b := frame[1..];
    assert b[1..5] == [5, 0, 0, 0] && b[5..9] == [50, 0, 3, 102];
    assert FromLE32(b[1..5]) == 5 && FromLE32(b[5..9]) == 1711472690;
    assert MoveCommand([b[0] as char]).value == Forward;
    R.HandleCommandMove(b);
  }

  /**
   * `sendData` as written sends the first 8 bytes of each frame, so two forward keys put
   * 16 bytes on the wire: the relay's first frame takes the second frame's first two bytes
   * as the top of its power parameter, and publishes Forward with a power of 1711472690.
   */
  lemma SendDataAsWrittenCorruptsPower(results: seq<int>)
    requires |results| >= 2 && results[0] > 0
    ensures var wire := R.Flatten(Writes(true, [Key('f'), Key('f')], results, PointerSize).0);
      wire == KeyFrame(Key('f')).value[..PointerSize] + KeyFrame(Key('f')).value[..PointerSize] &&
      R.Chunks(wire) == [wire[..10]] && |R.Leftover(wire)| == 6 &&
      R.HandleNetworkData(wire[..10]) == R.FrameResult(R.Published(R.ArduinoSendTopic,
        ParsedCommand(PacketCommand, Forward, [Token(NatToString(5)), Token(NatToString(1711472690))] + ZeroParams(14))), false)
  {
    var f8 := KeyFrame(Key('f')).value[..PointerSize];
    ForwardTwiceWrites(results);
    assert R.Flatten([f8, f8]) == f8 + f8 by {
      assert R.Flatten([f8]) == f8;
    }
    ForwardFramePrefix();
    OverlappedWire(f8 + f8);
    OverlappedFramePublished((f8 + f8)[..10]);
  }

  /** Two forward keys, the first write succeeding: the writer as written sends two 8-byte fronts. */
  lemma ForwardTwiceWrites(results: seq<int>)
    requires |results| >= 2 && results[0] > 0
    ensures var f8 := KeyFrame(Key('f')).value[..PointerSize];
      Writes(true, [Key('f'), Key('f')], results, PointerSize).0 == [f8, f8]
  {
    var f := KeyFrame(Key('f'));
    assert f.Some?;
    var keys := [Key('f'), Key('f')];
    var last := Writes(results[1] > 0, [], results[2..], PointerSize);
    assert last.0 == [];
    var second := Writes(true, keys[1..], results[1..], PointerSize);
    assert keys[1..][1..] == [] && results[1..][1..] == results[2..];
    assert second.0 == [f.value[..PointerSize]] + last.0;
  }

  /** With the corrected `sendData`, two forward keys are two Forward commands with power 50. */
  lemma SendDataForwardTwice()
    ensures var f := KeyFrame(Key('f')).value;
      R.Chunks(f + f) == [f, f] && R.Leftover(f + f) == [] &&
      R.HandleNetworkData(f) == R.FrameResult(R.Published(R.ArduinoSendTopic,
        ParsedCommand(PacketCommand, Forward, [Token("5"), Token("50")] + ZeroParams(14))), false)
  {
    var f := KeyFrame(Key('f')).value;
    FramesReassembled([f, f]);
    assert R.Flatten([f, f]) == f + f by {
      assert R.Flatten([f]) == f;
    }
    ForwardKeyPublished();
  }
}
