/**
 * The TLS relay's receiving side: a connection's byte stream is cut into
 * 10-byte command frames `[type][command char][param1 u32][param2 u32]`;
 * command frames become a command line for the command parser, and a valid
 * command is published on `arduino/send`.
 */
module TlsRecv {
  import opened Wrappers
  import opened Bytes
  import opened Strings
  import opened ControlConstants
  import opened Control
  import opened NetConstants

  const NetTypeSize: nat := 1
  const CmdSize: nat := 1
  const ParamSize: nat := 4
  const ExpectedMessageSize: nat := NetTypeSize * 1 + CmdSize * 1 + ParamSize * 2
  const BufferSize: nat := 10
  const ArduinoSendTopic: string := "arduino/send"

  /** The relay's own size assertion: the expected frame exactly fills the buffer. */
  lemma FrameSize()
    ensures ExpectedMessageSize == 10 && ExpectedMessageSize <= BufferSize
  {
  }

  /** The complete frames of a byte stream, in order. */
  function Chunks(s: seq<Byte>): (r: seq<seq<Byte>>)
    ensures forall k :: 0 <= k < |r| ==> |r[k]| == ExpectedMessageSize
    decreases |s|
  {
    if |s| < ExpectedMessageSize then [] else [s[..ExpectedMessageSize]] + Chunks(s[ExpectedMessageSize..])
  }

  /** The bytes after the last complete frame. */
  function Leftover(s: seq<Byte>): (r: seq<Byte>)
    ensures |r| < ExpectedMessageSize
    decreases |s|
  {
    if |s| < ExpectedMessageSize then s else Leftover(s[ExpectedMessageSize..])
  }

  function Flatten(frames: seq<seq<Byte>>): seq<Byte>
  {
    if frames == [] then [] else frames[0] + Flatten(frames[1..])
  }

  /** Nothing is lost or reordered: the frames followed by the leftover are the stream. */
  lemma {:induction false} ChunksCover(s: seq<Byte>)
    ensures Flatten(Chunks(s)) + Leftover(s) == s
    decreases |s|
  {
    if |s| >= ExpectedMessageSize {
      ChunksCover(s[ExpectedMessageSize..]);
      var c := Chunks(s);
      assert c[1..] == Chunks(s[ExpectedMessageSize..]);
      assert s == s[..ExpectedMessageSize] + s[ExpectedMessageSize..];
    }
  }

  /** One more byte either completes a frame out of the leftover or extends the leftover. */
  lemma {:induction false} ChunksSnoc(s: seq<Byte>, x: Byte)
    ensures Chunks(s + [x]) == Chunks(s) + (if |Leftover(s)| == ExpectedMessageSize - 1 then [Leftover(s) + [x]] else [])
    ensures Leftover(s + [x]) == if |Leftover(s)| == ExpectedMessageSize - 1 then [] else Leftover(s) + [x]
    decreases |s|
  {
    var t := s + [x];
    if |s| >= ExpectedMessageSize {
      assert t[..ExpectedMessageSize] == s[..ExpectedMessageSize];
      assert t[ExpectedMessageSize..] == s[ExpectedMessageSize..] + [x];
      ChunksSnoc(s[ExpectedMessageSize..], x);
    } else if |s| == ExpectedMessageSize - 1 {
      assert t[..ExpectedMessageSize] == t;
      assert t[ExpectedMessageSize..] == [];
    }
  }

  /** Leftovers carry across calls: feeding `s` then `t` yields the frames of `s + t`. */
  lemma {:induction false} ChunksAppend(s: seq<Byte>, t: seq<Byte>)
    ensures Chunks(s + t) == Chunks(s) + Chunks(Leftover(s) + t)
    ensures Leftover(s + t) == Leftover(Leftover(s) + t)
    decreases |s|
  {
    if |s| >= ExpectedMessageSize {
      var u := s + t;
      assert u[..ExpectedMessageSize] == s[..ExpectedMessageSize];
      assert u[ExpectedMessageSize..] == s[ExpectedMessageSize..] + t;
      ChunksAppend(s[ExpectedMessageSize..], t);
    }
  }

  /** The reassembly state of one accepted connection: `connectionBuffer` and `offset`. */
  class Reassembler {
    var connectionBuffer: array<Byte>
    var offset: nat

    predicate Valid()
      reads this
    {
      connectionBuffer.Length == BufferSize && offset < ExpectedMessageSize
    }

    /** The bytes of the frame not yet complete. */
    function Pending(): seq<Byte>
      reads this, connectionBuffer
      requires Valid()
    {
      connectionBuffer[..offset]
    }

    /** On accepting a connection: a fresh zeroed buffer and offset 0. */
    constructor()
      ensures Valid() && fresh(connectionBuffer) && Pending() == []
    {
      connectionBuffer := new Byte[BufferSize](_ => 0);
      offset := 0;
    }

    /**
     * The bytes of one `recv`, copied one at a time; each time the 10th byte of a
     * frame arrives the frame is handed on and the offset resets.
     */
    method Feed(networkMessage: seq<Byte>) returns (frames: seq<seq<Byte>>)
      requires Valid()
      modifies this, connectionBuffer
      ensures Valid() && connectionBuffer == old(connectionBuffer)
      ensures frames == Chunks(old(Pending()) + networkMessage)
      ensures Pending() == Leftover(old(Pending()) + networkMessage)
    {
      ghost var start := Pending();
      assert Chunks(start) == [] && Leftover(start) == start;
      frames := [];
      for i := 0 to |networkMessage|
        invariant Valid() && connectionBuffer == old(connectionBuffer)
        invariant frames == Chunks(start + networkMessage[..i])
        invariant Pending() == Leftover(start + networkMessage[..i])
      {
        ChunksSnoc(start + networkMessage[..i], networkMessage[i]);
        assert start + networkMessage[..i + 1] == start + networkMessage[..i] + [networkMessage[i]];
        ghost var before := connectionBuffer[..offset];
        connectionBuffer[offset] := networkMessage[i];
        assert connectionBuffer[..offset + 1] == before + [networkMessage[i]];
        offset := offset + 1;
        if offset == ExpectedMessageSize {
          frames := frames + [connectionBuffer[0..ExpectedMessageSize]];
          offset := 0;
        }
      }
      assert networkMessage[..|networkMessage|] == networkMessage;
    }
  }

  /** What handling one frame did. */
  datatype Effect =
    | Ignored                                   // a non-command network type
    | NotPublished                              // `handleCommand` returned False
    | Published(topic: string, command: ParsedCommand)
    | DecodeError                               // the command byte is not UTF-8: UnicodeDecodeError

  datatype FrameResult = FrameResult(effect: Effect, setsExit: bool)

  /** The command line `f"{command} {param1} {param2}"` built from a frame's last 9 bytes. */
  function CommandLine(c: char, p1: U32, p2: U32): string
  {
    [c] + " " + NatToString(p1) + " " + NatToString(p2)
  }

  /**
   * `handleCommand(buffer)`: byte 0 as a one-character UTF-8 string (a byte of 0x80
   * or more on its own is not valid UTF-8), bytes 1..4 and 5..8 as unsigned 32-bit ints.
   */
  function HandleCommand(buffer: seq<Byte>): (r: FrameResult)
    requires |buffer| == ExpectedMessageSize - NetTypeSize
    ensures r.effect.DecodeError? <==> buffer[0] >= 0x80
    ensures r.effect.Published? ==> r.effect.topic == ArduinoSendTopic && !r.setsExit
    ensures r.effect != Ignored
  {
    if buffer[0] >= 0x80 then FrameResult(DecodeError, false)
    else
      var command := buffer[0] as char;
      var param1 := FromLE32(buffer[1..5]);
      var param2 := FromLE32(buffer[5..9]);
      var parseResult := ParseUserInput(CommandLine(command, param1, param2), "");
      if parseResult.command.None? then FrameResult(NotPublished, parseResult.setsExit)
      else FrameResult(Published(ArduinoSendTopic, parseResult.command.value), false)
  }

  /** `handleNetworkData(buffer)`: only command frames are handled. */
  function HandleNetworkData(frame: seq<Byte>): (r: FrameResult)
    requires |frame| == ExpectedMessageSize
    ensures frame[0] != NetCommandPacket ==> r == FrameResult(Ignored, false)
    ensures frame[0] == NetCommandPacket ==> r == HandleCommand(frame[1..])
  {
    if frame[0] == NetCommandPacket then HandleCommand(frame[NetTypeSize..]) else FrameResult(Ignored, false)
  }

  /** For a command character that is not whitespace the command line has exactly three tokens. */
  lemma CommandLineTokens(c: char, p1: U32, p2: U32)
    requires !IsSpace(c)
    ensures Tokens(CommandLine(c, p1, p2)) == [[c], NatToString(p1), NatToString(p2)]
  {
    NatToStringValue(p1);
    NatToStringValue(p2);
    DigitsHaveNoSpace(NatToString(p1));
    DigitsHaveNoSpace(NatToString(p2));
    TokensOfTriple([c], NatToString(p1), NatToString(p2));
  }

  /** A whitespace command character leaves the two numbers as the only tokens. */
  lemma BlankCommandLineTokens(c: char, p1: U32, p2: U32)
    requires IsSpace(c)
    ensures Tokens(CommandLine(c, p1, p2)) == [NatToString(p1), NatToString(p2)]
  {
    NatToStringValue(p1);
    NatToStringValue(p2);
    DigitsHaveNoSpace(NatToString(p1));
    DigitsHaveNoSpace(NatToString(p2));
    TokensOfSpacedPair(c, NatToString(p1), NatToString(p2));
  }

  /** A move command frame publishes both numbers as the two parameters, padded with zeros. */
  lemma HandleCommandMove(buffer: seq<Byte>)
    requires |buffer| == 9 && buffer[0] < 0x80 && MoveCommand([buffer[0] as char]).Some?
    ensures HandleCommand(buffer) == FrameResult(Published(ArduinoSendTopic,
      ParsedCommand(PacketCommand, MoveCommand([buffer[0] as char]).value,
        [Token(NatToString(FromLE32(buffer[1..5]))), Token(NatToString(FromLE32(buffer[5..9])))] + ZeroParams(14))), false)
  {
    var c := buffer[0] as char;
    CommandLineTokens(c, FromLE32(buffer[1..5]), FromLE32(buffer[5..9]));
    MoveWithParams(Tokens(CommandLine(c, FromLE32(buffer[1..5]), FromLE32(buffer[5..9]))), "");
  }

  /** A stop, clear or get-stats frame publishes sixteen zero parameters. */
  lemma HandleCommandPlain(buffer: seq<Byte>)
    requires |buffer| == 9 && buffer[0] < 0x80 && PlainCommand([buffer[0] as char]).Some?
    ensures HandleCommand(buffer) == FrameResult(Published(ArduinoSendTopic,
      ParsedCommand(PacketCommand, PlainCommand([buffer[0] as char]).value, ZeroParams(ParamsCount))), false)
  {
    CommandLineTokens(buffer[0] as char, FromLE32(buffer[1..5]), FromLE32(buffer[5..9]));
  }

  /** A `q` frame publishes nothing and sets the node's exit event. */
  lemma HandleCommandQuit(buffer: seq<Byte>)
    requires |buffer| == 9 && buffer[0] == 'q' as int
    ensures HandleCommand(buffer) == FrameResult(NotPublished, true)
  {
    CommandLineTokens('q', FromLE32(buffer[1..5]), FromLE32(buffer[5..9]));
  }

  /** Any other ASCII command byte publishes nothing and leaves the exit event alone. */
  lemma HandleCommandOther(buffer: seq<Byte>)
    requires |buffer| == 9 && buffer[0] < 0x80
    requires MoveCommand([buffer[0] as char]).None? && PlainCommand([buffer[0] as char]).None? && buffer[0] != 'q' as int
    ensures HandleCommand(buffer) == FrameResult(NotPublished, false)
  {
    var c := buffer[0] as char;
    var p1 := FromLE32(buffer[1..5]);
    var p2 := FromLE32(buffer[5..9]);
    var line := CommandLine(c, p1, p2);
    if IsSpace(c) {
      BlankCommandLineTokens(c, p1, p2);
      NatToStringValue(p1);
      var s1 := NatToString(p1);
      assert IsDigit(s1[0]);
      assert Tokens(line)[0] == s1;
    } else {
      CommandLineTokens(c, p1, p2);
      assert Tokens(line)[0] == [c];
    }
    UnknownCommand(Tokens(line), "");
  }


  /** One `recvNetworkData` result: data (size > 0), nothing yet (size 0), or an error (size < 0). */
  datatype RecvResult = Data(bytes: seq<Byte>) | NoData | RecvError

  /** Why the connection loop ended. */
  datatype ConnectionEnd = Disconnected | ExitSet | HandlerRaised | StillOpen

  /** The frames handled in order, up to and including one whose handling raises. */
  function HandleFrames(frames: seq<seq<Byte>>): (r: seq<FrameResult>)
    requires forall k :: 0 <= k < |frames| ==> |frames[k]| == ExpectedMessageSize
    ensures |r| <= |frames|
    ensures forall k :: 0 <= k < |r| ==> r[k] == HandleNetworkData(frames[k])
    ensures forall k :: 0 <= k < |r| - 1 ==> !r[k].effect.DecodeError?
    ensures |r| < |frames| ==> |r| > 0 && r[|r| - 1].effect.DecodeError?
  {
    if frames == [] then []
    else
      var first := HandleNetworkData(frames[0]);
      if first.effect.DecodeError? then [first]
      else
        var rest := HandleFrames(frames[1..]);
        assert forall k :: 0 < k <= |rest| ==> ([first] + rest)[k] == rest[k - 1];
        [first] + rest
  }

  predicate AnyRaised(rs: seq<FrameResult>)
  {
    exists k :: 0 <= k < |rs| && rs[k].effect.DecodeError?
  }

  predicate AnyExit(rs: seq<FrameResult>)
  {
    exists k :: 0 <= k < |rs| && rs[k].setsExit
  }

  /**
   * The inner connection loop over successive `recv` results, starting with `pending`
   * bytes buffered: data is reassembled and handled, size 0 retries, a negative size
   * disconnects and leaves the loop. The exit event, once set by a `q` frame, is seen
   * before the next `recv`; an exception from a handler ends the thread.
   */
  function Session(pending: seq<Byte>, results: seq<RecvResult>, exited: bool): (seq<FrameResult>, ConnectionEnd)
    decreases |results|
  {
    if exited then ([], ExitSet)
    else if results == [] then ([], StillOpen)
    else match results[0]
      case RecvError => ([], Disconnected)
      case NoData => Session(pending, results[1..], false)
      case Data(b) =>
        var all := pending + b;
        var handled := HandleFrames(Chunks(all));
        if AnyRaised(handled) then (handled, HandlerRaised)
        else
          var next := Session(Leftover(all), results[1..], AnyExit(handled));
          (handled + next.0, next.1)
  }

  /** The connection loop of `TLSRecvThread` for one accepted connection. */
  method ServeConnection(conn: Reassembler, results: seq<RecvResult>) returns (handled: seq<FrameResult>, end: ConnectionEnd)
    requires conn.Valid()
    modifies conn, conn.connectionBuffer
    ensures (handled, end) == Session(old(conn.Pending()), results, false)
  {
    ghost var whole := Session(conn.Pending(), results, false);
    SessionWhole(conn.Pending(), results);
    handled := [];
    var exited := false;
    var i := 0;
    while i < |results|
      invariant 0 <= i <= |results|
      invariant conn.Valid() && conn.connectionBuffer == old(conn.connectionBuffer)
      invariant whole == SessionFrom(handled, conn.Pending(), results, i, exited)
      decreases |results| - i
    {
      if exited {
        SessionEnd(handled, conn.Pending(), results, i, exited);
        end := ExitSet;
        return;
      }
      SessionStep(handled, conn.Pending(), results, i);
      match results[i] {
        case RecvError =>
          end := Disconnected;
          return;
        case NoData =>
        case Data(b) =>
          var frames := conn.Feed(b);
          var out := HandleFrames(frames);
          if AnyRaised(out) {
            handled := handled + out;
            end := HandlerRaised;
            return;
          }
          handled := handled + out;
          exited := AnyExit(out);
      }
      i := i + 1;
    }
    SessionEnd(handled, conn.Pending(), results, i, exited);
    if exited {
      end := ExitSet;
    } else {
      end := StillOpen;
    }
  }

  /** The session's outcome after `handled`, from the i-th `recv` result on. */
  function SessionFrom(handled: seq<FrameResult>, pending: seq<Byte>, results: seq<RecvResult>, i: nat, exited: bool): (seq<FrameResult>, ConnectionEnd)
    requires i <= |results|
  {
    var rest := Session(pending, results[i..], exited);
    (handled + rest.0, rest.1)
  }

  lemma SessionWhole(pending: seq<Byte>, results: seq<RecvResult>)
    ensures SessionFrom([], pending, results, 0, false) == Session(pending, results, false)
  {
    assert results[0..] == results;
    var w := Session(pending, results, false);
    assert [] + w.0 == w.0;
  }

  /** The loop ends with the exit event set or with no results left. */
  lemma SessionEnd(handled: seq<FrameResult>, pending: seq<Byte>, results: seq<RecvResult>, i: nat, exited: bool)
    requires i <= |results| && (exited || i == |results|)
    ensures SessionFrom(handled, pending, results, i, exited) == (handled, if exited then ExitSet else StillOpen)
  {
    assert handled + [] == handled;
  }

  /** One `recv` result handled, with the exit event clear. */
  lemma SessionStep(handled: seq<FrameResult>, pending: seq<Byte>, results: seq<RecvResult>, i: nat)
    requires i < |results|
    ensures SessionFrom(handled, pending, results, i, false) ==
      match results[i]
        case RecvError => (handled, Disconnected)
        case NoData => SessionFrom(handled, pending, results, i + 1, false)
        case Data(b) =>
          var out := HandleFrames(Chunks(pending + b));
          if AnyRaised(out) then (handled + out, HandlerRaised)
          else SessionFrom(handled + out, Leftover(pending + b), results, i + 1, AnyExit(out))
  {
    assert results[i..][0] == results[i] && results[i..][1..] == results[i + 1..];
    match results[i]
    case RecvError =>
      assert handled + [] == handled;
    case NoData =>
    case Data(b) =>
      var out := HandleFrames(Chunks(pending + b));
      if !AnyRaised(out) {
        var next := Session(Leftover(pending + b), results[i + 1..], AnyExit(out));
        assert handled + (out + next.0) == (handled + out) + next.0;
      }
  }

  /**
   * While no result is an error and no frame raises or sets the exit event,
   * every complete frame of the concatenated data is handled, in order.
   */
  lemma {:induction false} SessionHandlesEveryFrame(pending: seq<Byte>, results: seq<RecvResult>)
    requires |pending| < ExpectedMessageSize
    requires forall k :: 0 <= k < |results| ==> !results[k].RecvError?
    requires forall f :: f in Chunks(pending + Received(results)) ==> !IsInterrupting(HandleNetworkData(f))
    ensures Session(pending, results, false).0 == MapHandle(Chunks(pending + Received(results)))
    decreases |results|
  {
    if results == [] {
      assert pending + [] == pending;
    } else if results[0].NoData? {
      assert Received(results) == Received(results[1..]);
      SessionHandlesEveryFrame(pending, results[1..]);
    } else {
      var b := results[0].bytes;
      var all := pending + b;
      assert Received(results) == b + Received(results[1..]);
      assert pending + Received(results) == all + Received(results[1..]);
      ChunksAppend(all, Received(results[1..]));
      var cs := Chunks(all);
      var tail := Chunks(Leftover(all) + Received(results[1..]));
      MapHandleAppend(cs, tail);
      forall f | f in cs ensures !IsInterrupting(HandleNetworkData(f)) {
        assert f in cs + tail;
      }
      forall f | f in tail ensures !IsInterrupting(HandleNetworkData(f)) {
        assert f in cs + tail;
      }
      HandleFramesUninterrupted(cs);
      SessionHandlesEveryFrame(Leftover(all), results[1..]);
    }
  }

  predicate IsInterrupting(r: FrameResult)
  {
    r.effect.DecodeError? || r.setsExit
  }

  /** The bytes of all data results, in order. */
  function Received(results: seq<RecvResult>): seq<Byte>
  {
    if results == [] then []
    else (if results[0].Data? then results[0].bytes else []) + Received(results[1..])
  }

  function MapHandle(frames: seq<seq<Byte>>): (r: seq<FrameResult>)
    requires forall k :: 0 <= k < |frames| ==> |frames[k]| == ExpectedMessageSize
    ensures |r| == |frames| && forall k :: 0 <= k < |r| ==> r[k] == HandleNetworkData(frames[k])
  {
    seq(|frames|, k requires 0 <= k < |frames| => HandleNetworkData(frames[k]))
  }

  lemma MapHandleAppend(a: seq<seq<Byte>>, b: seq<seq<Byte>>)
    requires forall k :: 0 <= k < |a| ==> |a[k]| == ExpectedMessageSize
    requires forall k :: 0 <= k < |b| ==> |b[k]| == ExpectedMessageSize
    ensures MapHandle(a + b) == MapHandle(a) + MapHandle(b)
  {
  }

  /** Without a raising or exiting frame, handling is a plain map and neither flag comes up. */
  lemma {:induction false} HandleFramesUninterrupted(frames: seq<seq<Byte>>)
    requires forall k :: 0 <= k < |frames| ==> |frames[k]| == ExpectedMessageSize
    requires forall f :: f in frames ==> !IsInterrupting(HandleNetworkData(f))
    ensures HandleFrames(frames) == MapHandle(frames)
    ensures !AnyRaised(HandleFrames(frames)) && !AnyExit(HandleFrames(frames))
  {
    if frames != [] {
      assert frames[0] in frames;
      forall f | f in frames[1..] ensures !IsInterrupting(HandleNetworkData(f)) {
        assert f in frames;
      }
      HandleFramesUninterrupted(frames[1..]);
      assert MapHandle(frames) == [HandleNetworkData(frames[0])] + MapHandle(frames[1..]);
    }
  }
}
