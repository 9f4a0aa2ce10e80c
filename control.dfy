/**
 * The host side of the Arduino link: parsing a typed command line into a
 * (packet type, command, parameters) triple, building and framing the packet
 * to send, and accumulating received bytes until one frame is complete.
 */
module Control {
  import opened Wrappers
  import opened Bytes
  import opened Strings
  import opened ControlConstants
  import opened ControlSerialize

  /** A parameter list entry: a token typed by the user, or the integer 0 used for padding. */
  datatype Param = Token(text: string) | Zero

  function ZeroParams(n: nat): (r: seq<Param>)
    ensures |r| == n && forall k :: 0 <= k < n ==> r[k] == Zero
  {
    seq(n, _ => Zero)
  }

  function TokenParams(words: seq<string>): (r: seq<Param>)
    ensures |r| == |words| && forall k :: 0 <= k < |words| ==> r[k] == Token(words[k])
  {
    seq(|words|, k requires 0 <= k < |words| => Token(words[k]))
  }

  /** `r` is the 16-entry list starting with `head` and padded with zeros. */
  predicate PaddedWith(r: seq<Param>, head: seq<Param>)
  {
    |head| <= ParamsCount && |r| == ParamsCount && r[..|head|] == head
    && forall k :: |head| <= k < ParamsCount ==> r[k] == Zero
  }

  /**
   * `parseParams(p, num_p, inputMessage)`. `hasPrompt` says whether a prompt was given;
   * `entered` is the line the user would type at that prompt.
   */
  function ParseParams(p: seq<Param>, numP: nat, hasPrompt: bool, entered: string): (r: Option<seq<Param>>)
    ensures numP == 0 ==> r == Some(ZeroParams(ParamsCount))
    ensures 0 < numP <= |p| && numP <= ParamsCount ==> r.Some? && PaddedWith(r.value, p[..numP])
    ensures 0 < numP && |p| < numP && !hasPrompt ==> r.None?
    ensures 0 < numP && |p| < numP && hasPrompt ==>
      (r.Some? <==> |Split(entered, ' ')| >= numP)
      && (r.Some? && numP <= ParamsCount ==> PaddedWith(r.value, TokenParams(Split(entered, ' '))[..numP]))
    decreases hasPrompt
  {
    if numP == 0 then Some(ZeroParams(ParamsCount))
    else if |p| >= numP then
      Some(p[..numP] + ZeroParams(if numP <= ParamsCount then ParamsCount - numP else 0))
    else if hasPrompt then
      ParseParams(TokenParams(Split(entered, ' ')), numP, false, entered)
    else None
  }

  /** The commands that take a distance or angle and a power. */
  function MoveCommand(word: string): (r: Option<CommandType>)
    ensures r.Some? <==> word in {"f", "b", "l", "r"}
  {
    if word == "f" then Some(Forward)
    else if word == "b" then Some(Reverse)
    else if word == "l" then Some(TurnLeft)
    else if word == "r" then Some(TurnRight)
    else None
  }

  /** The commands that take no parameters. */
  function PlainCommand(word: string): (r: Option<CommandType>)
    ensures r.Some? <==> word in {"s", "c", "g"}
  {
    if word == "s" then Some(Stop)
    else if word == "c" then Some(ClearStats)
    else if word == "g" then Some(GetStats)
    else None
  }

  datatype ParsedCommand = ParsedCommand(packetType: PacketType, command: CommandType, params: seq<Param>)

  /** What `parseUserInput` returns (None when invalid), and whether it set the exit flag. */
  datatype InputResult = InputResult(command: Option<ParsedCommand>, setsExit: bool)

  /** `parseUserInput(input_str, exitFlag)`, with `entered` the line typed at a parameter prompt. */
  function ParseUserInput(input: string, entered: string): InputResult
  {
    ParseTokens(Tokens(input), entered)
  }

  /** What `parseUserInput` does with the whitespace-separated tokens of the line. */
  function ParseTokens(tokens: seq<string>, entered: string): (r: InputResult)
    ensures tokens == [] ==> r == InputResult(None, false)
    ensures r.setsExit <==> |tokens| >= 1 && tokens[0] == "q"
    ensures r.setsExit ==> r.command.None?
    ensures r.command.Some? ==> r.command.value.packetType == PacketCommand && |r.command.value.params| == ParamsCount
    ensures r.command.Some? <==>
      |tokens| >= 1
      && (PlainCommand(tokens[0]).Some?
          || (MoveCommand(tokens[0]).Some? && (|tokens| >= 3 || |Split(entered, ' ')| >= 2)))
  {
    if |tokens| < 1 then InputResult(None, false)
    else
      var command := tokens[0];
      if MoveCommand(command).Some? then
        var params := ParseParams(TokenParams(tokens[1..]), 2, true, entered);
        if params.Some? then InputResult(Some(ParsedCommand(PacketCommand, MoveCommand(command).value, params.value)), false)
        else InputResult(None, false)
      else if PlainCommand(command).Some? then
        var params := ParseParams(TokenParams(tokens[1..]), 0, false, entered);
        InputResult(Some(ParsedCommand(PacketCommand, PlainCommand(command).value, params.value)), false)
      else if command == "q" then InputResult(None, true)
      else InputResult(None, false)
  }

  /** A first word that is no command, nor `q`, yields no command and leaves the exit flag alone. */
  lemma UnknownCommand(tokens: seq<string>, entered: string)
    requires |tokens| >= 1
    requires MoveCommand(tokens[0]).None? && PlainCommand(tokens[0]).None? && tokens[0] != "q"
    ensures ParseTokens(tokens, entered) == InputResult(None, false)
  {
  }

  /** A move command with two or more tokens after it keeps the first two, unchecked, and pads with zeros. */
  lemma MoveWithParams(t: seq<string>, entered: string)
    requires |t| >= 3 && MoveCommand(t[0]).Some?
    ensures ParseTokens(t, entered).command
      == Some(ParsedCommand(PacketCommand, MoveCommand(t[0]).value, [Token(t[1]), Token(t[2])] + ZeroParams(14)))
  {
    var r := ParseTokens(t, entered).command.value.params;
    var head := TokenParams(t[1..])[..2];
    assert head == [Token(t[1]), Token(t[2])];
    assert r == head + ZeroParams(14);
  }

  /** A move command short of parameters takes the first two space-separated pieces of the prompted line. */
  lemma MoveWithPrompt(t: seq<string>, entered: string)
    requires 1 <= |t| < 3 && MoveCommand(t[0]).Some? && |Split(entered, ' ')| >= 2
    ensures var w := Split(entered, ' ');
      ParseTokens(t, entered).command
        == Some(ParsedCommand(PacketCommand, MoveCommand(t[0]).value, [Token(w[0]), Token(w[1])] + ZeroParams(14)))
  {
    var w := Split(entered, ' ');
    var r := ParseTokens(t, entered).command.value.params;
    var head := TokenParams(w)[..2];
    assert head == [Token(w[0]), Token(w[1])];
    assert r == head + ZeroParams(14);
  }

  /** `s`, `c` and `g` send sixteen zeros whatever follows them. */
  lemma PlainIgnoresParams(t: seq<string>, entered: string)
    requires |t| >= 1 && PlainCommand(t[0]).Some?
    ensures ParseTokens(t, entered)
      == InputResult(Some(ParsedCommand(PacketCommand, PlainCommand(t[0]).value, ZeroParams(ParamsCount))), false)
  {
  }

  /** `int(x)` of a parameter: a token goes through Python's int(), the padding zero is 0. */
  function ParamValue(x: Param): Option<int>
  {
    match x
    case Token(t) => PyInt(t)
    case Zero => Some(0)
  }

  /** `[int(x) for x in params]`: None when some token does not parse. */
  function ParamValues(ps: seq<Param>): (r: Option<seq<int>>)
    ensures r.Some? <==> forall k :: 0 <= k < |ps| ==> ParamValue(ps[k]).Some?
    ensures r.Some? ==> |r.value| == |ps| && forall k :: 0 <= k < |ps| ==> r.value[k] == ParamValue(ps[k]).value
  {
    if ps == [] then Some([])
    else
      var head := ParamValue(ps[0]);
      var tail := ParamValues(ps[1..]);
      if head.None? || tail.None? then
        assert head.None? ==> ParamValue(ps[0]).None?;
        None
      else Some([head.value] + tail.value)
  }

  /** Storing an int in a `c_uint32` keeps it modulo 2^32; in a `c_uint8`, modulo 2^8. */
  function Wrap32(v: int): U32 { v % 0x1_0000_0000 }
  function Wrap8(v: int): Byte { v % 256 }

  /**
   * `sendPacket(packetType, commandType, params)` up to the serial write: returns the frame
   * written, or None where Python raises ValueError (a token that is not an int, or a
   * non-empty list whose length is not 16).
   */
  method SendPacket(packetType: int, commandType: int, params: seq<Param>) returns (r: Option<seq<Byte>>)
    ensures r.None? <==> params != [] && (ParamValues(params).None? || |params| != ParamsCount)
    ensures r.Some? ==> |r.value| == CommsPacketSize
    ensures r.Some? ==>
      var d := Deserialize(r.value, CommsMagicNumber);
      d.Decoded? && d.result == PacketOk && d.payload.Some? &&
      var sent := ParsePacket(d.payload.value);
      && sent.packetType == Wrap8(packetType) && sent.command == Wrap8(commandType)
      && (params == [] ==> forall k :: 0 <= k < ParamsCount ==> sent.params[k] == 0)
      && (params != [] ==> forall k :: 0 <= k < ParamsCount ==> sent.params[k] == Wrap32(ParamValues(params).value[k]))
  {
    var packet := EmptyPacket();
    packet := packet.(packetType := Wrap8(packetType), command := Wrap8(commandType));
    if params != [] {
      var values := ParamValues(params);
      if values.None? || |values.value| != ParamsCount {
        return None;
      }
      packet := packet.(params := seq(ParamsCount, k requires 0 <= k < ParamsCount => Wrap32(values.value[k])));
    }
    var toComms := Serialize(packet, CommsMagicNumber);
    DeserializeFrame(packet, CommsMagicNumber);
    r := Some(toComms);
  }

  /** What `receivePacket` returns: a packet, None, or an exception out of `deserialize`. */
  datatype Reception = Received(packet: Packet) | NoPacket | Raised

  /** Decoding one complete frame: PACKET_OK gives the packet in the payload, any other status None. */
  function FrameOutcome(frame: seq<Byte>): Reception
    requires |frame| == CommsPacketSize
  {
    match Deserialize(frame, CommsMagicNumber)
    case Decoded(PacketOk, Some(payload)) => Received(ParsePacket(payload))
    case Decoded(_, _) => NoPacket
    case IndexOutOfRange => Raised
  }

  /**
   * The bytes one `readSerial(n)` returns when `ready` bytes are waiting and `filled`
   * are already buffered: at most the `n = 140 - filled` asked for, and no more than the wire holds.
   */
  function ReadSize(wireLength: nat, ready: nat, filled: nat): (n: nat)
    requires filled <= CommsPacketSize && filled <= wireLength
    ensures filled + n <= CommsPacketSize && filled + n <= wireLength
    ensures ready > 0 && filled < CommsPacketSize && filled < wireLength ==> n > 0
  {
    var n := if ready < CommsPacketSize - filled then ready else CommsPacketSize - filled;
    if n < wireLength - filled then n else wireLength - filled
  }

  /** The number of bytes buffered after `k` polls of the serial port. */
  function FilledAfter(wire: seq<Byte>, ready: seq<nat>, k: nat): (n: nat)
    requires k <= |ready|
    ensures n <= CommsPacketSize && n <= |wire|
  {
    if k == 0 then 0
    else
      var f := FilledAfter(wire, ready, k - 1);
      f + ReadSize(|wire|, ready[k - 1], f)
  }

  /** Once the buffer is full no further byte is asked for. */
  lemma {:induction false} FullStaysFull(wire: seq<Byte>, ready: seq<nat>, k: nat, m: nat)
    requires k <= m <= |ready| && FilledAfter(wire, ready, k) == CommsPacketSize
    ensures FilledAfter(wire, ready, m) == CommsPacketSize
    decreases m - k
  {
    if k < m {
      FullStaysFull(wire, ready, k + 1, m);
    }
  }

  /**
   * `receivePacket(exitFlag)` over a serial port that delivers `wire` with `ready[k]`
   * bytes waiting at the k-th poll; the exit flag is found set before poll `exitAt`.
   * It never buffers more than 140 bytes, decodes exactly when the buffer is full,
   * and returns None if the flag is set first.
   */
  method ReceivePacket(wire: seq<Byte>, ready: seq<nat>, exitAt: nat) returns (r: Reception, consumed: nat)
    requires exitAt <= |ready|
    ensures consumed == FilledAfter(wire, ready, exitAt) && consumed <= CommsPacketSize
    ensures r == (if consumed == CommsPacketSize then FrameOutcome(wire[..CommsPacketSize]) else NoPacket)
  {
    var targetPacketSize := CommsPacketSize;
    var buffer := new Byte[targetPacketSize](_ => 0);
    var bufferSize := 0;
    var k := 0;
    while k < exitAt
      invariant 0 <= k <= exitAt
      invariant bufferSize == FilledAfter(wire, ready, k) && bufferSize < targetPacketSize
      invariant buffer[..bufferSize] == wire[..bufferSize]
    {
      var resSize := ReadSize(|wire|, ready[k], bufferSize);
      if resSize != 0 {
        var i := 0;
        while i < resSize
          invariant 0 <= i <= resSize
          invariant buffer[..bufferSize + i] == wire[..bufferSize + i]
        {
          buffer[bufferSize + i] := wire[bufferSize + i];
          assert buffer[..bufferSize + i + 1] == buffer[..bufferSize + i] + [buffer[bufferSize + i]];
          i := i + 1;
        }
        bufferSize := bufferSize + resSize;
      }
      k := k + 1;
      if bufferSize == targetPacketSize {
        FullStaysFull(wire, ready, k, exitAt);
        assert buffer[..] == wire[..CommsPacketSize];
        r := FrameOutcome(buffer[..]);
        consumed := bufferSize;
        return;
      }
    }
    r := NoPacket;
    consumed := bufferSize;
  }
}
