/**
 * The laptop client: the keyboard thread turns a key into a 10-byte command
 * frame and sends it while the network is active; the reader thread
 * dispatches each frame read from the relay on its first byte.
 */
module Client {
  import opened Bytes
  import opened NetConstants
  import opened ControlConstants
  import opened ArduinoRecv
  import opened Wrappers

  const DefaultDist: U32 := 5
  const DefaultPower: U32 := 50
  const TurningPower: U32 := 100
  const DefaultAng: U32 := 90
  /** `sizeof(buffer)` for a `const char *` parameter on the 64-bit laptop. */
  const PointerSize: nat := 8
  const FrameLength: nat := 10
  const ReadBufferSize: nat := 128

  function Key(c: char): Byte
    requires c as int < 256
  {
    c as int
  }

  /** The frame the keyboard thread sends for a key, if any. */
  function KeyFrame(key: Byte): (r: Option<seq<Byte>>)
    ensures r.Some? ==> |r.value| == FrameLength && r.value[0] == NetCommandPacket
    ensures key in {Key('q'), Key('Q')} ==> r.None?
  {
    if key in {Key('f'), Key('F'), Key('b'), Key('B')} then
      Some([NetCommandPacket, key] + LE32(DefaultDist) + LE32(DefaultPower))
    else if key in {Key('l'), Key('L'), Key('r'), Key('R')} then
      Some([NetCommandPacket, key] + LE32(DefaultAng) + LE32(TurningPower))
    else if key == Key('h') then Some([NetCommandPacket, Key('h')] + LE32(0) + LE32(0))
    else if key == Key('v') then Some([NetCommandPacket, Key('u')] + LE32(0) + LE32(0))
    else if key == Key('t') then Some([NetCommandPacket, Key('m')] + LE32(0) + LE32(0))
    else if key in {Key('s'), Key('S'), Key('c'), Key('C'), Key('g'), Key('G')} then
      Some([NetCommandPacket, key] + LE32(0) + LE32(0))
    else None
  }

  predicate IsQuit(key: Byte) { key == Key('q') || key == Key('Q') }

  /** The number of keys read before the first `q`/`Q`. */
  function QuitIndex(keys: seq<Byte>): (n: nat)
    ensures n <= |keys| && (n < |keys| ==> IsQuit(keys[n]))
    ensures forall k :: 0 <= k < n ==> !IsQuit(keys[k])
  {
    if keys == [] || IsQuit(keys[0]) then 0 else 1 + QuitIndex(keys[1..])
  }

  /**
   * What the keyboard thread writes for `keys`, starting with the network in state
   * `active`, when the k-th key's write returns `results[k]` and each write hands
   * `sslWrite` the first `width` bytes of the key's frame: frames are written only
   * while the network is active, and a failed write deactivates it.
   */
  function Writes(active: bool, keys: seq<Byte>, results: seq<int>, width: nat): (r: (seq<seq<Byte>>, bool))
    requires |results| >= |keys| && width <= FrameLength
    ensures !active ==> r == ([], false)
  {
    if keys == [] then ([], active)
    else match KeyFrame(keys[0])
      case None => Writes(active, keys[1..], results[1..], width)
      case Some(f) =>
        if active then
          var rest := Writes(results[0] > 0, keys[1..], results[1..], width);
          ([f[..width]] + rest.0, rest.1)
        else Writes(false, keys[1..], results[1..], width)
  }

  /**
   * The keyboard thread's writes after `done`, for the keys from `p` up to the
   * quit index `n`, with the network in state `active`.
   */
  function Continue(done: seq<seq<Byte>>, active: bool, keys: seq<Byte>, results: seq<int>, p: nat, n: nat, width: nat): (r: (seq<seq<Byte>>, bool))
    requires p <= n <= |keys| <= |results| && width <= FrameLength
  {
    var rest := Writes(active, keys[p..n], results[p..n], width);
    (done + rest.0, rest.1)
  }

  lemma ContinueWhole(active: bool, keys: seq<Byte>, results: seq<int>, n: nat, width: nat)
    requires n <= |keys| <= |results| && width <= FrameLength
    ensures Continue([], active, keys, results, 0, n, width) == Writes(active, keys[..n], results[..n], width)
  {
    assert keys[0..n] == keys[..n] && results[0..n] == results[..n];
    var w := Writes(active, keys[..n], results[..n], width);
    assert [] + w.0 == w.0;
  }

  /** One key handled: the front of its frame, when it builds one and the network is active, is written. */
  lemma ContinueStep(done: seq<seq<Byte>>, active: bool, keys: seq<Byte>, results: seq<int>, p: nat, n: nat, width: nat)
    requires p < n <= |keys| <= |results| && width <= FrameLength
    ensures var f := KeyFrame(keys[p]);
      Continue(done, active, keys, results, p, n, width) ==
        if f.Some? && active then Continue(done + [f.value[..width]], results[p] > 0, keys, results, p + 1, n, width)
        else Continue(done, active, keys, results, p + 1, n, width)
  {
    assert keys[p..n][1..] == keys[p + 1..n] && results[p..n][1..] == results[p + 1..n];
    var f := KeyFrame(keys[p]);
    if f.Some? && active {
      var rest := Writes(results[p] > 0, keys[p + 1..n], results[p + 1..n], width);
      assert (done + [f.value[..width]]) + rest.0 == done + ([f.value[..width]] + rest.0);
    }
  }

  lemma ContinueEnd(done: seq<seq<Byte>>, active: bool, keys: seq<Byte>, results: seq<int>, n: nat, width: nat)
    requires n <= |keys| <= |results| && width <= FrameLength
    ensures Continue(done, active, keys, results, n, n, width) == (done, active)
  {
    assert keys[n..n] == [] && results[n..n] == [];
    assert done + [] == done;
  }

  /** The first `width` bytes of the frames of the keys that build one, in order. */
  function FramesOf(keys: seq<Byte>, width: nat): (r: seq<seq<Byte>>)
    requires width <= FrameLength
    ensures forall k :: 0 <= k < |r| ==> |r[k]| == width
  {
    if keys == [] then []
    else match KeyFrame(keys[0])
      case None => FramesOf(keys[1..], width)
      case Some(f) => [f[..width]] + FramesOf(keys[1..], width)
  }

  /** While every write succeeds, the front of every key's frame is written, in order. */
  lemma {:induction false} WritesAllSucceed(keys: seq<Byte>, results: seq<int>, width: nat)
    requires |results| >= |keys| && width <= FrameLength && forall k :: 0 <= k < |results| ==> results[k] > 0
    ensures Writes(true, keys, results, width) == (FramesOf(keys, width), true)
  {
    if keys != [] {
      WritesAllSucceed(keys[1..], results[1..], width);
    }
  }

  datatype ErrorKind = CommandOk | BadMagic | BadChecksum | BadCommand | BadResponse | Confused
  datatype Colour = Red | Green | White

  /** What the reader thread does with one frame. */
  datatype ClientEvent =
    | ErrorReport(kind: ErrorKind)
    | StatusReport(data: seq<int>)
    | ColourReport(rgb: seq<int>, colour: Colour)
    | UltrasonicReport(distance: int)
    | MessageReport(text: seq<Byte>)
    | CommandIgnored
    | UnknownIgnored

  /** A `char` byte read as the signed char it is on the laptop. */
  function SignedChar(b: Byte): int
  {
    if b < 128 then b else b - 256
  }

  /** `handleError(buffer)`: the response code in byte 1. */
  function HandleError(code: Byte): (k: ErrorKind)
    ensures k == CommandOk <==> code == RespOk.Code()
    ensures k == Confused <==> ResponseTypeOf(SignedChar(code)).None? || code == RespStatus.Code()
  {
    var c := SignedChar(code);
    if c == RespOk.Code() then CommandOk
    else if c == RespBadPacket.Code() then BadMagic
    else if c == RespBadChecksum.Code() then BadChecksum
    else if c == RespBadCommand.Code() then BadCommand
    else if c == RespBadResponse.Code() then BadResponse
    else Confused
  }

  /** `memcpy(data, &buffer[1], sizeof(int32_t[16]))`: sixteen little-endian int32 values. */
  function Int32s(buffer: seq<Byte>): (data: seq<int>)
    requires |buffer| >= 65
    ensures |data| == 16
    ensures forall k :: 0 <= k < 16 ==> data[k] == FromLE32Signed(buffer[1 + 4 * k..5 + 4 * k])
  {
    seq(16, k requires 0 <= k < 16 => FromLE32Signed(buffer[1 + 4 * k..5 + 4 * k]))
  }

  /**
   * Reading back sixteen little-endian words gives each word as the int32 with the
   * same bits: the word itself below 2^31, the word minus 2^32 from there on.
   */
  lemma Int32sOfWords(buffer: seq<Byte>, words: seq<U32>)
    requires |buffer| >= 65 && |words| == 16 && buffer[1..65] == LE32s(words)
    ensures forall k :: 0 <= k < 16 ==>
      Int32s(buffer)[k] == if words[k] < 0x8000_0000 then words[k] as int else words[k] as int - 0x1_0000_0000
  {
    forall k | 0 <= k < 16
      ensures Int32s(buffer)[k] == if words[k] < 0x8000_0000 then words[k] as int else words[k] as int - 0x1_0000_0000
    {
      WordAt(buffer, words, k);
    }
  }

  lemma WordAt(buffer: seq<Byte>, words: seq<U32>, k: nat)
    requires |buffer| >= 65 && |words| == 16 && buffer[1..65] == LE32s(words) && k < 16
    ensures FromLE32Signed(buffer[1 + 4 * k..5 + 4 * k]) == if words[k] < 0x8000_0000 then words[k] as int else words[k] as int - 0x1_0000_0000
  {
    var b := buffer[1 + 4 * k..5 + 4 * k];
    LE32sAt(words, k);
    SliceOfSlice(buffer, 1, 65, 4 * k, 4 * k + 4);
    assert b == LE32(words[k]);
    LE32RoundTrip(words[k]);
    assert FromLE32(b) == words[k];
    SignedOfWord(FromLE32Signed(b), words[k]);
  }

  lemma SliceOfSlice(s: seq<Byte>, lo: nat, hi: nat, i: nat, j: nat)
    requires lo <= hi <= |s| && i <= j <= hi - lo
    ensures s[lo..hi][i..j] == s[lo + i..lo + j]
  {
    assert forall m :: 0 <= m < j - i ==> s[lo..hi][i..j][m] == s[lo + i + m] == s[lo + i..lo + j][m];
  }

  lemma SignedOfWord(v: int, w: U32)
    requires -0x8000_0000 <= v < 0x8000_0000 && v % 0x1_0000_0000 == w
    ensures v == if w < 0x8000_0000 then w as int else w as int - 0x1_0000_0000
  {
    if v < 0 {
      assert v + 0x1_0000_0000 == w;
    } else {
      assert v == w;
    }
  }

  /**
   * `handleNetwork(buffer, len)` on the 128-byte read buffer. The colour and
   * ultrasonic packet codes come from a header that is not part of this model,
   * so they are parameters: any two codes distinct from the other four.
   */
  function HandleNetwork(buffer: seq<Byte>, colourCode: int, ultrasonicCode: int): (e: ClientEvent)
    requires |buffer| == ReadBufferSize
    requires colourCode != ultrasonicCode && colourCode !in {0, 1, 2, 3} && ultrasonicCode !in {0, 1, 2, 3}
    ensures buffer[0] == NetErrorPacket ==> e == ErrorReport(HandleError(buffer[1]))
    ensures buffer[0] == NetStatusPacket ==> e == StatusReport(Int32s(buffer))
    ensures buffer[0] == NetMessagePacket ==> e == MessageReport(CString(buffer[1..]))
    ensures buffer[0] == NetCommandPacket ==> e == CommandIgnored
    ensures SignedChar(buffer[0]) !in {0, 1, 2, 3, colourCode, ultrasonicCode} ==> e == UnknownIgnored
  {
    var t := SignedChar(buffer[0]);
    if t == NetErrorPacket then ErrorReport(HandleError(buffer[1]))
    else if t == NetStatusPacket then StatusReport(Int32s(buffer))
    else if t == colourCode then
      var data := Int32s(buffer);
      ColourReport(data[..3], if data[3] == 0 then Red else if data[3] == 1 then Green else White)
    else if t == ultrasonicCode then UltrasonicReport(Int32s(buffer)[0])
    else if t == NetMessagePacket then MessageReport(CString(buffer[1..]))
    else if t == NetCommandPacket then CommandIgnored
    else UnknownIgnored
  }

  /** The client's shared state: `networkActive` and the byte strings `sendData` hands to `sslWrite`, one per call. */
  class Client {
    var networkActive: bool
    var written: seq<seq<Byte>>

    constructor(active: bool)
      ensures networkActive == active && written == []
    {
      networkActive := active;
      written := [];
    }

    /**
     * `sendData(conn, buffer, len)` as written: `sslWrite` is passed `sizeof(buffer)`,
     * the size of the pointer, so only the first 8 bytes go out. `c` is what `sslWrite` returns.
     */
    method SendDataAsWritten(buffer: array<Byte>, len: nat, c: int)
      requires buffer.Length >= PointerSize
      modifies this
      ensures old(networkActive) ==> written == old(written) + [buffer[..PointerSize]] && networkActive == (c > 0)
      ensures !old(networkActive) ==> written == old(written) && !networkActive
    {
      if networkActive {
        written := written + [buffer[..PointerSize]];
        networkActive := c > 0;
      }
    }

    /** `sendData(conn, buffer, len)` writing the `len` bytes it is given. */
    method SendData(buffer: array<Byte>, len: nat, c: int)
      requires len <= buffer.Length
      modifies this
      ensures old(networkActive) ==> written == old(written) + [buffer[..len]] && networkActive == (c > 0)
      ensures !old(networkActive) ==> written == old(written) && !networkActive
    {
      if networkActive {
        written := written + [buffer[..len]];
        networkActive := c > 0;
      }
    }

    /** `memcpy(&buffer[2], params, sizeof(params))` for two int32 parameters. */
    static method PutParams(buffer: array<Byte>, p0: U32, p1: U32)
      requires buffer.Length == FrameLength
      modifies buffer
      ensures buffer[..] == old(buffer[..2]) + LE32(p0) + LE32(p1)
    {
      var bytes := LE32(p0) + LE32(p1);
      for i := 0 to 8
        invariant buffer[..2] == old(buffer[..2])
        invariant forall t :: 0 <= t < i ==> buffer[2 + t] == bytes[t]
      {
        buffer[2 + i] := bytes[i];
      }
      assert buffer[..] == buffer[..2] + bytes;
    }

    /** The frame the keyboard thread builds for key `ch` in its `switch`, if any. */
    static method BuildFrame(ch: Byte) returns (buffer: array<Byte>, send: bool)
      ensures fresh(buffer) && buffer.Length == FrameLength
      ensures send <==> KeyFrame(ch).Some?
      ensures send ==> buffer[..] == KeyFrame(ch).value
    {
      buffer := new Byte[FrameLength](_ => 0);
      buffer[0] := NetCommandPacket;
      send := true;
      if ch in {Key('f'), Key('F'), Key('b'), Key('B')} {
        buffer[1] := ch;
        PutParams(buffer, DefaultDist, DefaultPower);
      } else if ch in {Key('l'), Key('L'), Key('r'), Key('R')} {
        buffer[1] := ch;
        PutParams(buffer, DefaultAng, TurningPower);
      } else if ch == Key('h') {
        buffer[1] := Key('h');
        PutParams(buffer, 0, 0);
      } else if ch == Key('v') {
        buffer[1] := Key('u');
        PutParams(buffer, 0, 0);
      } else if ch == Key('t') {
        buffer[1] := Key('m');
        PutParams(buffer, 0, 0);
      } else if ch in {Key('s'), Key('S'), Key('c'), Key('C'), Key('g'), Key('G')} {
        buffer[1] := ch;
        PutParams(buffer, 0, 0);
      } else {
        send := false;
      }
    }

    /**
     * `writerThread(conn)` over the characters `scanf("%c")` returns, one per prompt
     * (`flushInput` then discards up to the next newline, so an empty line yields the
     * key '\n' and its flush swallows the following line), where the k-th key's write
     * returns `results[k]`. It stops after `q` or `Q`, or when the keys run out, and
     * returns the number of keys read. Each frame goes out through `sendData` as
     * written, so only its first 8 bytes reach `sslWrite`.
     */
    method WriterThread(keys: seq<Byte>, results: seq<int>) returns (read: nat)
      requires |results| >= |keys|
      modifies this
      ensures read == (if QuitIndex(keys) < |keys| then QuitIndex(keys) + 1 else |keys|)
      ensures var w := Writes(old(networkActive), keys[..QuitIndex(keys)], results[..QuitIndex(keys)], PointerSize);
        written == old(written) + w.0 && networkActive == w.1
    {
      var quit := false;
      read := 0;
      ghost var n := QuitIndex(keys);
      ghost var done: seq<seq<Byte>> := [];
      ghost var whole := Continue([], networkActive, keys, results, 0, n, PointerSize);
      ContinueWhole(networkActive, keys, results, n, PointerSize);
      while !quit && read < |keys|
        invariant read <= |keys| && (!quit ==> read <= n) && (quit ==> read == n + 1)
        invariant written == old(written) + done
        invariant whole == Continue(done, networkActive, keys, results, if quit then n else read, n, PointerSize)
        decreases |keys| - read
      {
        var ch := keys[read];
        if IsQuit(ch) {
          quit := true;
        } else {
          ContinueStep(done, networkActive, keys, results, read, n, PointerSize);
          var buffer, send := BuildFrame(ch);
          if send {
            if networkActive {
              done := done + [buffer[..PointerSize]];
            }
            SendDataAsWritten(buffer, FrameLength, results[read]);
          }
        }
        read := read + 1;
      }
      ContinueEnd(done, networkActive, keys, results, n, PointerSize);
    }

    /** `writerThread(conn)` with the corrected `sendData`: each key's whole 10-byte frame is written. */
    method WriterThreadIntended(keys: seq<Byte>, results: seq<int>) returns (read: nat)
      requires |results| >= |keys|
      modifies this
      ensures read == (if QuitIndex(keys) < |keys| then QuitIndex(keys) + 1 else |keys|)
      ensures var w := Writes(old(networkActive), keys[..QuitIndex(keys)], results[..QuitIndex(keys)], FrameLength);
        written == old(written) + w.0 && networkActive == w.1
    {
      var quit := false;
      read := 0;
      ghost var n := QuitIndex(keys);
      ghost var done: seq<seq<Byte>> := [];
      ghost var whole := Continue([], networkActive, keys, results, 0, n, FrameLength);
      ContinueWhole(networkActive, keys, results, n, FrameLength);
      while !quit && read < |keys|
        invariant read <= |keys| && (!quit ==> read <= n) && (quit ==> read == n + 1)
        invariant written == old(written) + done
        invariant whole == Continue(done, networkActive, keys, results, if quit then n else read, n, FrameLength)
        decreases |keys| - read
      {
        var ch := keys[read];
        if IsQuit(ch) {
          quit := true;
        } else {
          ContinueStep(done, networkActive, keys, results, read, n, FrameLength);
          var buffer, send := BuildFrame(ch);
          if send {
            assert buffer[..FrameLength] == buffer[..];
            if networkActive {
              done := done + [buffer[..]];
            }
            SendData(buffer, FrameLength, results[read]);
          }
        }
        read := read + 1;
      }
      ContinueEnd(done, networkActive, keys, results, n, FrameLength);
    }

    /**
     * `readerThread(conn)` over successive `sslRead` results (an empty one stands for a
     * read of 0 or less): each read overwrites the front of the 128-byte buffer, the
     * network stays active while reads return data, and each frame read is dispatched.
     */
    method ReaderThread(incoming: seq<seq<Byte>>, colourCode: int, ultrasonicCode: int) returns (events: seq<ClientEvent>)
      requires forall k :: 0 <= k < |incoming| ==> |incoming[k]| <= ReadBufferSize
      requires colourCode != ultrasonicCode && colourCode !in {0, 1, 2, 3} && ultrasonicCode !in {0, 1, 2, 3}
      modifies this
      ensures written == old(written)
      ensures events == Reads(old(networkActive), Zeros(ReadBufferSize), incoming, colourCode, ultrasonicCode).0
      ensures networkActive == Reads(old(networkActive), Zeros(ReadBufferSize), incoming, colourCode, ultrasonicCode).1
    {
      var buffer := new Byte[ReadBufferSize](_ => 0);
      events := [];
      var i := 0;
      assert buffer[..] == Zeros(ReadBufferSize);
      ghost var whole := ReadsFrom([], networkActive, buffer[..], incoming, 0, colourCode, ultrasonicCode);
      ReadsWhole(networkActive, buffer[..], incoming, colourCode, ultrasonicCode);
      while networkActive && i < |incoming|
        invariant 0 <= i <= |incoming| && written == old(written) && buffer.Length == ReadBufferSize
        invariant whole == ReadsFrom(events, networkActive, buffer[..], incoming, i, colourCode, ultrasonicCode)
        decreases |incoming| - i
      {
        var data := incoming[i];
        ReadsStep(events, buffer[..], incoming, i, colourCode, ultrasonicCode);
        CopyFront(buffer, data);
        networkActive := |data| > 0;
        if networkActive {
          var e := HandleNetwork(buffer[..], colourCode, ultrasonicCode);
          events := events + [e];
        }
        i := i + 1;
      }
      ReadsEnd(events, networkActive, buffer[..], incoming, i, colourCode, ultrasonicCode);
    }

    /** `sslRead(conn, buffer, sizeof(buffer))` returning `data`: the front of the buffer is overwritten. */
    static method CopyFront(buffer: array<Byte>, data: seq<Byte>)
      requires |data| <= buffer.Length
      modifies buffer
      ensures buffer[..] == data + old(buffer[..])[|data|..]
    {
      ghost var prev := buffer[..];
      for j := 0 to |data|
        invariant forall t :: 0 <= t < j ==> buffer[t] == data[t]
        invariant forall t :: j <= t < buffer.Length ==> buffer[t] == prev[t]
      {
        buffer[j] := data[j];
      }
      assert buffer[..] == data + prev[|data|..];
    }
  }

  /** The reader thread's events after `events`, for the reads from the i-th on. */
  function ReadsFrom(events: seq<ClientEvent>, active: bool, buffer: seq<Byte>, incoming: seq<seq<Byte>>, i: nat,
                     colourCode: int, ultrasonicCode: int): (r: (seq<ClientEvent>, bool))
    requires i <= |incoming| && |buffer| == ReadBufferSize && forall k :: 0 <= k < |incoming| ==> |incoming[k]| <= ReadBufferSize
    requires colourCode != ultrasonicCode && colourCode !in {0, 1, 2, 3} && ultrasonicCode !in {0, 1, 2, 3}
  {
    var rest := Reads(active, buffer, incoming[i..], colourCode, ultrasonicCode);
    (events + rest.0, rest.1)
  }

  lemma ReadsWhole(active: bool, buffer: seq<Byte>, incoming: seq<seq<Byte>>, colourCode: int, ultrasonicCode: int)
    requires |buffer| == ReadBufferSize && forall k :: 0 <= k < |incoming| ==> |incoming[k]| <= ReadBufferSize
    requires colourCode != ultrasonicCode && colourCode !in {0, 1, 2, 3} && ultrasonicCode !in {0, 1, 2, 3}
    ensures ReadsFrom([], active, buffer, incoming, 0, colourCode, ultrasonicCode) == Reads(active, buffer, incoming, colourCode, ultrasonicCode)
  {
    assert incoming[0..] == incoming;
    var w := Reads(active, buffer, incoming, colourCode, ultrasonicCode);
    assert [] + w.0 == w.0;
  }

  /** One read: an empty one ends the run, any other overwrites the buffer's front and is dispatched. */
  lemma ReadsStep(events: seq<ClientEvent>, buffer: seq<Byte>, incoming: seq<seq<Byte>>, i: nat, colourCode: int, ultrasonicCode: int)
    requires i < |incoming| && |buffer| == ReadBufferSize && forall k :: 0 <= k < |incoming| ==> |incoming[k]| <= ReadBufferSize
    requires colourCode != ultrasonicCode && colourCode !in {0, 1, 2, 3} && ultrasonicCode !in {0, 1, 2, 3}
    ensures var next := incoming[i] + buffer[|incoming[i]|..];
      ReadsFrom(events, true, buffer, incoming, i, colourCode, ultrasonicCode) ==
        if |incoming[i]| == 0 then ReadsFrom(events, false, next, incoming, i + 1, colourCode, ultrasonicCode)
        else ReadsFrom(events + [HandleNetwork(next, colourCode, ultrasonicCode)], true, next, incoming, i + 1, colourCode, ultrasonicCode)
  {
    assert incoming[i..][0] == incoming[i] && incoming[i..][1..] == incoming[i + 1..];
    var next := incoming[i] + buffer[|incoming[i]|..];
    if |incoming[i]| == 0 {
      assert events + [] == events;
    } else {
      var e := HandleNetwork(next, colourCode, ultrasonicCode);
      var rest := Reads(true, next, incoming[i + 1..], colourCode, ultrasonicCode);
      assert (events + [e]) + rest.0 == events + ([e] + rest.0);
    }
  }

  lemma ReadsEnd(events: seq<ClientEvent>, active: bool, buffer: seq<Byte>, incoming: seq<seq<Byte>>, i: nat, colourCode: int, ultrasonicCode: int)
    requires i <= |incoming| && |buffer| == ReadBufferSize && forall k :: 0 <= k < |incoming| ==> |incoming[k]| <= ReadBufferSize
    requires colourCode != ultrasonicCode && colourCode !in {0, 1, 2, 3} && ultrasonicCode !in {0, 1, 2, 3}
    requires !active || i == |incoming|
    ensures ReadsFrom(events, active, buffer, incoming, i, colourCode, ultrasonicCode) == (events, active)
  {
    assert events + [] == events;
  }

  /** The reader thread's run, as a function of the reads and the buffer's prior contents. */
  function Reads(active: bool, buffer: seq<Byte>, incoming: seq<seq<Byte>>, colourCode: int, ultrasonicCode: int): (r: (seq<ClientEvent>, bool))
    requires |buffer| == ReadBufferSize && forall k :: 0 <= k < |incoming| ==> |incoming[k]| <= ReadBufferSize
    requires colourCode != ultrasonicCode && colourCode !in {0, 1, 2, 3} && ultrasonicCode !in {0, 1, 2, 3}
    ensures |r.0| <= |incoming|
    decreases |incoming|
  {
    if !active || incoming == [] then ([], active)
    else
      var next := incoming[0] + buffer[|incoming[0]|..];
      if |incoming[0]| == 0 then ([], false)
      else
        var rest := Reads(true, next, incoming[1..], colourCode, ultrasonicCode);
        ([HandleNetwork(next, colourCode, ultrasonicCode)] + rest.0, rest.1)
  }
}
