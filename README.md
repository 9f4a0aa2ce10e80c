# Alex robot stack: a verified model of its message bus and wire formats

The Alex robot runs a set of nodes on a Raspberry Pi that talk over a
topic-addressed publish/subscribe bus. It exchanges fixed-layout packets with
an Arduino over serial and with a laptop client over TLS. This project models
the sequential logic underneath that plumbing in Dafny and proves properties of it:

- **Pub/sub manager** (`pubsub.dfy`, `topic_tree.dfy`):
  - the message tuples;
  - the runnables' queue protocols;
  - the hierarchical subscriber tree and its walks;
  - the broker and relay loop bodies as single steps;
  - the registry and exit-flag bookkeeping.
- **Arduino serial link** (`control_constants.dfy`, `control_serialize.dfy`, `control.dfy`):
  - the packed `TPacket`/`TComms` layouts and the code enums;
  - the XOR-checksummed 140-byte frame;
  - command-line parsing;
  - packet construction and the accumulate-until-full receive loop.
- **Arduino receive node** (`arduino_recv.dfy`): Arduino packets become bus tuples.
- **TLS relay** (`tls_recv.dfy`, `tls_send.dfy`):
  - reassembly of 10-byte command frames and their decoding into command lines;
  - the encoders for reply frames.
- **Laptop client** (`client.dfy`):
  - the key-to-frame table;
  - `sendData`'s `networkActive` update;
  - the reader's dispatch.
- **Cross-component properties** (`end_to_end.dfy`): what the relay reassembles and decodes from the client's writes, as written and corrected, and reply frames encoded by the relay are read by the client.
- **Lidar** (`lidar.dfy`): rotation segmentation and angular binning.
- **SLAM helpers** (`slam.dfy`): map byte/grid conversion and pose re-alignment.
- **Display node** (`display.dfy`): the latest-message-per-topic rule of `updatePlots`.

Helper modules:
- `Wrappers`: Option.
- `Bytes`: bytes, little-endian u32 and XOR.
- `Strings`: Python's `split`, `strip`, `str(int)` and `int(str)` on digit strings.
- `NetConstants`: the `TNetType` codes.

Design choices:
- **Queues** are a class holding a sequence and a `maxsize`, where 0 means unbounded. Queues are shared by reference between the manager's entries and the runnables, as in the source.
- **The subscriber tree** is a prefix-closed map from paths to subscriber sets. Path `[]` is the root.
- **Integers** are unbounded. The 8- and 32-bit truncations of ctypes and C are written out explicitly.
- **Endianness** is fixed to little-endian.
- **Messages** are represented by their UTF-8 bytes.

Where the code and its documentation disagree, the model follows the code:
- **`deserialize` with a `dataSize` above 128.** In the code this makes `calc_checksum` index past the buffer, so it is an error outcome (`IndexOutOfRange`), not a precondition.
- **`handle_status`.** It grows its 65-byte frame to 101 bytes, and `handle_response` sends that frame; see Findings. A status tuple shorter than 16 is zero-padded by the ctypes array assignment; a longer one raises.
- **`sendData`.** It hands `sslWrite` `sizeof(buffer)` = 8 bytes, the size of a pointer, so the writer thread sends the first 8 bytes of each frame; see Findings. `Client.Client.WriterThread` models this, and `Client.Client.WriterThreadIntended` writes whole frames.
- **Client keys.** The client's upper-case keys and its `h`/`v`/`t` keys reach the relay as commands that `parseUserInput` does not recognise. The lemma `EndToEnd.OtherKeysNotPublished` records this.

## Model

| member | source | states |
|---|---|---|
| ControlConstants.PacketTypeOf | ROS/libraries/epp2/control/control/alex_control_constants.py:18-22 | `TPacketType(c)` succeeds exactly for 0..4 and inverts `Code` |
| ControlConstants.ResponseTypeOf | ROS/libraries/epp2/control/control/alex_control_constants.py:36-41 | `TResponseType(c)` succeeds exactly for 0..5 and inverts `Code` |
| ControlConstants.CommandTypeOf | ROS/libraries/epp2/control/control/alex_control_constants.py:56-62 | `TCommandType(c)` succeeds exactly for 0..6 and inverts `Code` |
| ControlConstants.ResultTypeOf | ROS/libraries/epp2/control/control/alex_control_constants.py:75-79 | `TResultType(c)` succeeds exactly for 0..4 and inverts `Code` |
| ControlConstants.CodesDistinct | ROS/libraries/epp2/control/control/alex_control_constants.py:18-79 | every enum member's code maps back to that member, so codes are distinct |
| ControlConstants.Sizes | ROS/libraries/epp2/control/control/alex_control_constants.py:84-141 | `sizeof(TPacket)` is 100 and `sizeof(TComms)` is 140; the packet fits the 128-byte buffer |
| ControlConstants.EmptyPacket | ROS/libraries/epp2/control/control/alex_control_constants.py:105-113 | `TPacket()` is well formed with all fields zero |
| ControlConstants.PacketLayout | ROS/libraries/epp2/control/control/alex_control_constants.py:105-113 | packetType at 0, command at 1, dummy at 2..3, data at 4..35, params[k] little-endian at 36+4k |
| ControlConstants.PacketRoundTrip | ROS/libraries/epp2/control/control/alex_control_constants.py:105-113 | parsing the packed image of a packet gives the packet back |
| ControlConstants.PacketBytesRoundTrip | ROS/libraries/epp2/control/control/alex_control_constants.py:105-113 | any 100 bytes are the image of the packet parsed from them |
| ControlConstants.CommsLayout | ROS/libraries/epp2/control/control/alex_control_constants.py:133-141 | magic at 0, dataSize at 4, buffer at 8..135, checksum at 136, dummy at 137..139 |
| ControlConstants.CommsRoundTrip | ROS/libraries/epp2/control/control/alex_control_constants.py:133-141 | `from_buffer_copy` of a `TComms` image gives the structure back |
| ControlConstants.CommsBytesRoundTrip | ROS/libraries/epp2/control/control/alex_control_constants.py:133-141 | the image of a parsed frame is the first 140 input bytes |
| ControlSerialize.CalcChecksum | ROS/libraries/epp2/control/control/alex_control_serialize.py:18-32 | the loop's accumulator is the XOR of `d[0..size)` |
| ControlSerialize.ChecksumOfZeros | ROS/libraries/epp2/control/control/alex_control_serialize.py:29-32 | the checksum of all-zero bytes is 0 |
| ControlSerialize.Serialize | ROS/libraries/epp2/control/control/alex_control_serialize.py:59-89 | the ctypes frame built around the packet is the frame `Frame(p, magic)` |
| ControlSerialize.FrameLayout | ROS/libraries/epp2/control/control/alex_control_serialize.py:75-89 | magic at 0, dataSize 128 at 4, packet image then 28 zeros at 8, XOR of the buffer at 136, 3 zero bytes |
| ControlSerialize.Deserialize | ROS/libraries/epp2/control/control/alex_control_serialize.py:34-57 | PACKET_BAD exactly on a wrong magic; an index error exactly on dataSize > 128; PACKET_OK exactly when the checksum over dataSize bytes matches; the payload is buffer[8..136] |
| ControlSerialize.DeserializeFrame | ROS/libraries/epp2/control/control/alex_control_serialize.py:45-57 | a serialized packet deserializes to PACKET_OK with a buffer whose packet is the original |
| ControlSerialize.CorruptedBufferDetected | ROS/libraries/epp2/control/control/alex_control_serialize.py:51-55 | changing any one buffer byte of a frame gives PACKET_CHECKSUM_BAD |
| ControlSerialize.CorruptedChecksumDetected | ROS/libraries/epp2/control/control/alex_control_serialize.py:51-55 | changing the checksum byte gives PACKET_CHECKSUM_BAD |
| ControlSerialize.WrongMagicRejected | ROS/libraries/epp2/control/control/alex_control_serialize.py:48-49 | a frame with another magic gives (PACKET_BAD, None) before any checksum |
| Bytes.XorDetectsOneByteChange | ROS/libraries/epp2/control/control/alex_control_serialize.py:29-32 | the XOR of a sequence changes whenever exactly one byte changes |
| Control.ParseParams | ROS/libraries/epp2/control/control/alex_control.py:136-161 | 16 zeros for 0 params; the first n tokens padded to 16 when there are enough; None without a prompt; with a prompt, one re-parse of the entered line |
| Control.MoveCommand | ROS/libraries/epp2/control/control/alex_control.py:197-216 | exactly `f`, `b`, `l`, `r` are movement commands |
| Control.PlainCommand | ROS/libraries/epp2/control/control/alex_control.py:217-228 | exactly `s`, `c`, `g` are parameterless commands |
| Control.ParseTokens | ROS/libraries/epp2/control/control/alex_control.py:163-235 | `parseUserInput` on the tokens of the line: blank input gives None; `q` alone sets the exit flag, with no command; a command results exactly for s/c/g, or for f/b/l/r with two parameters available; every command has 16 params |
| Control.UnknownCommand | ROS/libraries/epp2/control/control/alex_control.py:229-235 | a first token that is no command and not `q` gives None and leaves the exit flag clear |
| Control.MoveWithParams | ROS/libraries/epp2/control/control/alex_control.py:197-216 | `f x y ...` gives (COMMAND, FORWARD, [x, y] + 14 zeros) without checking that x, y are numeric |
| Control.MoveWithPrompt | ROS/libraries/epp2/control/control/alex_control.py:156-161 | a short movement command takes its two params from the entered line |
| Control.PlainIgnoresParams | ROS/libraries/epp2/control/control/alex_control.py:217-228 | s/c/g give 16 zeros whatever tokens follow, and do not set the exit flag |
| Control.ParamValues | ROS/libraries/epp2/control/control/alex_control.py:86 | `int(x)` succeeds on every param exactly when all are numerals, and gives their values |
| Control.SendPacket | ROS/libraries/epp2/control/control/alex_control.py:70-89 | the frame sent deserializes to PACKET_OK; type and command are truncated to 8 bits; params are zero or the values truncated to 32 bits; a bad param list raises |
| Control.ReadSize | ROS/libraries/epp2/control/control/alex_control.py:55 | the read asks only for the bytes still missing, so the buffer never passes 140 |
| Control.FullStaysFull | ROS/libraries/epp2/control/control/alex_control.py:57-60 | once 140 bytes are in, later reads add nothing |
| Control.ReceivePacket | ROS/libraries/epp2/control/control/alex_control.py:34-68 | the loop fills exactly what the reads deliver up to 140 bytes; it deserializes exactly when full, otherwise (exit flag) gives None |
| ArduinoRecv.CString | ROS/labs/SlamLab/nodes/alex_arduino_receive_node.py:165-168 | `res.data` is the prefix of the 32 chars before the first NUL |
| ArduinoRecv.HandleResponse | ROS/labs/SlamLab/nodes/alex_arduino_receive_node.py:88-125 | RESP_OK publishes (type, command); RESP_STATUS publishes (type, command, 16 params); other valid codes publish nothing; an invalid code raises |
| ArduinoRecv.HandleErrorResponse | ROS/labs/SlamLab/nodes/alex_arduino_receive_node.py:127-153 | a valid code publishes (type, command) when publishing is on; an invalid code raises |
| ArduinoRecv.HandleMessage | ROS/labs/SlamLab/nodes/alex_arduino_receive_node.py:155-168 | publishes (type, command, text) with the NUL-terminated data; raises exactly when that is not valid UTF-8 |
| ArduinoRecv.AsciiMessagePublished | ROS/labs/SlamLab/nodes/alex_arduino_receive_node.py:155-168 | an all-ASCII message is always published when publishing is on |
| ArduinoRecv.LoneHighByteMessageRaises | ROS/labs/SlamLab/nodes/alex_arduino_receive_node.py:155-168 | a one-byte message of 0x80 or more makes the handler raise |
| ArduinoRecv.Dispatch | ROS/labs/SlamLab/nodes/alex_arduino_receive_node.py:64-73 | an unknown packet type raises; COMMAND/HELLO publish nothing; nothing is published when publishing is off |
| ArduinoRecv.ReceiveLoop | ROS/labs/SlamLab/nodes/alex_arduino_receive_node.py:54-81 | publishes at most one tuple per packet and nothing when publishing is off |
| ArduinoRecv.FirstStop | ROS/labs/SlamLab/nodes/alex_arduino_receive_node.py:74-81 | the first reception that raises (in `receivePacket` or a handler), or the end when none does |
| ArduinoRecv.ReceiveLoopPublishes | ROS/labs/SlamLab/nodes/alex_arduino_receive_node.py:54-81 | the loop publishes, in order, exactly the handlers' payloads for the packets before the first raise, and ends on an exception exactly when a raise occurs |
| ArduinoRecv.ReceiveLoopStopsAtRaise | ROS/labs/SlamLab/nodes/alex_arduino_receive_node.py:74-81 | a raising packet ends the loop: later packets change nothing and the thread exits |
| TlsRecv.FrameSize | ROS/labs/SlamLab/nodes/alex_TLSRelay_recv_node.py:31-36 | the expected message size is 1+1+4+4 = 10 and fits BUFFERSIZE |
| TlsRecv.ChunksCover | ROS/labs/SlamLab/nodes/alex_TLSRelay_recv_node.py:99-105 | the frames dispatched followed by the pending bytes are exactly the bytes received |
| TlsRecv.ChunksAppend | ROS/labs/SlamLab/nodes/alex_TLSRelay_recv_node.py:95-105 | splitting a stream across recv calls dispatches the same frames as one call |
| TlsRecv.Reassembler.Feed | ROS/labs/SlamLab/nodes/alex_TLSRelay_recv_node.py:99-105 | one recv's bytes, copied one at a time, dispatch the 10-byte chunks of pending + data and keep the rest pending (offset < 10) |
| TlsRecv.HandleNetworkData | ROS/labs/SlamLab/nodes/alex_TLSRelay_recv_node.py:134-150 | only type byte 3 is handled (bytes 1..9 go to handleCommand); every other type is ignored |
| TlsRecv.HandleCommand | ROS/labs/SlamLab/nodes/alex_TLSRelay_recv_node.py:153-175 | a non-ASCII command byte raises in the UTF-8 decode; a publish goes to `arduino/send` and does not set the exit flag |
| TlsRecv.CommandLineTokens | ROS/labs/SlamLab/nodes/alex_TLSRelay_recv_node.py:160-166 | `"<c> <p1> <p2>"` tokenises to [c, str(p1), str(p2)] |
| TlsRecv.BlankCommandLineTokens | ROS/labs/SlamLab/nodes/alex_TLSRelay_recv_node.py:160-166 | a whitespace command byte disappears in tokenising, leaving the two numerals |
| TlsRecv.HandleCommandMove | ROS/labs/SlamLab/nodes/alex_TLSRelay_recv_node.py:160-175 | f/b/l/r publish the movement command with the two little-endian u32 params as decimal tokens |
| TlsRecv.HandleCommandPlain | ROS/labs/SlamLab/nodes/alex_TLSRelay_recv_node.py:160-175 | s/c/g publish the command with 16 zeros |
| TlsRecv.HandleCommandQuit | ROS/labs/SlamLab/nodes/alex_TLSRelay_recv_node.py:167-171 | `q` publishes nothing and sets the exit event |
| TlsRecv.HandleCommandOther | ROS/labs/SlamLab/nodes/alex_TLSRelay_recv_node.py:167-171 | any other ASCII command byte publishes nothing and leaves the flag |
| TlsRecv.HandleFrames | ROS/labs/SlamLab/nodes/alex_TLSRelay_recv_node.py:99-105 | frames are handled in order until the first one that raises |
| TlsRecv.ServeConnection | ROS/labs/SlamLab/nodes/alex_TLSRelay_recv_node.py:95-114 | the connection loop is the session function: size 0 retries, a negative size disconnects, a raise or exit ends it |
| TlsRecv.SessionHandlesEveryFrame | ROS/labs/SlamLab/nodes/alex_TLSRelay_recv_node.py:95-114 | with no errors, every 10-byte frame of the received stream is handled, in order |
| TlsRecv.HandleFramesUninterrupted | ROS/labs/SlamLab/nodes/alex_TLSRelay_recv_node.py:99-105 | without raising or quitting frames, every frame is handled |
| TlsSend.SliceAssign | ROS/labs/SlamLab/nodes/alex_TLSRelay_send_node.py:91-93 | bytearray slice assignment replaces the clamped slice, resizing the array |
| TlsSend.HandleErrorResponse | ROS/labs/SlamLab/nodes/alex_TLSRelay_send_node.py:79-83 | an error reply is `[0, code]` |
| TlsSend.HandleMessage | ROS/labs/SlamLab/nodes/alex_TLSRelay_send_node.py:86-95 | 33 bytes: 2, the first ≤ 32 message bytes, zero padding |
| TlsSend.ParamsOnlyPacket | ROS/labs/SlamLab/nodes/alex_TLSRelay_send_node.py:103-104 | a well-formed packet whose params are the tuple zero-padded to 16, as the ctypes array assignment pads it |
| TlsSend.HandleStatusAsWritten | ROS/labs/SlamLab/nodes/alex_TLSRelay_send_node.py:98-109 | as written: 101 bytes, 1 then the whole packet image; params at offsets 37..100 after 36 zeros |
| TlsSend.HandleStatus | ROS/labs/SlamLab/nodes/alex_TLSRelay_send_node.py:98-109 | as intended: 65 bytes, 1 then the 16 little-endian params, zero-padded |
| TlsSend.HandleResponse | ROS/labs/SlamLab/nodes/alex_TLSRelay_send_node.py:112-122 | RESP_OK sends [0, 0]; RESP_STATUS sends the 101-byte frame `handle_status` writes, params at 37..100, for a tuple of at most 16 params and raises for any other tuple; other valid codes send nothing; an invalid code raises |
| TlsSend.HandleResponseIntended | ROS/labs/SlamLab/nodes/alex_TLSRelay_send_node.py:112-122 | the same dispatch with the intended 65-byte status frame |
| TlsSend.HandleArduinoPacket | ROS/labs/SlamLab/nodes/alex_TLSRelay_send_node.py:125-137 | dispatch on type: RESPONSE, ERROR and MESSAGE encode (a RESP_STATUS as the 101-byte frame); COMMAND/HELLO send nothing; it raises exactly on an unknown type or response code, an unreadable status tuple or a non-text message |
| Client.KeyFrame | computer/tls-alex-client.cpp:216-313 | each key's frame is 10 bytes starting with NET_COMMAND_PACKET; q/Q send nothing |
| Client.QuitIndex | computer/tls-alex-client.cpp:308-313 | the position of the first q/Q, where the loop ends |
| Client.WritesAllSucceed | computer/tls-alex-client.cpp:138-152 | with every write succeeding, the first `width` bytes of every key frame are written, in order, and the network stays active (8 bytes for the writer as written, 10 for the corrected one) |
| Client.HandleError | computer/tls-alex-client.cpp:22-49 | RESP_OK exactly reports OK; codes outside the switch report "confused" |
| Client.Int32sOfWords | computer/tls-alex-client.cpp:51-68 | reading 16 little-endian words from offset 1 gives each word as the int32 with its bits: the word below 2^31, the word minus 2^32 above |
| Client.HandleNetwork | computer/tls-alex-client.cpp:104-136 | dispatch on buffer[0]: error, status, message and command are handled; unknown types are ignored |
| Client.Client.SendDataAsWritten | computer/tls-alex-client.cpp:138-152 | as written: while active, writes `sizeof(pointer)` = 8 bytes of the frame, then `networkActive := c > 0`; nothing when inactive |
| Client.Client.SendData | computer/tls-alex-client.cpp:138-152 | as intended: while active, writes `len` bytes, then `networkActive := c > 0`; nothing when inactive |
| Client.Client.PutParams | computer/tls-alex-client.cpp:228-230 | memcpy of two int32 params at offset 2, leaving bytes 0..1 |
| Client.Client.BuildFrame | computer/tls-alex-client.cpp:216-313 | the buffer built for a key is its table frame, exactly when the key sends |
| Client.Client.WriterThread | computer/tls-alex-client.cpp:200-325 | keys are read up to and including the first quit; through `sendData` as written, each sent key hands `sslWrite` the first 8 bytes of its frame, and what is written and the final `networkActive` are the writer function's at width 8 |
| Client.Client.WriterThreadIntended | computer/tls-alex-client.cpp:200-325 | the same loop through the corrected `sendData`: whole 10-byte frames, the writer function's at width 10 |
| Client.Client.ReaderThread | computer/tls-alex-client.cpp:154-183 | the events and final `networkActive` are the reader function's, over a 128-byte buffer reused between reads |
| Client.Client.CopyFront | computer/tls-alex-client.cpp:160-165 | a read overwrites the front of the buffer with its bytes and leaves the rest as it was |
| EndToEnd.FramesReassembled | ROS/labs/SlamLab/nodes/alex_TLSRelay_recv_node.py:99-105 | a stream of whole frames is reassembled into exactly those frames with nothing left over |
| EndToEnd.KeyFramesReassembled | computer/tls-alex-client.cpp:216-313 | with the corrected `sendData`, the relay reassembles exactly the key frames, in order |
| EndToEnd.WriterAsWrittenLosesFrames | computer/tls-alex-client.cpp:138-152 | with 8-byte writes, the relay handles only 8·m/10 of the m frames written, fewer than m once a key was sent |
| EndToEnd.ForwardKeyCommandLine | computer/tls-alex-client.cpp:219-225 | the client's `f` frame decodes in handleCommand to the line `"f 5 50"` |
| EndToEnd.MoveKeyPublished | computer/tls-alex-client.cpp:216-274 | f/b/l/r keys are published as movement commands with their default params |
| EndToEnd.ForwardKeyPublished | computer/tls-alex-client.cpp:216-246 | the `f` key publishes (COMMAND, FORWARD, ["5", "50"] + 14 zeros) |
| EndToEnd.PlainKeyPublished | computer/tls-alex-client.cpp:296-307 | s/c/g keys publish their command with 16 zeros |
| EndToEnd.OtherKeysNotPublished | computer/tls-alex-client.cpp:216-307 | upper-case keys and h/v/t reach the relay but publish nothing |
| EndToEnd.ErrorFrameAtClient | computer/tls-alex-client.cpp:104-136 | the relay's error frame is reported by the client with its code |
| EndToEnd.StatusFrameAtClient | computer/tls-alex-client.cpp:51-68 | with the intended status frame, the client reads every param (mod 2^32) |
| EndToEnd.StatusAsWrittenReadsZeros | ROS/labs/SlamLab/nodes/alex_TLSRelay_send_node.py:98-109 | with the status frame as written, the client reads 0 where param 0 was 1 |
| EndToEnd.MessageFrameAtClient | computer/tls-alex-client.cpp:92-96 | a short NUL-free message sent by the relay is printed intact by the client |
| EndToEnd.SendDataAsWrittenCorruptsPower | computer/tls-alex-client.cpp:138-152 | the writer as written, on two `f` presses with the first write succeeding, puts two 8-byte fronts on the wire, which the relay reads as one frame with power 1711472690 |
| EndToEnd.SendDataForwardTwice | computer/tls-alex-client.cpp:138-152 | with `len`-byte writes, two `f` presses publish two forward commands with 5 and 50 |
| Lidar.ProjectAppend | ROS/libraries/epp2/lidar/lidar/alex_lidar.py:219-221 | the three columns of a run of measurements are those of its parts, concatenated |
| Lidar.Step | ROS/libraries/epp2/lidar/lidar/alex_lidar.py:210-233 | the first start flag sets doScan and is buffered; a start flag while scanning returns the buffer, bumps r by 1 and buffers [current]; other measurements append while scanning; results only on start flags |
| Lidar.StepsWhileScanning | ROS/libraries/epp2/lidar/lidar/alex_lidar.py:215-231 | while scanning, no measurement is lost or reordered, and r counts the rotations returned |
| Lidar.StepsFromIdle | ROS/libraries/epp2/lidar/lidar/alex_lidar.py:210-213 | from the initial state, everything before the first start flag is dropped and the rest is kept |
| Lidar.ScanState.ProcessScan | ROS/libraries/epp2/lidar/lidar/alex_lidar.py:187-233 | the state dict is updated as `Step`, and the result is the projection of the completed rotation |
| Lidar.Wrap | ROS/libraries/epp2/lidar/lidar/alex_lidar.py:264 | the wrapped angle is in [0, 360) and differs from the input by a multiple of 360 |
| Lidar.BinIndex | ROS/libraries/epp2/lidar/lidar/alex_lidar.py:268-276 | the bin of an angle is the one whose [left, right) edges contain it, one of `target` |
| Lidar.BinEdgesOwnBins | ROS/libraries/epp2/lidar/lidar/alex_lidar.py:266-273 | the returned angles start at 0, increase strictly, stay below 360, and the k-th lies in bin k |
| Lidar.Bins | ROS/libraries/epp2/lidar/lidar/alex_lidar.py:276 | one bin per measurement, each below `target` and the bin of that measurement's offset, wrapped angle |
| Lidar.ResampleLidarScan | ROS/libraries/epp2/lidar/lidar/alex_lidar.py:236-293 | `target` distances and angles; each distance is fill for an empty bin, else the merge of the bin's members |
| Lidar.BinsPartition | ROS/libraries/epp2/lidar/lidar/alex_lidar.py:279-282 | the bins together hold every input distance exactly once |
| Lidar.ResamplePartition | ROS/libraries/epp2/lidar/lidar/alex_lidar.py:276-282 | each bin's member list holds exactly the distances binned there, and together the bins hold every distance read, each once |
| Slam.GridAlignedPoseInvolution | ROS/libraries/epp2/slam/slam/alex_slam.py:49 | aligning twice with the same map size gives the pose back |
| Slam.MapBytesToGrid | ROS/libraries/epp2/slam/slam/alex_slam.py:51-67 | a height × width grid |
| Slam.MapBytesToGridAt | ROS/libraries/epp2/slam/slam/alex_slam.py:65-67 | grid[i][j] = b[(w−1−j)·h + (h−1−i)] |
| Slam.GridToMapBytesAt | ROS/libraries/epp2/slam/slam/alex_slam.py:82-83 | byte a·rows + c of the flattened grid is g[rows−1−c][cols−1−a] |
| Slam.MapBytesRoundTrip | ROS/libraries/epp2/slam/slam/alex_slam.py:51-83 | gridToMapBytes(mapBytesToGrid(b, w, h)) = b |
| Slam.GridRoundTrip | ROS/libraries/epp2/slam/slam/alex_slam.py:51-83 | mapBytesToGrid(gridToMapBytes(g), w, h) = g, with rows·cols bytes |
| TopicTree.Empty | ROS/libraries/epp2/pubsub/pubsub/pub_sub_manager.py:654 | the initial tree is a root with no subscribers |
| TopicTree.ParseTopic | ROS/libraries/epp2/pubsub/pubsub/pub_sub_manager.py:803-813 | `topic.split("/")`: segments free of `/` that join back to the topic |
| TopicTree.TargetsIff | ROS/libraries/epp2/pubsub/pubsub/pub_sub_manager.py:828-838 | s is a target of a topic iff s sits at a node whose path is a prefix of the parsed topic (root included) |
| TopicTree.AddSub | ROS/libraries/epp2/pubsub/pubsub/pub_sub_manager.py:860-872 | the subscriber joins exactly the node of the parsed path (root for ""); only missing prefixes are created, empty; no other node changes |
| TopicTree.RemoveSub | ROS/libraries/epp2/pubsub/pubsub/pub_sub_manager.py:888-898 | False without change when a node is missing; raises without change when the id is absent; otherwise removes it at that node only, pruning nothing |
| TopicTree.AddThenRemove | ROS/libraries/epp2/pubsub/pubsub/pub_sub_manager.py:860-898 | removing right after adding succeeds and restores every set that lacked the id |
| TopicTree.AddedReceives | ROS/libraries/epp2/pubsub/pubsub/pub_sub_manager.py:828-872 | after subscribing to a topic, the id receives publishes on it and on every sub-topic |
| TopicTree.SubscribedTopicsIff | ROS/libraries/epp2/pubsub/pubsub/pub_sub_manager.py:910-917 | a rendered topic is listed iff its node holds the id; paths are rendered with a leading `/`, the root as "" |
| TopicTree.AddedTopicListed | ROS/libraries/epp2/pubsub/pubsub/pub_sub_manager.py:860-917 | after subscribing to a non-empty topic, "/" + topic is among the listed topics |
| PubSub.MessageType | ROS/libraries/epp2/pubsub/pubsub/pub_sub_manager.py:219-220 | codes 1, 2, 3 exactly for publish, subscribe, unsubscribe |
| PubSub.GetPayload | ROS/libraries/epp2/pubsub/pubsub/pub_sub_manager.py:227-230 | None exactly for the 3-tuples |
| PubSub.Message | ROS/libraries/epp2/pubsub/pubsub/pub_sub_manager.py:192-197 | (1, sender, topic, payload), as read back by the accessors |
| PubSub.SubscribeMsg | ROS/libraries/epp2/pubsub/pubsub/pub_sub_manager.py:200-205 | (2, sender, topic), with no payload |
| PubSub.UnsubscribeMsg | ROS/libraries/epp2/pubsub/pubsub/pub_sub_manager.py:208-213 | (3, sender, topic), with no payload |
| PubSub.FilterMessages | ROS/libraries/epp2/pubsub/pubsub/pub_sub_manager.py:240-251 | keeps exactly the messages whose topic is in the list (exact match) |
| PubSub.FilterAppend | ROS/libraries/epp2/pubsub/pubsub/pub_sub_manager.py:240-251 | filtering distributes over concatenation, so order is kept |
| PubSub.Runnable.PublishTo | ROS/libraries/epp2/pubsub/pubsub/pub_sub_manager.py:307-336 | True and the message queued exactly when the broker queue is not full |
| PubSub.Runnable.Request | ROS/libraries/epp2/pubsub/pubsub/pub_sub_manager.py:338-433 | False when the request cannot be queued; True without waiting; else the reply taken from the command queue, False if none |
| PubSub.Runnable.GetMessages | ROS/libraries/epp2/pubsub/pubsub/pub_sub_manager.py:453-466 | the queued messages in FIFO order, leaving the queue empty |
| PubSub.Runnable.DoExit | ROS/libraries/epp2/pubsub/pubsub/pub_sub_manager.py:468-476 | the exit event is set |
| PubSub.PubSubManager.Add | ROS/libraries/epp2/pubsub/pubsub/pub_sub_manager.py:675-723 | default name `Executable-{n+1}-t`/`-p`; an existing name is overwritten; fresh unbounded input, capacity-1 command queue; output and exit event by kind |
| PubSub.PubSubManager.ExitAll | ROS/libraries/epp2/pubsub/pubsub/pub_sub_manager.py:752-768 | both exit events are set (idempotent) |
| PubSub.PubSubManager.JoinAll | ROS/libraries/epp2/pubsub/pubsub/pub_sub_manager.py:770-795 | every entry's input, output and command queues are drained |
| PubSub.DrainAll | ROS/libraries/epp2/pubsub/pubsub/pub_sub_manager.py:783-794 | afterwards every entry's input, output and command queues are empty |
| PubSub.PubSubManager.GetTopicTargets | ROS/libraries/epp2/pubsub/pubsub/pub_sub_manager.py:815-838 | the loop's union is the subscribers along the longest existing prefix (`TopicTree.Targets`) |
| PubSub.PubSubManager.AddSubscriber | ROS/libraries/epp2/pubsub/pubsub/pub_sub_manager.py:840-872 | the in-place walk leaves exactly `TopicTree.AddSub` of the old tree and returns True |
| PubSub.WalkCreating | ROS/libraries/epp2/pubsub/pubsub/pub_sub_manager.py:860-867 | the walk leaves every prefix of the parsed path in the tree, creating each missing one empty and changing no existing node; "" stays at the root |
| PubSub.PubSubManager.RemoveSubscriber | ROS/libraries/epp2/pubsub/pubsub/pub_sub_manager.py:874-898 | the in-place walk gives exactly `TopicTree.RemoveSub` of the old tree, outcome included |
| PubSub.PubSubManager.BrokerPublish | ROS/libraries/epp2/pubsub/pubsub/pub_sub_manager.py:980-999 | each registered, alive target's input gets the message unless full; no other input changes |
| PubSub.PutEach | ROS/libraries/epp2/pubsub/pubsub/pub_sub_manager.py:984-999 | each named queue gets the message unless a bounded queue is full; every other queue is unchanged |
| PubSub.PubSubManager.BrokerRequest | ROS/libraries/epp2/pubsub/pubsub/pub_sub_manager.py:1001-1031 | a registered sender's request updates the tree and puts its reply only on that sender's command queue, dropped when full |
| PubSub.PutOne | ROS/libraries/epp2/pubsub/pubsub/pub_sub_manager.py:1009-1015 | only the sender's command queue gets the reply, dropped when full; no reply puts nothing |
| PubSub.PubSubManager.Request | ROS/libraries/epp2/pubsub/pubsub/pub_sub_manager.py:1001-1027 | subscribe adds the sender at the topic's node and replies True; unsubscribe gives `RemoveSub`'s tree and reply, or the stale reply when it raises; the registry is unchanged |
| PubSub.PubSubManager.BrokerHandle | ROS/libraries/epp2/pubsub/pubsub/pub_sub_manager.py:979-1031 | a publish reaches the alive targets' inputs and touches no command queue; a registered sender's request updates the tree and replies on that sender's command queue only |
| PubSub.PubSubManager.BrokerStep | ROS/libraries/epp2/pubsub/pubsub/pub_sub_manager.py:970-1037 | with a flag set, both are set and the loop ends; otherwise the oldest message is handled: tree, inputs and replies as above |
| PubSub.PubSubManager.RelayStep | ROS/libraries/epp2/pubsub/pubsub/pub_sub_manager.py:940-956 | with a flag set the loop ends; otherwise the oldest process message moves to the thread queue, dropped when full |
| PubSub.UnsubscribeReplyIff | ROS/libraries/epp2/pubsub/pubsub/pub_sub_manager.py:1017-1027 | the unsubscribe reply is True when the sender was at the topic's node, False when the node is missing |
| PubSub.SubscribeThenPublish | ROS/libraries/epp2/pubsub/pubsub/pub_sub_manager.py:980-1011 | a registered subscriber is answered True and becomes a target of every publish under the topic |
| Display.LastOn | ROS/labs/SlamLab/nodes/alex_display_node.py:458-471 | the index of the newest message on a topic, or None when there is none |
| Display.LastOnIsNewest | ROS/labs/SlamLab/nodes/alex_display_node.py:458-471 | no message after the index found has the topic, and none is found only when no message has it |
| Display.ExpectedSelects | ROS/labs/SlamLab/nodes/alex_display_node.py:458-471 | each artist is redrawn at most once: scan from the newest `lidar/scan`, map and robot from the newest `slam/mappose` |
| Display.ExpectedFromTopics | ROS/labs/SlamLab/nodes/alex_display_node.py:458-471 | every redraw comes from a listed message on one of the two topics |
| Display.ExpectedIgnoresOthers | ROS/labs/SlamLab/nodes/alex_display_node.py:458-471 | a message on any other topic changes nothing |
| Display.ExpectedOlderIgnored | ROS/labs/SlamLab/nodes/alex_display_node.py:472-476 | once the newer messages contain both topics, older messages change nothing |
| Display.Finished | ROS/labs/SlamLab/nodes/alex_display_node.py:472-476 | the loop examines messages down to the older of the two newest indices, or all of them |
| Display.UpdatePlots | ROS/labs/SlamLab/nodes/alex_display_node.py:434-476 | an empty list redraws nothing; the redraws are the selection rule, newest first; iteration stops once both topics are drawn; the same three artists are returned |

## Left out

- I/O is out of the model: serial, TLS sockets, `sslWrite`/`sslRead`, lidar hardware and `input()`. Received bytes, read results and the prompted line are parameters.
- Threads, processes, barriers, timeouts and `start_all` are out. The broker and relay are single sequential steps, aliveness is a set of names, and a blocking get or put that would time out is the non-blocking one.
- PubSub.PubSubManager.BrokerRequest: when the sender is not registered, nothing is modelled. The source would put the stale `result` left from an earlier iteration on a stale queue.
- PubSub.PubSubManager.BrokerRequest: when `set.remove` raises, the reply is an arbitrary `stale` parameter, which stands for the stale `result`.
- PubSub.PubSubManager.JoinAll: the source visits threads before processes and joins each one. The model drains every entry in an unspecified order and does not model the join.
- `getAllSubscribedTopics` is the function `TopicTree.SubscribedTopics`, not a recursion that adds into a set.
- The subscriber tree is a map, not nested dicts. Aliasing of inner dicts is not modelled.
- netconstants.h and constants.h are not part of this model. NET_* codes follow the Python `TNetType` mirror, and the C client's RESP_* codes follow `TResponseType`. The C client's colour and ultrasonic codes are parameters that differ from 0..3.
- Strings.PyInt: accepts ASCII digits only. Python's `int()` also accepts other Unicode decimal digits.
- Client.Client.WriterThread: running out of keys before a quit ends the model's loop. The source would block on input. The same holds for Client.Client.WriterThreadIntended.
- EndToEnd.MessageFrameAtClient: proved only for messages shorter than 32 bytes. A 32-byte message leaves no terminator, and `%s` would read on past it.
- The C stack buffer of the reader starts as zeros in the model.
- Lidar.ResampleLidarScan: `np.mean` is an abstract merge over reals. `np.arange` with a non-integer step and float rounding in `%` are not modelled. Bins are exact real intervals.
- Slam.MapBytesToGrid: grids are of bytes only. BreezySLAM, `slamThread` and the float pose arithmetic are out.
- Plotting, trigonometry, the Bokeh display and the display utilities are out. `updatePlots` records which artist is redrawn from which message.
- Verbose printing and the C client's `printf` reports are out. They are modelled as report values.
- The camera server, node wrappers, packaging and dependency checks are out.

## Findings

| source | as written | input that shows it | evidently intended | confidence | as-written member | corrected member |
|---|---|---|---|---|---|---|
| ROS/labs/SlamLab/nodes/alex_TLSRelay_send_node.py:98-109 | `data[1:101] = bytes(TPacket)` grows the 65-byte status frame to 101 bytes, with params at offsets 37..100 | a status with params[0] = 1: the client, reading params from offset 1, shows 0 | the 65-byte frame: type byte, then the 16 little-endian params | not executed | TlsSend.HandleStatusAsWritten, sent by TlsSend.HandleResponse (counterexample EndToEnd.StatusAsWrittenReadsZeros) | TlsSend.HandleStatus, sent by TlsSend.HandleResponseIntended (with EndToEnd.StatusFrameAtClient) |
| computer/tls-alex-client.cpp:138-152 | `sslWrite(conn, buffer, sizeof(buffer))` on a `const char *` parameter writes 8 bytes, not `len` | pressing `f` twice: the relay reassembles one frame whose power is 1711472690 | write the `len` bytes of the frame | not executed | Client.Client.SendDataAsWritten, called by Client.Client.WriterThread (counterexamples EndToEnd.SendDataAsWrittenCorruptsPower, EndToEnd.WriterAsWrittenLosesFrames) | Client.Client.SendData, called by Client.Client.WriterThreadIntended (with EndToEnd.SendDataForwardTwice, EndToEnd.KeyFramesReassembled) |
