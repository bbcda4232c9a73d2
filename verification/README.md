# SerialRPC verification

Dafny models of SerialRPC's wire stack, from single bytes up to remote calls, with proofs that
range over every byte stream, every message and every run. To check the whole project:
`dafny verify dfyconfig.toml`.

The stack, bottom to top, and the files that model it:

| layer | files | what is modelled |
|---|---|---|
| framing | `Crc16`, `Cobs`, `Framing` | the bitwise CRC register, the streaming COBS encoder and the in-place decoder over arrays, whole frames |
| demultiplexing | `Lines`, `Demux`, `DemuxLaws` | the CR/LF/CRLF line machine, the byte-at-a-time state machine with and without text, its laws over streams |
| MessagePack | `MsgPack`, `MsgPackCodec`, `Floats` | the bounded `Writer`, the cursor `Reader`, `skip()` against a recursive definition of an object, float bit patterns |
| values | `Values`, `ValueCodec`, `Json` | the host's dynamic value, its recursive codec, its translation to and from JSON |
| device | `Device`, `RpcList`, `DeviceRuns`, `Unasked`, `Service`, `Server` | dispatch, responses under fixed buffers, `rpc.list` pages, attach and timeout, the `Server` class |
| host | `Host`, `Calls`, `RpcClient`, `RpcListHost`, `LineReader` | matching replies to calls, the client class, page collection, the buffered serial reader |
| both ends | `Messages`, `Exchange`, `Protocol`, `Session` | messages as written and as read, a call end to end, safety over lossy runs, the two classes on one line |

Code that changes things step by step is a class or a method with loops, over arrays where the
source uses fixed buffers; each is proved against a function on byte sequences, and what the
source promises is then proved of that function. Where a C++ pointer into a buffer is passed,
the model passes the array, an offset and a capacity.

Choices that matter when reading the contracts:

- Bytes are integers below 256; the CRC register is a 16-bit vector; counters, message ids and
  clock readings wrap at 2^32 where the source's do. Sizes are unbounded, with lengths below 2^32.
- A handler is a function of its parameter count, its undecoded parameters and how many
  handlers ran before it, so it may keep state of its own. It fails with a message or leaves bytes.
- An exception is a result: `None`, `Throws`, `Thrown`, `PortFailed` or a `Sending` other than `Sent`.
- The serial line is what `read_native` delivers before a call's deadline or its first failure, in pieces of any size;
  the line between host and device may lose, delay and reorder frames, but does not invent or repeat them.
- `Framing.CobsStreamEncoder` keeps the message fed so far as ghost state; its `Feed` requires what the source
  asks of its callers, that only a call announced by `more_follows` supplies further bytes.

Where the code and its comments differ, the code is modelled:

- `src/serial_rpc/msgpack_lite.h:409-410` says reads after an error are no-ops. Only `type()` and
  `skip()` look at the flag; every other read still runs, and what holds is that a failed read
  restores the cursor, leaves the output alone and keeps the flag set
  (`MsgPackCodec.ReadsGoOnAfterError` gives the input, `MsgPackCodec.ReadAfterError` the rule).
- `src/serial_rpc/framing.h:331-334` speaks of a partial line surviving a frame. So does the pending
  carriage return, which neither entering FRAME nor pushing bytes back clears.
- `src/serial_rpc/framing.h:356-360` says rejected bytes are appended verbatim. They are when the first code points
  past the end (`Framing.ValidateText`); otherwise decoding in place has overwritten their front
  (`Framing.ValidateTruncated`, `Framing.ValidateEncoding`), as `src/serial_rpc/framing.h:262-267` allows.
- `src/serial_rpc/framing.h:361-364` says pushed-back bytes are shown when a real terminator is next
  seen. An LF does not show them when a CR was pending before the frame (`DemuxLaws.RejectedShown`).
- `src/serial_rpc/framing.h:349-352` says the byte that overflows the collector may be a fresh 0x00; the branch is
  reached only for other bytes.
- `src/serial_rpc/server.h:1546-1551` calls the longest string header unreachable; the prediction is exact
  exactly below 65536 bytes.

## Model

| member | source | states |
|---|---|---|
| `Crc16.Crc16Ccitt` | `src/serial_rpc/framing.h:36-49` | the loop over bytes computes the recursive register function over the stretch of the array, from any initial register |
| `Crc16.ShiftByte` | `src/serial_rpc/framing.h:40-46` | the inner loop makes exactly eight register shifts |
| `Crc16.CheckValue` | `src/serial_rpc/framing.h:31-49` | the checksum of "123456789" is 0x29B1, which pins polynomial, seed and bit order |
| `Crc16.CrcConcat` | `src/serial_rpc/framing.h:26-36` | a previous result passed as the initial register continues the checksum over the next chunk |
| `Crc16.UnshiftShift` | `src/serial_rpc/framing.h:40-46` | one register shift has an inverse |
| `Crc16.UpdateInjective` | `src/serial_rpc/framing.h:38-47` | after one byte, registers (or bytes) that differed still differ |
| `Crc16.CrcInjective` | `src/serial_rpc/framing.h:36-49` | over the same data the final register determines the initial one: a difference never cancels by itself |
| `Crc16.PairInjective` | `src/serial_rpc/framing.h:38-47` | two different pairs of bytes from the same register never meet again |
| `Crc16.OneByteDetected` | `src/serial_rpc/framing.h:36-49` | changing any one byte of any data changes the checksum |
| `Crc16.TwoBytesDetected` | `src/serial_rpc/framing.h:36-49` | changing any two adjacent bytes, in any way, changes the checksum |
| `Crc16.Residue` | `src/serial_rpc/framing.h:285-292` | data followed by two bytes has checksum 0 exactly when those bytes are its big-endian CRC |
| `Crc16.JoinIsTrailer` | `src/serial_rpc/framing.h:236-287` | two received bytes join to a CRC exactly when they are the two bytes that were sent for it |
| `Cobs.EncodeZeroFree` | `src/serial_rpc/framing.h:169-172` | an encoding contains no 0x00 |
| `Cobs.EncodeLength` | `src/serial_rpc/framing.h:61-66` | an encoding of n bytes is longer than n and at most n + n/254 + 1 bytes, the bound used for buffers |
| `Cobs.CloseAtZero` | `src/serial_rpc/framing.h:140-155` | a zero closes the open group, which becomes final whatever follows |
| `Cobs.CloseWhenFull` | `src/serial_rpc/framing.h:140-155` | a run of 254 closes its group without a zero, and has no trailing group when the message ends there |
| `Cobs.DecodeEncode` | `src/serial_rpc/framing.h:192-218` | decoding an encoding is accepted and gives the message back |
| `Cobs.EncodeInjective` | `src/serial_rpc/framing.h:173-177` | different messages have different encodings |
| `Cobs.DecodeBroken` | `src/serial_rpc/framing.h:192-218` | groups completed before a code that points past the end are written before the decoder refuses the block |
| `Cobs.AcceptsZeroFree` | `src/serial_rpc/framing.h:188-190` | no block with a zero in it is accepted |
| `Cobs.DecodeShrinks` | `src/serial_rpc/framing.h:181-186` | a non-empty accepted block shrinks by at least one byte, and a rejected one never grows |
| `Cobs.Canonical` | `src/serial_rpc/framing.h:130-218` | re-encoding what an accepted block decodes to gives the block back, except exactly when it is empty or ends in a full group followed by a lone 01 |
| `Cobs.SubstituteData` | `src/serial_rpc/framing.h:192-218` | replacing one data byte by another non-zero byte changes exactly the corresponding decoded byte and keeps the block accepted |
| `Framing.CobsStreamEncoder.constructor` | `src/serial_rpc/framing.h:95` | an encoder with nothing fed, over a span of the output |
| `Framing.CobsStreamEncoder.Feed` | `src/serial_rpc/framing.h:100-107` | extends the message by the bytes fed, for any split into calls that announces what follows; failure is sticky, and no byte outside the span is written |
| `Framing.CobsStreamEncoder.PutOne` | `src/serial_rpc/framing.h:130-157` | one byte: stored, or a group closed, or the span found too small for any continuation of the message |
| `Framing.CobsStreamEncoder.StoreData` | `src/serial_rpc/framing.h:131-139` | a data byte extends the open run |
| `Framing.CobsStreamEncoder.CloseGroup` | `src/serial_rpc/framing.h:140-155` | closing a group leaves the next one open, or elides it when a full group ends the message |
| `Framing.CobsStreamEncoder.Finish` | `src/serial_rpc/framing.h:109-127` | writes exactly the recursive encoding of everything fed, and returns 0 exactly when the span is shorter than that |
| `Framing.CobsEncode` | `src/serial_rpc/framing.h:169-177` | the output is the recursive encoding, or 0 exactly when it does not fit |
| `Framing.CobsDecode` | `src/serial_rpc/framing.h:179-218` | decoding into any array, the input itself included, gives the recursive decoding of the bytes held on entry; verdict, bytes written and untouched bytes are the same in place and apart |
| `Framing.DecodeOneGroup` | `src/serial_rpc/framing.h:195-215` | one pass of the loop advances reading by a group, never writing past what was read |
| `Framing.CopyData` | `src/serial_rpc/framing.h:201-206` | the data of a group moves down, up to an embedded zero or the capacity |
| `Framing.WriteGap` | `src/serial_rpc/framing.h:208-215` | the zero between groups is written unless the group was full or last |
| `Framing.FrameEncode` | `src/serial_rpc/framing.h:225-248` | the output is delimiter, encoding of payload and big-endian CRC, delimiter; 0 exactly when the buffer is too small |
| `Framing.FrameFits` | `src/serial_rpc/framing.h:220-223` | a buffer of the advertised maximum always holds the frame |
| `Framing.FrameSizeExact` | `src/serial_rpc/framing.h:220-223` | and is no larger than it must be: frames of payloads up to 251 bytes have it exactly |
| `Framing.FrameFitsIn` | `src/serial_rpc/framing.h:220-223` | and so does one sized for any longer payload |
| `Framing.DecodeAndValidateFrame` | `src/serial_rpc/framing.h:255-295` | in place: empty, the payload, or the bytes that go back to the text, as the verdict on the collected bytes says |
| `Framing.ReadyIff` | `src/serial_rpc/framing.h:276-294` | bytes are accepted exactly when they decode to at least two bytes whose checksum is 0 |
| `Framing.ValidateBody` | `src/serial_rpc/framing.h:225-295` | what was framed is accepted and yields the payload |
| `Framing.DecodeFits` | `src/serial_rpc/framing.h:188-218` | a message is decoded into any room that holds it, and cut and refused in any smaller |
| `Framing.ValidateEncoding` | `src/serial_rpc/framing.h:271-295` | the encoding of any message is accepted exactly when the message has two bytes or more and checksum 0; a rejected one comes back decoded |
| `Framing.ValidateTruncated` | `src/serial_rpc/framing.h:260-275` | a block whose last group points past its end comes back as it then lies in the buffer: what the groups before it decoded to, over the front of what was collected |
| `Framing.ValidateText` | `src/serial_rpc/framing.h:268-275` | bytes whose very first code points past their end come back verbatim |
| `Framing.BodyZeroFree` | `src/serial_rpc/framing.h:225-247` | no delimiter occurs inside a frame |
| `Framing.CorruptedDataRefused` | `src/serial_rpc/framing.h:271-295` | one data byte of a frame changed to another non-zero byte is always a CRC error |
| `Framing.CorruptedPairRefused` | `src/serial_rpc/framing.h:271-295` | a decoded block that differs from an accepted one in one byte or two adjacent bytes is refused |
| `Lines.EmittedConcat` | `src/serial_rpc/framing.h:432-453` | the lines of a stream do not depend on how it is cut into pieces |
| `Lines.AppendKeeps` | `src/serial_rpc/framing.h:491-511` | the pending line is the first LineMax - 1 bytes of what it was given, marked truncated exactly when there were more |
| `Lines.LinesOfText` | `src/serial_rpc/framing.h:432-453` | text yields one line for each of its lines, each ended by LF, CR or CR LF, cut to what leaves room for the NUL |
| `Lines.LinesAgree` | `extras/host/include/serialport.hpp:1525-1566` | reading one line after another gives exactly the lines the byte machine of the device emits, with LineMax one larger |
| `Demultiplexer.Demux.constructor` | `src/serial_rpc/framing.h:382-387` | starts in TEXT with nothing pending |
| `Demultiplexer.Demux.Reset` | `src/serial_rpc/framing.h:413-427` | back to TEXT with nothing pending, the error counters kept |
| `Demultiplexer.Demux.FeedByte` | `src/serial_rpc/framing.h:389-393` | one byte takes the abstract state and shows the event that the step function says, with its bytes in the shared buffers |
| `Demultiplexer.Demux.FeedTextByte` | `src/serial_rpc/framing.h:432-453` | the TEXT step |
| `Demultiplexer.Demux.FeedFrameByte` | `src/serial_rpc/framing.h:455-489` | the FRAME step |
| `Demultiplexer.Demux.Collect` | `src/serial_rpc/framing.h:456-466` | a byte is collected, or a full collector goes back to the text and the byte is read as text |
| `Demultiplexer.Demux.EndFrame` | `src/serial_rpc/framing.h:468-488` | a delimiter delivers the payload, or pushes the rejected bytes back, counts the error and stays in FRAME |
| `Demultiplexer.Demux.AppendLineByte` | `src/serial_rpc/framing.h:491-497` | a byte joins the pending line or marks it truncated |
| `Demultiplexer.Demux.EmitLine` | `src/serial_rpc/framing.h:499-507` | the pending line is shown, NUL-terminated, and a fresh one begins in the same buffer |
| `Demultiplexer.Demux.PushBackFrameAsText` | `src/serial_rpc/framing.h:509-511` | collected bytes join the pending line in order |
| `Demultiplexer.FrameOnlyDemux.constructor` | `src/serial_rpc/framing.h:546` | starts in TEXT |
| `Demultiplexer.FrameOnlyDemux.FeedByte` | `src/serial_rpc/framing.h:548-613` | the step of the variant without text, payload in the buffer |
| `Demultiplexer.FrameOnlyDemux.FeedTextByte` | `src/serial_rpc/framing.h:573-580` | only a delimiter matters in TEXT |
| `DemuxLaws.RunConcat` | `src/serial_rpc/framing.h:389-393` | what a stream does is what its parts do in turn |
| `DemuxLaws.RunText` | `src/serial_rpc/framing.h:432-453` | bytes other than the delimiter drive the line machine and nothing else |
| `DemuxLaws.RunFrame` | `src/serial_rpc/framing.h:432-489` | a frame met in TEXT or right after a delimiter is delivered, and leaves text and counters alone |
| `DemuxLaws.FramesAndTextSeparate` | `src/serial_rpc/framing.h:315-349` | from any TEXT state and for any mixture of text and fitting frames: the payloads come out in order, and the lines are those of the text alone, wherever frames split it |
| `DemuxLaws.LinesOfReader` | `src/serial_rpc/framing.h:432-507` | on a stream without delimiters the lines are those of the host reader |
| `DemuxLaws.TwoDelimiters` | `src/serial_rpc/framing.h:336-338` | two delimiters lead from any state to the start of a frame |
| `DemuxLaws.FrameArrives` | `src/serial_rpc/framing.h:335-352` | a fitting frame is delivered from every state, in TEXT, after noise, after a damaged frame or in the middle of one, exactly when the bytes collected before it do not form a valid frame of their own; otherwise that frame is delivered in its place |
| `DemuxLaws.PartOfFrame` | `src/serial_rpc/framing.h:432-489` | nothing is delivered of a frame that breaks off before its last byte |
| `DemuxLaws.SecondFrameArrives` | `src/serial_rpc/framing.h:335-352` | of two fitting frames sent back to back into any state whatever, the second is always delivered and TEXT is reached; the first is lost exactly when the bytes collected before it form a valid frame of their own |
| `DemuxLaws.DamagedFrameDropped` | `src/serial_rpc/framing.h:455-489` | a frame with one data byte changed yields no event, counts one CRC error, and the next frame is delivered |
| `DemuxLaws.RejectedShown` | `src/serial_rpc/framing.h:354-370` | what a rejected block puts back is shown by the next CR or LF, except by an LF when a CR was pending before the block: the line then stays pending; the block is counted under its own kind of error |
| `DemuxLaws.OverflowIsText` | `src/serial_rpc/framing.h:455-466` | text after a stray delimiter is not lost: bytes that overfill the collector join the pending line in order, the byte that overflows is read as text, CR and LF included, and one overflow is counted |
| `DemuxLaws.TextIsIrrelevant` | `src/serial_rpc/framing.h:529-613` | on every stream the variant without text reports the same payloads at the same positions and keeps the same counters |
| `MsgPack.ReadsInt` | `src/serial_rpc/msgpack_lite.h:353-394` | every 64-bit integer, signed or unsigned, is read back from its encoding, whatever follows |
| `MsgPack.ShortestInt` | `src/serial_rpc/msgpack_lite.h:352-394` | no integer format that any read accepts holds the value in fewer bytes than the one written |
| `MsgPack.ShortestHeaders` | `src/serial_rpc/msgpack_lite.h:219-306` | nor does any accepted header of a string, blob, array or map describe its length in fewer bytes than the one written |
| `MsgPack.BigEndian` | `src/serial_rpc/msgpack_lite.h:335-350` | multi-byte numbers stand most significant byte first |
| `MsgPack.ReadsUnsignedFormats` | `src/serial_rpc/msgpack_lite.h:869-909` | a number is read from every unsigned format that holds it, shortest or not |
| `MsgPack.ReadsSignedFormats` | `src/serial_rpc/msgpack_lite.h:910-951` | and from every signed one, negative or not, where it stands in two's complement |
| `MsgPack.ReadsChunkFormats` | `src/serial_rpc/msgpack_lite.h:560-595` | strings and blobs are read under a length of one, two or four bytes |
| `MsgPack.ReadsCountFormats` | `src/serial_rpc/msgpack_lite.h:597-639` | array and map counts under two or four bytes |
| `MsgPack.FixedExtensions` | `src/serial_rpc/msgpack_lite.h:765-789` | an extension of fixed size extends over its format byte, its type and 1, 2, 4, 8 or 16 bytes |
| `MsgPack.SizedExtensions` | `src/serial_rpc/msgpack_lite.h:779-802` | any other extends over its format byte, its length, its type and as many bytes as the length says |
| `MsgPack.ReservedByte` | `src/serial_rpc/msgpack_lite.h:802-806` | 0xc1 starts no object |
| `MsgPack.ReadsStr` | `src/serial_rpc/msgpack_lite.h:219-241` | a string is read back whatever follows |
| `MsgPack.ReadsBin` | `src/serial_rpc/msgpack_lite.h:246-266` | a blob is read back whatever follows |
| `MsgPack.ReadsArrayHeader` | `src/serial_rpc/msgpack_lite.h:268-286` | an array header is read back |
| `MsgPack.ReadsMapHeader` | `src/serial_rpc/msgpack_lite.h:288-306` | a map header is read back |
| `MsgPack.ExtentsAdd` | `src/serial_rpc/msgpack_lite.h:641-647` | consecutive objects can be measured in two instalments |
| `MsgPack.FlatStep` | `src/serial_rpc/msgpack_lite.h:641-647` | replacing a container by its children in the count of objects owed measures the same bytes |
| `MsgPack.ScanIsExtents` | `src/serial_rpc/msgpack_lite.h:648-660` | below 5 * (2^31 + 1) bytes the 64-bit counter of objects owed cannot wrap, and the iterative scan agrees with the recursive definition |
| `MsgPack.ScanWraps` | `src/serial_rpc/msgpack_lite.h:648-807` | at that length there is a buffer on which it wraps: the scan accepts and consumes all of it, though no complete object is there |
| `MsgPack.ScanRightUpTo` | `src/serial_rpc/msgpack_lite.h:641-807` | so the scan is right on all buffers of up to n bytes if and only if n is below that limit |
| `MsgPackCodec.Writer.constructor` | `src/serial_rpc/msgpack_lite.h:141` | a writer over a span of a buffer |
| `MsgPackCodec.Writer.Reset` | `src/serial_rpc/msgpack_lite.h:149-153` | forgets what was written |
| `MsgPackCodec.Writer.Holds` | `src/serial_rpc/msgpack_lite.h:322-333` | the buffer holds the first cap bytes of everything packed, all of it unless the overflow flag is set |
| `MsgPackCodec.Writer.PutByte` | `src/serial_rpc/msgpack_lite.h:322-329` | one byte is stored, or only counted once the span is full |
| `MsgPackCodec.Writer.PutBytes` | `src/serial_rpc/msgpack_lite.h:331-333` | bytes in order |
| `MsgPackCodec.Writer.PutU16` | `src/serial_rpc/msgpack_lite.h:335-338` | two bytes, most significant first |
| `MsgPackCodec.Writer.PutU32` | `src/serial_rpc/msgpack_lite.h:340-345` | four bytes, most significant first |
| `MsgPackCodec.Writer.PutU64` | `src/serial_rpc/msgpack_lite.h:347-350` | eight bytes, most significant first |
| `MsgPackCodec.Writer.PackNil` | `src/serial_rpc/msgpack_lite.h:156` | appends nil |
| `MsgPackCodec.Writer.PackBool` | `src/serial_rpc/msgpack_lite.h:159` | appends a boolean |
| `MsgPackCodec.Writer.PackUint` | `src/serial_rpc/msgpack_lite.h:353-369` | appends the unsigned encoding |
| `MsgPackCodec.Writer.PackInt` | `src/serial_rpc/msgpack_lite.h:374-394` | appends the signed encoding, negative values as two's complement |
| `MsgPackCodec.Writer.PackDouble` | `src/serial_rpc/msgpack_lite.h:193-202` | appends the eight bytes of a double |
| `MsgPackCodec.Writer.PackStr` | `src/serial_rpc/msgpack_lite.h:220-241` | appends a string, its header chosen by length |
| `MsgPackCodec.Writer.PackBin` | `src/serial_rpc/msgpack_lite.h:247-266` | appends a blob, its header chosen by length |
| `MsgPackCodec.Writer.PackArray` | `src/serial_rpc/msgpack_lite.h:269-286` | appends an array header |
| `MsgPackCodec.Writer.PackMap` | `src/serial_rpc/msgpack_lite.h:289-306` | appends a map header |
| `MsgPackCodec.Reader.constructor` | `src/serial_rpc/msgpack_lite.h:418` | a cursor at the start of a buffer |
| `MsgPackCodec.Reader.NextType` | `src/serial_rpc/msgpack_lite.h:428-470` | the kind of the next object; invalid at the end or once a read has failed |
| `MsgPackCodec.TypeTellsRead` | `src/serial_rpc/msgpack_lite.h:425-470` | the classification says which read accepts the object; what no read accepts is an extension or the reserved byte, and only the latter cannot be skipped |
| `MsgPackCodec.Reader.GetByte` | `src/serial_rpc/msgpack_lite.h:810-815` | one byte, or the sticky flag |
| `MsgPackCodec.Reader.GetNumber` | `src/serial_rpc/msgpack_lite.h:810-844` | a big-endian number, or the flag; eight bytes are two reads, so a failed one has moved the cursor by four when four to seven bytes were left |
| `MsgPackCodec.Reader.ReadNil` | `src/serial_rpc/msgpack_lite.h:473-477` | consumes a nil or fails in place |
| `MsgPackCodec.Reader.ReadBool` | `src/serial_rpc/msgpack_lite.h:480-487` | consumes a boolean, or fails in place with the output untouched |
| `MsgPackCodec.Reader.ReadRawMagnitude` | `src/serial_rpc/msgpack_lite.h:869-951` | sign and magnitude of any integer format, the most negative one included |
| `MsgPackCodec.Reader.ReadSigned` | `src/serial_rpc/msgpack_lite.h:956-974` | yields the integer exactly when it lies in the type's range; otherwise cursor and output stay as they were |
| `MsgPackCodec.Reader.ReadUnsigned` | `src/serial_rpc/msgpack_lite.h:976-986` | the same for unsigned types |
| `MsgPackCodec.Reader.ReadFloating` | `src/serial_rpc/msgpack_lite.h:527-558` | the bit pattern of a float or double, or the integer found instead |
| `MsgPackCodec.FloatReads` | `src/serial_rpc/msgpack_lite.h:500-558` | a floating-point read takes either width of float, and every integer format |
| `MsgPackCodec.Reader.ReadHeader` | `src/serial_rpc/msgpack_lite.h:988-1047` | length or count of a string, blob, array or map |
| `MsgPackCodec.Reader.ReadArray` | `src/serial_rpc/msgpack_lite.h:597-617` | an array header |
| `MsgPackCodec.Reader.ReadMap` | `src/serial_rpc/msgpack_lite.h:619-639` | a map header |
| `MsgPackCodec.Reader.ReadChunk` | `src/serial_rpc/msgpack_lite.h:560-595` | where the bytes of a string or blob lie, when all of them are there |
| `MsgPackCodec.Reader.Skip` | `src/serial_rpc/msgpack_lite.h:641-807` | on buffers of any length it moves exactly as far as the scan with the wrapping counter, or fails in place; after an error it does nothing |
| `MsgPackCodec.Reader.SkipFlat` | `src/serial_rpc/msgpack_lite.h:652-805` | one object without its children, and how many children it owes |
| `MsgPackCodec.Reader.SkipFixed` | `src/serial_rpc/msgpack_lite.h:853-858` | moves over n bytes if they are there |
| `MsgPackCodec.Reader.ReadStrCopy` | `src/serial_rpc/msgpack_lite.h:572-583` | copies the string and a NUL exactly when a complete string is there and both fit the capacity; otherwise destination and cursor stay as they were |
| `MsgPackCodec.Reader.ReadInto` | `src/serial_rpc/msgpack_lite.h:472-639` | a read into a variable of any kind consumes exactly what it asks for and stores it, or fails in place with the flag set and the variable untouched |
| `MsgPackCodec.ReadAfterError` | `src/serial_rpc/msgpack_lite.h:405-410` | after an error a read of any kind leaves cursor and variable alone exactly when the bytes at the cursor do not form what it asks for; otherwise it moves on and stores the value; the flag stays set either way |
| `MsgPackCodec.ReadsGive` | `src/serial_rpc/msgpack_lite.h:472-639` | what a read stores is what was written, or nothing when it lies outside the limits of the variable |
| `MsgPackCodec.ReadsGoOnAfterError` | `src/serial_rpc/msgpack_lite.h:405-477` | the comment that reads after an error are no-ops does not hold: a concrete buffer on which the read after a failed one moves the cursor |
| `Floats.WidenExact` | `src/serial_rpc/msgpack_lite.h:536-541` | converting a float to a double keeps sign and value of every finite float, subnormals included |
| `Floats.NarrowTruncates` | `src/serial_rpc/msgpack_lite.h:95-127` | in range, narrowing truncates toward zero: less than one unit in the last place is lost |
| `Floats.NarrowOutOfRange` | `src/serial_rpc/msgpack_lite.h:109-123` | a finite double becomes zero exactly below the smallest normal float, and infinite exactly past the largest |
| `Floats.NarrowInvertsWiden` | `src/serial_rpc/msgpack_lite.h:95-127` | a float survives the way through a double exactly when it is neither subnormal nor a NaN other than the plain quiet one |
| `Values.DecodesEncoding` | `extras/host/include/serial_rpc.hpp:281-396` | decoding an encoding followed by anything gives the value back, integers normalised, and stops exactly at its end |
| `Values.DecodesWithinDepth` | `extras/host/include/serial_rpc.hpp:318-396` | the encoding of a value, followed by anything, decodes exactly when the value nests within the limit; past it decoding throws |
| `Values.DecodesSingle` | `extras/host/include/serial_rpc.hpp:350-355` | a single-precision float on the wire becomes the double of the same sign and value, an infinity stays one, a NaN keeps its payload |
| `Values.PrefixFree` | `extras/host/include/serial_rpc.hpp:281-316` | no encoding is a prefix of another, and equal encodings mean equal values up to integer normalisation |
| `Values.NormalEncodesSame` | `src/serial_rpc/msgpack_lite.h:374-378` | normalising integers does not change the encoding |
| `Values.DecodeMeasures` | `extras/host/include/serial_rpc.hpp:321-396` | whenever the recursive decoder accepts, it consumes exactly the object that skip() would |
| `ValueCodec.EncodeValue` | `extras/host/include/serial_rpc.hpp:286-316` | packs the encoding of the value, recursively |
| `ValueCodec.DecodeValue` | `extras/host/include/serial_rpc.hpp:321-396` | returns the value and moves just past it exactly when the recursive decoder accepts; every other input throws |
| `ValueCodec.PackItems` | `extras/host/include/serial_rpc.hpp:304-306` | the loop over array elements |
| `ValueCodec.DecodeItemsLoop` | `extras/host/include/serial_rpc.hpp:369-377` | the loop over array elements |
| `ValueCodec.DecodeEntriesLoop` | `extras/host/include/serial_rpc.hpp:378-390` | the loop over map entries, key before value |
| `RpcList.PredictionExact` | `src/serial_rpc/server.h:1546-1564` | the size predicted for a list entry is the size written, exactly when both strings are shorter than 65536 bytes |
| `RpcList.FittingIsMaximal` | `src/serial_rpc/server.h:1566-1573` | the entries put on a page fit, and one more would not |
| `RpcList.PackRpcListResult` | `src/serial_rpc/server.h:1589-1641` | the buffer filled in place, header patched last, is the page: entries as long as the predicted size of the next one fits, the last one cut where it turns out longer; "response too large" exactly when not even the first is tried |
| `RpcList.PageIsFitting` | `src/serial_rpc/server.h:1566-1584` | with strings shorter than 65536 bytes nothing is cut, and the page is the longest run of whole entries that fits |
| `RpcList.LongEntryCut` | `src/serial_rpc/server.h:1546-1633` | a single longer entry that is just too long for the page is cut short: the page claims one entry and ends inside it |
| `RpcList.PackEntry` | `src/serial_rpc/server.h:1629-1633` | one entry through a writer over the rest of the buffer, cut where the buffer ends |
| `RpcListHost.ParseRpcList` | `extras/host/include/serial_rpc.hpp:622-646` | reads names or [name, signature] pairs, and throws on anything else |
| `RpcListHost.ParsesNames` | `extras/host/include/serial_rpc.hpp:622-646` | a list of bare names is understood, the methods having no signature |
| `RpcListHost.ParsesNamed` | `extras/host/include/serial_rpc.hpp:626-646` | a list is understood exactly when every element is a name or an array that starts with one |
| `RpcListHost.PageDecodes` | `src/serial_rpc/server.h:1575-1584` | a page, its fixed-width header included, decodes to exactly its entries |
| `RpcListHost.PageIsRead` | `extras/host/include/serial_rpc.hpp:626-646` | and the host reads those entries out of it |
| `RpcListHost.CollectRpcListPages` | `extras/host/include/serial_rpc.hpp:670-689` | the loop collects pages until one is empty, adds nothing, or the limit is reached |
| `RpcListHost.AddNewNames` | `extras/host/include/serial_rpc.hpp:670-689` | every name of a page is collected, none twice, and nothing else |
| `RpcListHost.CollectsOnce` | `extras/host/include/serial_rpc.hpp:670-689` | whatever the device replies, no name is collected twice and nothing collected is lost |
| `RpcListHost.PagesExist` | `src/serial_rpc/server.h:1566-1570` | a listing needs finitely many pages exactly when every entry fits a page of its own |
| `RpcListHost.ListIsComplete` | `extras/host/include/serial_rpc.hpp:648-689` | over a table of distinct names the host ends up with the whole table, in order, exactly when every entry fits and at most 256 pages are needed |
| `Device.HeaderBound` | `src/serial_rpc/server.h:1270-1275` | a response header takes at most eight bytes for any message id |
| `Device.IndexOf` | `src/serial_rpc/server.h:1515-1523` | the first handler bound under a name |
| `Device.AddHandlerKeepsDistinct` | `src/serial_rpc/server.h:1524-1540` | binding keeps names distinct and positions fixed, and never outgrows the table |
| `Device.AddHandlerBinds` | `src/serial_rpc/server.h:1524-1540` | a handler is bound unless its name is new and the table full, the only case counted, and no other binding changes |
| `Messages.RequestArrives` | `src/serial_rpc/server.h:1353-1374` | the device reads back the id, method and parameters of every request the host writes |
| `Messages.NoticeArrives` | `src/serial_rpc/server.h:1375-1393` | and of every notification |
| `Messages.NoticeReads` | `extras/host/include/serial_rpc.hpp:1098-1123` | a notification of the device reaches the host with its arguments, integers normalised |
| `Messages.NoticeIsNoReply` | `extras/host/include/serial_rpc.hpp:1063-1127` | no notification is ever taken for a response |
| `Messages.OtherShapesRefused` | `src/serial_rpc/server.h:1341-1397` | a message of any other length or type than its kind demands is malformed at the device and garbled at the host |
| `Messages.ResponseMeans` | `src/serial_rpc/server.h:1652-1720` | with at least 27 bytes of buffer every response fits it, names its own request and carries the error or result, whatever the handler wrote, or "response too large" exactly when that does not fit |
| `Messages.FitsIff` | `src/serial_rpc/server.h:1299-1300` | what fits, by the lengths: an error whose array, type, id, string and nil are within the buffer, or a result that leaves eight bytes of it for the header |
| `Messages.SmallBuffers` | `src/serial_rpc/server.h:1288-1300` | a buffer of eight bytes or fewer holds a nil or one-byte result after a short id at most |
| `Messages.MeaningThrows` | `extras/host/include/serial_rpc.hpp:1080-1090` | the host throws on such a response exactly when it cannot decode the bytes the handler wrote, be they an extension or nested too deeply |
| `Messages.ResponseSlots` | `src/serial_rpc/server.h:1652-1720` | a response is [1, msgid, error, result] and nothing more, the result nil on an error and the error nil on success |
| `Messages.ResponseNamesRequest` | `src/serial_rpc/server.h:1666-1720` | whatever a handler writes and for any buffer of at least eight bytes, a response is never read as the answer to another request |
| `Messages.TooLargeFits` | `src/serial_rpc/server.h:1708-1717` | 27 bytes are enough for "response too large" with any message id |
| `Messages.PackNotice` | `src/serial_rpc/server.h:1142-1147` | packs a notification, the same way at both ends |
| `Messages.ReadPreamble` | `src/serial_rpc/server.h:1341-1352` | array length and message type, with the cursor after them |
| `DeviceRuns.AttachedMeans` | `src/serial_rpc/server.h:1447-1472` | over any run the device is attached exactly while some accepted rpc.attach has been followed by no begin(), no rpc.detach and no check that finds the timeout passed; its timeout and noted time are those of the last rpc.attach and the last valid frame |
| `DeviceRuns.DetachedStaysQuiet` | `src/serial_rpc/server.h:1135-1154` | over any run from the start, a frame leaves the device exactly as the response to a well-formed request, or as a notification or log line that fits, sent during such an attachment |
| `DeviceRuns.LogReachesHost` | `src/serial_rpc/server.h:1731-1734` | a framed log line reaches the host with its level, up to the first NUL |
| `Unasked.NotifyHeard` | `src/serial_rpc/server.h:1135-1154` | over any run, a notification taken during an attachment reaches the host with its arguments if it fits, at any other time nothing is sent, and only one that does not fit is counted |
| `Unasked.LogFramed` | `src/serial_rpc/server.h:1731-1734` | a log line taken during an attachment reaches the host as a log notification, if that fits |
| `Unasked.LogPlain` | `src/serial_rpc/server.h:1735-1738` | without an attachment the host shows it as one line of text |
| `Unasked.BannerShown` | `src/serial_rpc/server.h:1033-1041` | every start of the device shows up at a host as the line "#serial_rpc ready v1" |
| `DeviceRuns.StepLink` | `src/serial_rpc/server.h:1425-1472` | what each step does to attachment, timeout, last frame and the two callbacks: only an accepted rpc.attach attaches and fires the one, and the other fires at exactly the steps that end an attachment by rpc.detach or by timeout |
| `DeviceRuns.StepKeepsRest` | `src/serial_rpc/server.h:1033-1059` | only binding touches the table, only a frame runs a handler, one at most, or counts anything but an overflow |
| `DeviceRuns.TableIsBindings` | `src/serial_rpc/server.h:1524-1540` | over any run the table is what the bindings alone make of it |
| `DeviceRuns.DetachCallsCount` | `src/serial_rpc/server.h:1170-1172` | over any run it has fired once per such step |
| `DeviceRuns.TimesOutOnTime` | `src/serial_rpc/server.h:1740-1751` | over any run, a check of an attached device with a timeout decides by the true time since the last valid frame if and only if it comes within 2^32 ms of that frame, or that time modulo 2^32 still reaches the timeout |
| `DeviceRuns.LateCheckMisses` | `src/serial_rpc/server.h:1740-1751` | a run from the start that fails it: attach with any timeout, then a check 2^32 ms later, which leaves the device attached |
| `Exchange.DispatchFaithful` | `src/serial_rpc/server.h:1422-1474` | built-in methods answer with one complete object or nothing, so the device does whenever its handlers do |
| `Exchange.RequestHeard` | `src/serial_rpc/server.h:1341-1374` | every well-formed request, whatever its encoding and whatever handlers write, brings back exactly one response of at most BufSize bytes, in which the host reads the id of the request and the outcome of its dispatch |
| `Exchange.RequestAnswered` | `src/serial_rpc/server.h:1341-1374` | for handlers that leave one decodable object each, that response is the four slots [1, msgid, error, result] and nothing more |
| `Exchange.CallHeard` | `src/serial_rpc/server.h:1353-1374` | for a request as the host writes it, the outcome is that of the named method on the given arguments |
| `Exchange.CallAnswered` | `src/serial_rpc/server.h:1353-1374` | and with such handlers the host reads an answer, never an exception |
| `Exchange.OnlyRequestsAnswered` | `src/serial_rpc/server.h:1333-1397` | a response is sent exactly for a well-formed request; a malformed message is only counted |
| `Exchange.NoticeActs` | `src/serial_rpc/server.h:1375-1393` | a notification does to the device whatever a request of the same method and parameters does, short of counting a response that does not fit, and is not answered |
| `Exchange.NoticeRuns` | `src/serial_rpc/server.h:1375-1409` | a notification of a bound method runs its handler once on the host's arguments and counts a failure |
| `Exchange.NoticeUnknown` | `src/serial_rpc/server.h:1399-1410` | one of an unknown name is counted and nothing else |
| `Exchange.NoticeDetaches` | `src/serial_rpc/server.h:1466-1472` | rpc.detach as the host sends it, a notification, detaches |
| `Exchange.PingOverTheWire` | `src/serial_rpc/server.h:1423-1426` | rpc.ping returns the version and changes nothing but the time of the last frame |
| `Exchange.AttachOverTheWire` | `src/serial_rpc/server.h:1447-1465` | rpc.attach, with or without a timeout, returns version and handler count and leaves the device attached from then on |
| `Exchange.LeadingParameter` | `src/serial_rpc/server.h:1436-1455` | the optional first parameter is read exactly when it is a 32-bit unsigned number, whatever value and whatever parameters the host sends |
| `Exchange.BadArgsOverTheWire` | `src/serial_rpc/server.h:1436-1455` | anything else as first parameter is "bad args", counted, and changes nothing |
| `Exchange.DetachOverTheWire` | `src/serial_rpc/server.h:1466-1472` | rpc.detach answers nil and detaches, and fires the callback only if a host was attached |
| `Exchange.HandlerOverTheWire` | `src/serial_rpc/server.h:1399-1410` | any other bound name runs its handler once on the raw parameters, its outcome reaches the host, and failures and oversized results are counted |
| `Exchange.UnknownOverTheWire` | `src/serial_rpc/server.h:1399-1410` | an unbound name is "unknown method", and counted |
| `Exchange.ListOverTheWire` | `extras/host/include/serial_rpc.hpp:934-943` | list() through the bytes of every request and response: the whole table in order, exactly when each entry fits a page and at most 256 pages are needed |
| `Service.PollServesFrames` | `src/serial_rpc/server.h:1047-1057` | polling byte by byte is demultiplexing the stream and serving its frames in order, each at the clock reading taken when it completes |
| `Service.PollServesHost` | `src/serial_rpc/server.h:1043-1059` | for any mixture of text and frames from a host: each request answered once and in order, each line handed on, TEXT at the end |
| `Service.HostReceives` | `extras/host/include/serial_rpc.hpp:1030-1046` | a host reading the device's output receives exactly the responses, in order, unless what it had collected before is itself a valid frame |
| `RpcServer.Server.constructor` | `src/serial_rpc/server.h:1022-1029` | detached, nothing bound |
| `RpcServer.Server.Begin` | `src/serial_rpc/server.h:1033-1041` | the ready line, detached, demultiplexer reset |
| `RpcServer.Server.Poll` | `src/serial_rpc/server.h:1043-1059` | new state, bytes written and the strings handed to the text hook are those of the poll function, the clock read afresh for every frame, then the timeout check at one more reading |
| `RpcServer.Server.AddHandler` | `src/serial_rpc/server.h:1524-1540` | replaces a handler of the same name, appends while there is room, or counts an overflow |
| `RpcServer.Server.HandleFrame` | `src/serial_rpc/server.h:1327-1397` | new state and the frame written are those of the frame function |
| `RpcServer.Server.ReadMessage` | `src/serial_rpc/server.h:1341-1393` | the message in a frame, or malformed; after a failed read the others are still tried |
| `RpcServer.Server.DispatchCall` | `src/serial_rpc/server.h:1399-1410` | built-ins, then handlers, then "unknown method", with the counters |
| `RpcServer.Server.BuiltinCall` | `src/serial_rpc/server.h:1422-1474` | the four built-in methods |
| `RpcServer.Server.AttachCall` | `src/serial_rpc/server.h:1456-1464` | attaches and packs version and handler count |
| `RpcServer.Server.UserCall` | `src/serial_rpc/server.h:1515-1523` | runs the handler bound under the name, if any |
| `RpcServer.Server.SendResponse` | `src/serial_rpc/server.h:1652-1720` | writes the frame of the response, spliced from header and result over fixed buffers, or of "response too large" |
| `RpcServer.Server.SpliceResult` | `src/serial_rpc/server.h:1680-1705` | header and result, exactly when they fit the payload buffer |
| `RpcServer.Server.PackError` | `src/serial_rpc/server.h:1670-1678` | an error response, cut to the payload buffer |
| `RpcServer.Server.SendFrame` | `src/serial_rpc/server.h:1722-1729` | always writes the whole frame: the transmit buffer can never be too small |
| `RpcServer.Server.Notify` | `src/serial_rpc/server.h:1135-1154` | sends a notification exactly when attached and it fits |
| `RpcServer.Server.EmitLogLine` | `src/serial_rpc/server.h:1731-1738` | a notification while attached, plain text otherwise |
| `RpcServer.Server.CheckAttachTimeout` | `src/serial_rpc/server.h:1742-1751` | detaches on a wrapped subtraction of 32-bit clock readings |
| `Protocol.AnswersAreTheirOwn` | `extras/host/include/serial_rpc.hpp:783-811` | over every run with at most 2^32 ids, frames lost, delayed or reordered: no request is executed twice, nothing unsent is executed, and every answer a call returns is the device's response to that very request |
| `Protocol.OneIdTooMany` | `extras/host/include/serial_rpc.hpp:962` | a run with 2^32 + 1 ids in which the caller of rpc.list is handed the answer to a ping, its own request never served |
| `Protocol.OwnAnswersUpTo` | `extras/host/include/serial_rpc.hpp:783-962` | so answers are their own over all runs of at most n ids if and only if n is at most 2^32 |
| `Protocol.AnswerMeans` | `extras/host/include/serial_rpc.hpp:783-811` | and for well-behaved handlers it carries what the handler made of that call's arguments |
| `Protocol.TimedOutNeverAnswered` | `extras/host/include/serial_rpc.hpp:795-811` | over every run from the start: once a call has timed out, no result ever carries its id |
| `Protocol.TimedOutForGood` | `extras/host/include/serial_rpc.hpp:795-798` | from any state within the invariant, an id that has been given up stays given up |
| `Protocol.LateReplyIsStray` | `extras/host/include/serial_rpc.hpp:1091-1097` | its late reply only counts a stray |
| `Protocol.StepKeeps` | `extras/host/include/serial_rpc.hpp:783-1097` | every step of host, device or line keeps the invariant behind these results |
| `Calls.PumpHears` | `extras/host/include/serial_rpc.hpp:1030-1046` | pumping byte by byte is demultiplexing and hearing each frame, up to one that throws |
| `Calls.HearTallies` | `extras/host/include/serial_rpc.hpp:1048-1127` | every frame heard is counted under its kind and no other: malformed, log, notification or stray; only a reply under the waiting id answers |
| `Calls.AwaitFinds` | `extras/host/include/serial_rpc.hpp:783-811` | however the bytes are spread over reads, and whatever strays, notices and noise come before or after it, the one reply under the waiting id ends the call |
| `Calls.AwaitThrows` | `extras/host/include/serial_rpc.hpp:783-811` | a frame that does not decode, before any reply under the waiting id, ends the call with an exception |
| `Calls.AwaitTimesOut` | `extras/host/include/serial_rpc.hpp:783-798` | when no frame throws or answers under the waiting id, the call times out, whatever else arrives |
| `Calls.CallCompletes` | `extras/host/include/serial_rpc.hpp:783-811` | host frame, device poll, device output read in pieces of any size, behind and before bytes whose frames neither answer the id nor throw: the call ends with what the dispatch made of the arguments, or throws exactly when the handler's bytes do not decode. Either end may be anywhere in the stream, provided what it has collected is not itself a valid frame |
| `Calls.UndisturbedUnderWay` | `extras/host/include/serial_rpc.hpp:783-811` | between fresh ends with nothing else on the line every call whose request fits meets these conditions |
| `Calls.PingCompletes` | `extras/host/include/serial_rpc.hpp:945-946` | a ping so made returns the protocol version, whatever else is on the line |
| `Calls.ListCompletes` | `extras/host/include/serial_rpc.hpp:934-943` | list() through every frame and both demultiplexers, amid the same noise: the whole table in order, exactly when each entry fits a page and at most 256 pages are needed |
| `Calls.DamageUneventful` | `src/serial_rpc/framing.h:455-489` | a damaged frame in front of the output is such bytes, so the call after it completes |
| `Calls.UneventfulConcat` | `src/serial_rpc/framing.h:389-393` | and so is one such stretch after another |
| `Calls.OtherResponseQuiet` | `extras/host/include/serial_rpc.hpp:1091-1097` | the device's response to any other request is such a frame |
| `Calls.NoticeQuiet` | `extras/host/include/serial_rpc.hpp:1098-1123` | so is every notification the host can decode |
| `Calls.TrafficUneventful` | `extras/host/include/serial_rpc.hpp:1030-1123` | and any mixture of such frames with text leaves the host between frames, still waiting |
| `RpcClient.Rpc.constructor` | `extras/host/include/serial_rpc.hpp:736-740` | idle, first id 1 |
| `RpcClient.Rpc.CallValues` | `extras/host/include/serial_rpc.hpp:783-811` | spends an id, writes the request frame and waits; an oversized request throws and writes nothing, a failed or short write and a failed read end the call with an I/O error; a call is counted once its request is written, a timeout only at the deadline |
| `RpcClient.Rpc.AwaitResponse` | `extras/host/include/serial_rpc.hpp:791-810` | ends as the waiting function says, or with an I/O error where the deadline would have come, with the pending id cleared |
| `RpcClient.Rpc.NextMsgid` | `extras/host/include/serial_rpc.hpp:962` | ids count up modulo 2^32 |
| `RpcClient.Rpc.SendRequest` | `extras/host/include/serial_rpc.hpp:976-986` | writes the frame of the request when the payload fits, as far as the port takes it |
| `RpcClient.Rpc.NotifyValues` | `extras/host/include/serial_rpc.hpp:819-830` | the same for a notification |
| `RpcClient.Rpc.WriteFrame` | `extras/host/include/serial_rpc.hpp:988-993` | the port gets the whole frame, the frame buffer never being too small; success exactly when it takes every byte |
| `RpcClient.SentArrives` | `extras/host/include/serial_rpc.hpp:988-993` | a device that has not collected a valid frame of its own receives the payload exactly when the send succeeds, otherwise nothing; a payload that fits is sent whenever the port takes the largest frame of its length |
| `RpcClient.HostTakesDevices` | `extras/host/include/serial_rpc.hpp:952-960` | the host's fixed buffer takes every frame of a device whose buffer is at most 4077 bytes, and of no other |
| `Session.CallThrough` | `extras/host/include/serial_rpc.hpp:783-811` | the two classes on one line: the server polls exactly the bytes the client wrote, and when the client's reads bring what the server then wrote, amid noise, the call ends with what the server's dispatch made of the arguments |
| `RpcClient.Rpc.PumpChunk` | `extras/host/include/serial_rpc.hpp:1026-1046` | one read's bytes through the demultiplexer, abandoned at an exception |
| `RpcClient.Rpc.HandleFrame` | `extras/host/include/serial_rpc.hpp:1048-1127` | a reply is accepted exactly when its id is the pending one; everything else is only counted |
| `RpcClient.Rpc.ReadIncoming` | `extras/host/include/serial_rpc.hpp:1048-1127` | what a frame says to the host |
| `LineReader.SerialPort.constructor` | `extras/host/include/serialport.hpp:666-676` | an empty buffer of at least 64 bytes |
| `LineReader.SerialPort.ReadNative` | `extras/host/include/serialport.hpp:1732-1733` | stands for the operating system: any non-empty amount that fits, in order, or nothing, or a failure |
| `LineReader.SerialPort.FillBuffer` | `extras/host/include/serialport.hpp:1718-1738` | across reset and compaction nothing is lost or repeated; no_buffer_space exactly for a buffer full of unread bytes, which no reader ever has; a failed read is reported with nothing consumed |
| `LineReader.SerialPort.MakeRoom` | `extras/host/include/serialport.hpp:1719-1727` | reset or compaction keeps the unread bytes and leaves room unless all of the buffer is unread |
| `LineReader.SerialPort.Compact` | `extras/host/include/serialport.hpp:1722-1727` | the unread bytes move to the front unchanged |
| `LineReader.SerialPort.TakeBuffered` | `extras/host/include/serialport.hpp:1740-1752` | hands out the next buffered bytes |
| `LineReader.SerialPort.Read` | `extras/host/include/serialport.hpp:1459-1489` | the next n bytes, fewer only when the time is up or a read fails; the failure alone is reported when nothing came; a closed port refuses and consumes nothing |
| `LineReader.SerialPort.ReadSome` | `extras/host/include/serialport.hpp:1499-1523` | a non-empty prefix of what is unread, unless nothing arrived or the read failed; a closed port refuses |
| `LineReader.SerialPort.ReadLine` | `extras/host/include/serialport.hpp:1525-1566` | the outcome depends on the unread bytes alone, never on how reads cut them: the first complete line, message_size exactly when it was cut, or an unfinished one with everything consumed and the reason; a closed port refuses |
| `LineReader.SerialPort.ScanBuffer` | `extras/host/include/serialport.hpp:1534-1555` | the inner loop over buffered bytes |
| `LineReader.SerialPort.ReadLines` | `extras/host/include/serialport.hpp:1525-1566` | repeated reading yields exactly the lines of the device's byte machine with LineMax one larger, then the unfinished line and the CR flag that machine would hold |
| `LineReader.SerialPort.ReadLinesTwice` | `extras/host/include/serialport.hpp:1525-1566` | when more bytes arrive after a deadline the lines are those of the whole stream, provided the deadline did not fall inside a line; if it did, the two halves come apart |
| `Json.BinToHex` | `extras/host/tools/rpc_repl/json_value.hpp:67-76` | the loop writes two lower-case digits a byte |
| `Json.HexToBin` | `extras/host/tools/rpc_repl/json_value.hpp:82-99` | the loop reads them back, or refuses |
| `Json.FromHexIff` | `extras/host/tools/rpc_repl/json_value.hpp:78-99` | hex is accepted exactly when its length is even and every character is a hex digit |
| `Json.NibbleTable` | `extras/host/tools/rpc_repl/json_value.hpp:86-92` | the digits of either case and their values, and no other characters |
| `Json.HexRoundTrip` | `extras/host/tools/rpc_repl/json_value.hpp:67-99` | hex of any blob reads back as the blob |
| `Json.ValueToJson` | `extras/host/tools/rpc_repl/json_value.hpp:106-134` | the recursive conversion, members overwritten on a repeated key |
| `Json.JsonToValue` | `extras/host/tools/rpc_repl/json_value.hpp:139-180` | the recursive conversion back |
| `Json.JsonRoundTrip` | `extras/host/tools/rpc_repl/json_value.hpp:103-180` | a value survives JSON exactly when at every level its map keys are distinct strings and no map is a lone "$bin" holding an even-length hex string |
| `Json.ValueRoundTrip` | `extras/host/tools/rpc_repl/json_value.hpp:103-180` | JSON survives the way through a value exactly when its blobs are spelled in lower case |
| `Json.LastEntryWins` | `extras/host/tools/rpc_repl/json_value.hpp:123-131` | the last entry of a key is the member under that key |
| `Json.MembersAreLast` | `extras/host/tools/rpc_repl/json_value.hpp:123-131` | and there are no other members |
| `Json.KeysKeepPlace` | `extras/host/tools/rpc_repl/json_value.hpp:123-131` | a key keeps the place of its first entry |

## Left out

- Floats.Widen: a NaN keeps its payload; that a platform makes a signalling NaN quiet on the way is not modelled.
- MsgPackCodec.Reader.ReadFloating: yields bit patterns and, for integer formats, the integer; converting an integer to a floating-point number is left to the platform.
- Framing.CobsEncode: input and output are different arrays; encoding in place is not something the source promises.
- RpcList.PackRpcListResult: strings are shorter than 2^32 bytes, handlers fewer than 2^32, and signatures are given strings.
- RpcServer.Server.HandleFrame: the buffer holds at least the eight bytes of a response header, since a smaller one need not hold the header that is copied into it; names, signatures and error messages are shorter than 2^32 bytes, and `rpc.attach` sees the clock reading of its frame.
- RpcServer.Server.AddHandler: models the fixed table; the variant on the standard containers differs only in having no limit.
- RpcServer.Server.Poll: callbacks do not call back into the server.
- RpcServer.Server.SendFrame: the branch for a frame that does not fit is proved unreachable rather than modelled.
- RpcClient.Rpc.CallValues: time is the list of reads that come back before the deadline; the port's answers are given in advance.
- LineReader.SerialPort.constructor: validation of the configuration and failures to open are not modelled, and lengths are not clamped to `int`.
- Argument decoding and result packing for typed handlers (`ArgDecoder`, `ValuePacker`, signature tokens) and the type erasure around them.
- The line buffer of the `Log` class, which feeds `emit_log_line_`.
- `connect()`, its retries, the DTR pulse and the wait for a "ready" line; `try_request_` is `call_values` with another deadline.
- `Value::as`, `to_string` and number formatting; the text a non-string map key is rendered to is a parameter of the JSON conversion.
- The command-line tokenizer and the JSON text parser.
- The narrow `size_t` and four-byte `double` branches for AVR.
- termios, Win32, modem lines, port listing, and the rest of the platform layer.
