# WebSocket client: a verified model of its byte path

A model in Dafny of the synchronous client of websocketclient-cpp: the path of every byte from the transport to a
message and from a message to the transport, the life of a connection, and the opening handshake with the algorithms
it needs. `dafny verify dfyconfig.toml` checks it.

## How it is built

The layers are those of the source, and each has the source's own state.

- `Socket` is the transport as an adversary: it splits the server's stream into any non-empty pieces, takes the
  client's bytes in any non-empty pieces, and may fail at any call. A ghost record of the splits and failures is
  all the other layers can refer to.
- `CircularBuffer` and `Buffer` are the power-of-two ring (head, tail, full flag, wrap-around by masking) and the
  growing buffer. `BufferedSocket` reads and writes through them; its `Pending()`, the ring contents followed by
  what the transport still holds, is the part of the server's stream nobody has been given yet. `Delimiters` is the
  search for a delimiter in a stream that arrives in pieces, and which pieces the ring admits.
- `Receiver` says, as pure functions of a byte stream, what a client must make of it. The class `WebSocketClient`,
  with its read state, its two buffers, the write buffer it shares between header and close code, and the closed
  flag, is proved to compute exactly that, whatever the reads were. `Session` carries this to repeated calls:
  chunking does not matter, and the messages a server sends arrive.
- `Rfc6455` is a grammar of frames, fragments and messages. What is valid in it knows nothing of a client; only
  `Fits`, which singles out what one client can take, refers to that client's buffer sizes, to its zlib and to its
  text check. `Conformance` proves both directions between it and `Receiver`: all that is valid and fits is received
  as its meaning, and whatever is received was valid.
- `Wire` says what `Receiver` and `Rfc6455` mean in numbers: which bytes are received as which frame or message, and
  which fail the connection with which status code.
- `Sending` is the other end of the wire: a decoder of masked frames, to which `WriteFrame` and what builds on it
  are tied. `MaskKey` has the byte rule and the in-place masking by aligned chunks.
- `Lifecycle` keeps a log of events, each with exactly the bytes it put on the wire; that the log is possible and
  accounts for every byte sent, under arbitrary failures, is an invariant of the client. `Connection` runs any
  sequence of calls, and proves what a server gets to see of it.
- `Handshake` builds the request and judges the response, through `HttpHeader`, `HttpParser` and
  `PermessageDeflate`; a printed response is proved to be read and judged by what its fields say. `Opening` says of
  both, in the words of section 4 of RFC 6455, what a server reads and which fields are accepted.
- `Fips180` and `Sha1`, `Base64`, `Utf8`, `Random` and `Url` set the source's algorithms against definitions of
  their own: the 80-word SHA-1, the decoder of RFC 4648, encodings of scalar values, the inverse step of the
  generator, and a grammar of URLs. `Fips180Example` and the lemmas `Known...` tie these definitions to
  known values, most of them the standards' own.

The clock, zlib (its setup and both directions) and the mask keys are parameters or arbitrary values. A message kind
is the opcode of its first frame.

## What the proofs found

Where a law does not hold of the code on all inputs, the exact condition is proved, with an input that breaks it.

- `read_until` gives back everything from the delimiter on to a ring of 4096 bytes, which can be more than it holds;
  the failed assertion of the ring is the outcome `PushBackOverflow`. On the stream as it is before the call: some
  splits overflow if and only if the first delimiter straddles the end of the ring's array and more than a ring of
  bytes follows from it on (`OverflowIff`); `PushBackOverflows` is such a stream with its two reads.
- Masking in chunks starts the key over at the first aligned byte. It agrees with RFC 6455 for every payload of a
  length if and only if no full chunk fits or the key repeats with the misalignment (`MaskedIsBytewiseIff`); a server
  recovers the payload under the same condition (`ServerRecoversIff`). The close code and compressed payloads always
  meet it.
- The validator of text counts in an `int`. Its check of a message is exact, whatever the content, if and only if the
  size is below 2^31 - 2 bytes (`ExactIff`). At that size and the next one a text that ends with the first byte of a
  longer character makes an index sum overflow, which is undefined behaviour (`LateLeadOverflows`; `OverflowsIff` says
  which texts do); from 2^31 on the length itself is truncated, and some invalid text passes (`TruncatedCheck`). The
  model gives undefined behaviour an outcome of its own, `UNDEFINED`, and says nothing of what the program does then.
- A continuation frame between messages is refused at its own frame if and only if it is final or its RSV bits or
  size would be refused on any first frame (`FirstContinuationIff`); the bytes 0 0 pass (`ContinuationPasses`). No
  message is received from what follows, though (`NothingFromAContinuation`).
- Pushing or moving the head by nothing on an empty ring marks it full, and moving the tail by nothing on a full one
  empties it. No caller in the byte path does so.
- `set_payload_size` ORs the long length codes in, so it is right on a fresh header (`SetPayloadSize` says exactly
  when).
- A URL whose host was in brackets without a colon prints without them (`RoundTrip`, `BracketsLost`).
- Two comments in `PermessageDeflate.hpp` disagree with the code, which the model follows: a requested
  `server_no_context_takeover` is kept if and only if the response repeats it (lines 190-202; `ServerResetIff`,
  `ServerResetDropped`), and a `client_max_window_bits` that was not offered is refused if and only if its value is
  no window size (lines 392-399 and 465-471; `UnofferedWindowIff`, `UnofferedWindow`).
- Section 4.1 of RFC 6455 has the client fail when a response names an extension or a subprotocol that was not asked
  for. The code looks at no subprotocol, and of the extensions only at whether the first such field takes up its offer
  (`UnaskedIsIgnored`). Such a response is refused if and only if another field that is checked is not as it must be,
  or it takes up an offer with a bad window size (`RefusedIff`); `UnaskedIsAccepted` is one that is accepted.
- The same section wants the value of `Upgrade` to be the token `websocket`; the code is content with a list that
  contains it (`Proper` has the condition, and the response of `UnaskedIsAccepted` is one).
- An accepted response can still fail the handshake: zlib may refuse the parameters negotiated (`Handshake`).

## Model

| member | source | states |
|---|---|---|
| `Bits.MaskIsMod` | include/ws_client/utils/CircularBuffer.hpp:318-342 | for every capacity that passes the constructor's power-of-two test, masking an index with `capacity - 1` is reduction modulo the capacity |
| `Bits.Wrap` | include/ws_client/utils/CircularBuffer.hpp:60-75 | the masked index wraps around exactly at the capacity |
| `Bits.Wrapped` | include/ws_client/utils/CircularBuffer.hpp:276-284 | an index moved by at most the capacity and masked wraps around at most once |
| `CircularBuffer.RingPush` | include/ws_client/utils/CircularBuffer.hpp:78-103 | on the backing array: copying in at most two pieces and moving the head appends the items to the FIFO contents |
| `CircularBuffer.RingPop` | include/ws_client/utils/CircularBuffer.hpp:141-168 | on the backing array: the two pieces copied out are the oldest items, and moving the tail removes exactly those |
| `CircularBuffer.RingAdvance` | include/ws_client/utils/CircularBuffer.hpp:276-286 | moving the head over free slots, also past the end of the array, appends what they hold |
| `CircularBuffer.CircularBuffer.constructor` | include/ws_client/utils/CircularBuffer.hpp:44-55 | an empty ring of a power-of-two capacity |
| `CircularBuffer.CircularBuffer.Size` | include/ws_client/utils/CircularBuffer.hpp:207-216 | the size computed from head, tail and the full flag is the length of the contents; 0 exactly when empty, the capacity exactly when full |
| `CircularBuffer.CircularBuffer.PushOne` | include/ws_client/utils/CircularBuffer.hpp:60-73 | one item is appended |
| `CircularBuffer.CircularBuffer.Push` | include/ws_client/utils/CircularBuffer.hpp:78-103 | all items are appended, in order; the one exception, stated outright, is pushing nothing onto an empty ring, which marks it full |
| `CircularBuffer.CircularBuffer.PopOne` | include/ws_client/utils/CircularBuffer.hpp:118-131 | the oldest item is returned and removed; false exactly when there is none |
| `CircularBuffer.CircularBuffer.Pop` | include/ws_client/utils/CircularBuffer.hpp:141-168 | the oldest items are copied out in order and removed, nothing else of the destination changes; on an empty ring nothing happens, whatever the length |
| `CircularBuffer.CircularBuffer.Clear` | include/ws_client/utils/CircularBuffer.hpp:197-202 | the contents are empty |
| `CircularBuffer.CircularBuffer.AvailableSpan` | include/ws_client/utils/CircularBuffer.hpp:234-245 | the writable span starts at the head, holds all that is free or reaches the end of the array, and is empty exactly when the ring is full |
| `CircularBuffer.CircularBuffer.UsedSpan` | include/ws_client/utils/CircularBuffer.hpp:255-269 | the readable span is a prefix of the contents, all of them or up to the end of the array, and empty exactly when they are |
| `CircularBuffer.CircularBuffer.MoveHead` | include/ws_client/utils/CircularBuffer.hpp:276-284 | up to all free slots, also past the end of the array: appends what they hold; moving by 0 on an empty ring marks it full instead |
| `CircularBuffer.CircularBuffer.MoveTail` | include/ws_client/utils/CircularBuffer.hpp:289-297 | drops the oldest items; moving by 0 on a full ring empties it instead |
| `CircularBuffer.CircularBuffer.At` | include/ws_client/utils/CircularBuffer.hpp:318-331 | indexing counts from the oldest item |
| `Buffer.Buffer.Reserve` | include/ws_client/Buffer.hpp:179-184 | keeps the contents; succeeds exactly up to the maximum size |
| `Buffer.Buffer.Resize` | include/ws_client/Buffer.hpp:191-197 | truncates or extends, keeping the common prefix; succeeds exactly up to the maximum size |
| `Buffer.Buffer.DiscardEnd` | include/ws_client/Buffer.hpp:204-209 | drops the last bytes |
| `Buffer.Buffer.Append` | include/ws_client/Buffer.hpp:233-241 | extends by the given size behind the old contents, or fails without change exactly when that exceeds the maximum |
| `Buffer.Buffer.AppendCopy` | include/ws_client/Buffer.hpp:216-225 | appends a copy of the data, or fails without change exactly when that exceeds the maximum |
| `Buffer.Buffer.InternalReserve` | include/ws_client/Buffer.hpp:254-286 | reallocation keeps what fits |
| `Socket.Socket.ReadSome` | include/ws_client/transport/builtin/TcpSocket.hpp:388-433 | the transport as an adversary: any non-empty piece of the stream that fits the span, or an error; never 0 bytes |
| `Socket.Socket.WriteSome` | include/ws_client/transport/builtin/TcpSocket.hpp:441-486 | any non-empty front part of the data is sent, or an error |
| `BufferedSocket.BufferedSocket.FillReadBuffer` | include/ws_client/BufferedSocket.hpp:182-206 | ring contents plus unread stream never changes; afterwards at least one byte is ready; the span given to the transport is never empty |
| `BufferedSocket.BufferedSocket.ReadIntoRing` | include/ws_client/BufferedSocket.hpp:193-200 | one read, whatever its size, appends to the ring exactly what it takes off the stream |
| `BufferedSocket.BufferedSocket.ReadExact` | include/ws_client/BufferedSocket.hpp:79-98 | delivers exactly the next n bytes of the stream in order, takes exactly those off, terminates, and leaves the ring not full |
| `BufferedSocket.BufferedSocket.ReadAndSearch` | include/ws_client/BufferedSocket.hpp:109-128 | one round of the loop: the search that resumes inside what was searched before finds the first occurrence in all that has been read, or there is none |
| `Delimiters.SearchResumes` | include/ws_client/BufferedSocket.hpp:123-128 | an occurrence that appears only with more bytes starts at most `|delim| - 1` bytes before the old end |
| `Delimiters.ResumedSearch` | include/ws_client/BufferedSocket.hpp:123-128 | the incremental search from `search_offset - (|delim| - 1)` agrees with a search from scratch |
| `Delimiters.FirstInPrefix` | include/ws_client/BufferedSocket.hpp:104-146 | the first occurrence in the bytes taken so far is the first in the whole stream |
| `BufferedSocket.BufferedSocket.FindDelimiter` | include/ws_client/BufferedSocket.hpp:109-128 | reads until the delimiter is in the buffer, which may hold bytes already, and returns its first occurrence, also when it straddles reads |
| `BufferedSocket.BufferedSocket.ReadUntil` | include/ws_client/BufferedSocket.hpp:104-146 | on success the buffer ends where the first delimiter of buffer and stream begins and nothing is lost or reordered; the push-back overflows exactly when more than a ring of bytes has been read from the delimiter on; with nothing buffered before, it never does if the stream, as it is before the call, has a first delimiter that does not straddle the end of the ring's array, or no more than a ring of bytes from it on, or if every read was short |
| `BufferedSocket.BufferedSocket.GiveBack` | include/ws_client/BufferedSocket.hpp:128-138 | bytes given back to the ring are read next, in order; possible exactly when they fit |
| `Delimiters.SmallReadsFit` | include/ws_client/BufferedSocket.hpp:109-138 | a last read of at most `capacity - |delim| + 1` bytes never overflows the push-back |
| `Delimiters.OverflowIff` | include/ws_client/BufferedSocket.hpp:104-146 | on the stream alone, before anything is read: among the splits the ring admits there is one that overflows the push-back if and only if the first delimiter straddles the end of the array and more than a ring of bytes follows from it on |
| `Delimiters.NoSplitOverflows` | include/ws_client/BufferedSocket.hpp:104-146 | one direction of it: otherwise every split the ring admits fits |
| `Delimiters.FullReads` | include/ws_client/BufferedSocket.hpp:182-206 | the other: reading as much as the ring admits is a split that reaches the end of the array or of the stream |
| `Delimiters.PushBackOverflows` | include/ws_client/BufferedSocket.hpp:109-138 | a split of two full reads that a fresh ring of 4096 bytes admits, with CR LF CR LF straddling them: three bytes more than the ring holds must be given back |
| `BufferedSocket.BufferedSocket.Write` | include/ws_client/BufferedSocket.hpp:164-179 | all bytes are written whatever the partial writes; after a failure a proper prefix has been |
| `Networking.Loaded16` | include/ws_client/utils/networking.hpp:30-42 | loading two bytes and converting gives the big-endian number, on hosts of either byte order |
| `Networking.Loaded64` | include/ws_client/utils/networking.hpp:106-121 | the same for eight bytes |
| `Networking.Stored16` | include/ws_client/utils/networking.hpp:67-79 | converting and storing a number puts its big-endian form into memory |
| `Networking.Stored64` | include/ws_client/utils/networking.hpp:85-101 | the same for 64 bits |
| `Networking.StoredValue16` | include/ws_client/utils/networking.hpp:67-79 | the memory image of a converted 16-bit value is its bytes, most significant first |
| `Frame.HeaderByteFields` | include/ws_client/Frame.hpp:143-187 | the accessors read back opcode, FIN and each RSV bit |
| `Frame.HeaderByteOfFields` | include/ws_client/Frame.hpp:143-187 | every first header byte is made of those fields |
| `Frame.Frame.SetOpcode` | include/ws_client/Frame.hpp:212-216 | sets the low four bits and nothing else |
| `Frame.Frame.SetIsFinal` | include/ws_client/Frame.hpp:218-222 | sets FIN and nothing else |
| `Frame.Frame.SetIsMasked` | include/ws_client/Frame.hpp:224-228 | sets the mask bit and nothing else |
| `Frame.Frame.SetIsCompressed` | include/ws_client/Frame.hpp:230-234 | sets RSV1 and nothing else |
| `Frame.Frame.SetPayloadSize` | include/ws_client/Frame.hpp:236-256 | the length code is the shortest form exactly when the code ORed in covers the old field; always on a fresh header |
| `Utf8.AcceptsIffValid` | include/ws_client/utils/utf8.hpp:29-74 | the validator's table accepts exactly the concatenations of encodings of Unicode scalar values (section 4 of RFC 3629) |
| `Utf8.AcceptedIsEncoded` | include/ws_client/utils/utf8.hpp:36-70 | each accepted step is the encoding of one scalar value: no overlong form, no surrogate, nothing above U+10FFFF |
| `Utf8.EncodedIsAccepted` | include/ws_client/utils/utf8.hpp:36-70 | every encoding of a scalar value is accepted as one step |
| `Utf8.KnownTexts` | include/ws_client/utils/utf8.hpp:29-74 | the euro sign and U+10FFFF are valid; an overlong form, a surrogate, what lies beyond and cut texts are not |
| `Utf8.IsValidUtf8` | include/ws_client/utils/utf8.hpp:29-74 | the loop returns true exactly for valid UTF-8, or comes to an index sum that does not fit an `int` |
| `Utf8.OverflowsIff` | include/ws_client/utils/utf8.hpp:32-60 | it comes to such a sum if and only if a character begins, behind a valid front, so late that the look-ahead for it passes 2^31 - 1 |
| `Utf8.LateLeadOverflows` | include/ws_client/utils/utf8.hpp:57-60 | at 2^31 - 2 and 2^31 - 1 bytes: ASCII up to a last byte that begins a character of four |
| `Utf8.ExactIff` | include/ws_client/WebSocketClient.hpp:433-446 | the check of a text message is exact for every content of its size if and only if the size is below 2^31 - 2: at that size and the next one an index sum of the validator may overflow, and from 2^31 on its length is truncated to an `int` |
| `Utf8.TruncatedCheck` | include/ws_client/WebSocketClient.hpp:433-446 | for every size from 2^31 on, an invalid text that passes |
| `Conformance.DecodeFrameBytes` | include/ws_client/WebSocketClient.hpp:701-773 | decoding a frame header inverts encoding it, in every length form, and consumes exactly the header |
| `WebSocketClient.WebSocketClient.ReadBytes` | include/ws_client/BufferedSocket.hpp:79-98 | exactly the next n bytes, by reads into a local buffer |
| `WebSocketClient.WebSocketClient.ReadFrame` | include/ws_client/WebSocketClient.hpp:701-773 | returns the header, size and error that the stream alone determines, and takes exactly the header off |
| `WebSocketClient.WebSocketClient.ReadSize` | include/ws_client/WebSocketClient.hpp:720-744 | the 7-bit, 16-bit and 64-bit length forms, big-endian, on hosts of either byte order |
| `WebSocketClient.WebSocketClient.HandleControlFrame` | include/ws_client/WebSocketClient.hpp:890-1021 | the ping, pong, close frame or error that the stream determines, byte for byte as `Wire.PingIsRead`, `PongIsRead`, `CloseIsRead` and `ControlIsRefused` say; exactly the payload is consumed |
| `WebSocketClient.WebSocketClient.CheckCloseFrame` | include/ws_client/WebSocketClient.hpp:937-980 | a close frame is returned exactly with no payload, or a valid code and a UTF-8 reason; the error codes otherwise |
| `WebSocketClient.WebSocketClient.UpdateReadState` | include/ws_client/WebSocketClient.hpp:321-391 | the read state after a data frame: first frame and RSV rules, continuation rules, opcode rule |
| `WebSocketClient.WebSocketClient.AcceptDataFrame` | include/ws_client/WebSocketClient.hpp:299-391 | the size check and the read state, with the buffer cleared at a first frame |
| `WebSocketClient.WebSocketClient.ReadPayload` | include/ws_client/WebSocketClient.hpp:392-414 | exactly the payload is appended to the message or the decompression buffer |
| `WebSocketClient.WebSocketClient.ReadOneFrame` | include/ws_client/WebSocketClient.hpp:269-418 | one frame is one step of the pure parser, on the whole state |
| `WebSocketClient.WebSocketClient.ReadFrames` | include/ws_client/WebSocketClient.hpp:269-418 | the loop over frames follows the pure parser, control frames in between leave the message alone |
| `WebSocketClient.WebSocketClient.FinishMessage` | include/ws_client/WebSocketClient.hpp:424-506 | decompression, the UTF-8 check and the result of a complete message; the read state is reset |
| `WebSocketClient.WebSocketClient.EndMessage` | include/ws_client/WebSocketClient.hpp:420-506 | the same unless the time has run out before |
| `WebSocketClient.WebSocketClient.ReadMessage` | include/ws_client/WebSocketClient.hpp:260-519 | whatever the reads were, the result is the one the stream determines from the surviving state, which `Wire` says in numbers, and ring plus unread stream is exactly the unparsed suffix; only a transport failure or the clock can change that |
| `Session.ReadMessages` | examples/builtin/ex_binance_builtin.cpp:120-170 | repeated calls return a prefix of the one sequence of results the stream determines, all of it up to a failure unless cut short |
| `Session.ReadOne` | include/ws_client/WebSocketClient.hpp:260-519 | one call is one step through that sequence |
| `Session.SameOutcome` | include/ws_client/BufferedSocket.hpp:182-206 | chunking independence: two runs over one stream from one state return the same results |
| `Session.MessagesArrive` | include/ws_client/WebSocketClient.hpp:260-519 | end to end: a client that reads as often as there is something to receive gets exactly the meanings of the messages a server sent, in order, whatever follows them and however the transport splits the stream |
| `Conformance.TransmissionsAreRead` | include/ws_client/WebSocketClient.hpp:269-506 | completeness: every sequence of messages of sections 5.4 and 5.5 of RFC 6455 that fits the buffers is received as its meaning: opcode of the first frame, payloads joined, interleaved control frames in order; a compressed message fits if zlib, given the room left in the buffer, delivers its content |
| `Conformance.MessagesAreTransmissions` | include/ws_client/WebSocketClient.hpp:269-506 | soundness: whatever stream produced the results, the part of it that produced messages is such a sequence, and the messages are its meanings |
| `Conformance.FragmentsAreRead` | include/ws_client/Message.hpp:35-47 | later fragments extend the message in progress; control frames between them come back first and do not disturb it |
| `Conformance.ControlIsRead` | include/ws_client/WebSocketClient.hpp:890-1021 | a valid control frame is returned as itself and leaves the message in progress alone |
| `Conformance.ReturnedIsControl` | include/ws_client/WebSocketClient.hpp:890-981 | every control frame returned was a valid one on the wire: final, no RSV bits, at most 125 bytes, close payload empty or code and UTF-8 reason |
| `Conformance.CloseIsChecked` | include/ws_client/WebSocketClient.hpp:937-980 | the check of a close frame accepts exactly what section 5.5.1 of RFC 6455 allows: nothing, or a status code that may be sent and a UTF-8 reason |
| `Conformance.HeaderIsFrame` | include/ws_client/WebSocketClient.hpp:701-773 | every header decoded was the encoding of a frame |
| `Conformance.FirstContinuationIff` | include/ws_client/WebSocketClient.hpp:321-391 | a continuation frame between messages fails at its own frame if and only if it is final or its RSV bits or size would be refused on any first frame; section 5.4 of RFC 6455 wants it to fail always |
| `Conformance.ContinuationPasses` | include/ws_client/WebSocketClient.hpp:321-391 | such a frame that passes: the bytes 0 0, whatever follows |
| `Conformance.NothingFromAContinuation` | include/ws_client/WebSocketClient.hpp:457-506 | from a stream that begins with a continuation no message is ever received, whatever follows |
| `Wire.PingIsRead` | include/ws_client/WebSocketClient.hpp:984-999 | 0x89, a length field and a payload of at most 125 bytes are received, at any point of a message, as a ping with that payload, followed by what the rest gives |
| `Wire.PongIsRead` | include/ws_client/WebSocketClient.hpp:1001-1016 | 0x8A the same as a pong |
| `Wire.CloseIsRead` | include/ws_client/WebSocketClient.hpp:912-981 | 0x88 the same as a close frame, if it is empty or has a status code of 1000 to 1003, 1007 to 1011 or 3000 to 4999 in its first two bytes, then UTF-8 |
| `Wire.TextIsRead` | include/ws_client/WebSocketClient.hpp:269-506 | between messages, 0x81 and UTF-8 that fits the buffer, of less than 2^31 - 2 bytes, are received as a text message |
| `Wire.BinaryIsRead` | include/ws_client/WebSocketClient.hpp:269-506 | 0x82 and anything that fits as a binary one |
| `Wire.FragmentsAreRead` | include/ws_client/WebSocketClient.hpp:269-506 | 0x01, a ping, 0x80: the ping is received first, then the text joined from both fragments |
| `Wire.CompressedIsRead` | include/ws_client/WebSocketClient.hpp:300-506 | with compression in use, 0xC1 and 0xC2 are received as a text or binary message of what zlib makes of the payload and those before it |
| `Wire.HeaderIsRead` | include/ws_client/WebSocketClient.hpp:701-773 | a first byte and a length field in one, three or nine bytes, most significant first, make up the header of a frame of that size; a close frame that is not final is refused with 1002 |
| `Wire.MaskedIsRefused` | include/ws_client/WebSocketClient.hpp:701-773 | a masked frame fails the connection with 1002, and nothing more is received |
| `Wire.ControlIsRefused` | include/ws_client/WebSocketClient.hpp:890-1020 | so does a control frame whose first byte is none of 0x88, 0x89, 0x8A, or that has more than 125 bytes |
| `Wire.ReservedIsRefused` | include/ws_client/WebSocketClient.hpp:275-283 | so do the opcodes 3 to 7 |
| `Wire.CloseIsRefused` | include/ws_client/WebSocketClient.hpp:937-980 | a close frame with one byte or another code fails with 1002, one with a good code and a reason that is not UTF-8 with 1007 |
| `Wire.TooBigIsRefused` | include/ws_client/WebSocketClient.hpp:305-317 | a data frame that does not fit the message buffer fails with 1009 |
| `Wire.DataIsRefused` | include/ws_client/WebSocketClient.hpp:321-391 | RSV bits that mean nothing, and within a message a new one or RSV bits, fail with 1002 |
| `Wire.BadTextIsRefused` | include/ws_client/WebSocketClient.hpp:433-446 | a text message that is not UTF-8 fails with 1007 |
| `MaskKey.Chunk64IsBytewise` | include/ws_client/MaskKey.hpp:93-106 | the 8-byte kernel equals the byte rule on hosts of either byte order |
| `MaskKey.Chunk128IsBytewise` | include/ws_client/MaskKey.hpp:110-141 | the 16-byte kernel equals the byte rule |
| `MaskKey.MaskAligned` | include/ws_client/MaskKey.hpp:63-87 | lead bytes, chunks and tail, in place: each byte is combined with the key byte the chunk alignment selects, nothing else changes |
| `MaskKey.MaskTwice` | include/ws_client/MaskKey.hpp:63-87 | masking twice is the identity, for every address, length and key |
| `MaskKey.MaskedIsBytewiseIff` | include/ws_client/MaskKey.hpp:63-87 | chunked masking is the rule of section 5.3 of RFC 6455 for every payload of a length if and only if no full chunk fits or the key repeats with the misalignment of the address; always when the address is a multiple of 4 |
| `MaskKey.AlignedIsBytewise` | include/ws_client/MaskKey.hpp:63-87 | at an address that is a multiple of 4 it is that rule |
| `MaskKey.MaskedIsNotBytewise` | include/ws_client/MaskKey.hpp:63-87 | otherwise a payload that is masked wrongly |
| `WebSocketClient.WebSocketClient.MakeFrame` | include/ws_client/WebSocketClient.hpp:553-572 | a final, masked frame with the shortest length code and RSV1 exactly if compressed |
| `WebSocketClient.WebSocketClient.WriteHeader` | include/ws_client/WebSocketClient.hpp:797-815 | header and shortest extended length at the front of the write buffer; nothing from byte 14 on changes |
| `WebSocketClient.WebSocketClient.MaskPayload` | include/ws_client/WebSocketClient.hpp:824-829 | the key goes behind the header and the payload is masked in place, also when it lies in the write buffer |
| `WebSocketClient.WebSocketClient.WriteFrame` | include/ws_client/WebSocketClient.hpp:775-842 | whatever the partial writes, exactly header and masked payload are sent, also when the payload lies in the write buffer; after a failure a proper front part of just these bytes; an unmasked frame is refused with nothing sent |
| `WebSocketClient.WebSocketClient.SendFrame` | include/ws_client/WebSocketClient.hpp:553-578 | one frame is built and sent, all of it or after a failure a front part, and the log records it with exactly the bytes sent |
| `WebSocketClient.WebSocketClient.SendMessage` | include/ws_client/WebSocketClient.hpp:528-579 | one final masked frame with the (compressed) payload is sent, first byte 0x81 or 0x82 when uncompressed, or after a failure a front part of it; nothing at all on a closed connection or when compression fails |
| `WebSocketClient.WebSocketClient.SendCompressed` | include/ws_client/WebSocketClient.hpp:560-575 | the frame of a compressed message, first byte 0xC1 or 0xC2, carries zlib's output, masked so that a server recovers it |
| `WebSocketClient.WebSocketClient.SendPongFrame` | include/ws_client/WebSocketClient.hpp:583-605 | one final masked pong, first byte 0x8A, with the payload, or after a failure a front part of it; nothing on a closed connection |
| `WebSocketClient.WebSocketClient.SendCloseFrame` | include/ws_client/WebSocketClient.hpp:844-888 | one close frame, first byte 0x88, with the status code in network order, or after a failure a front part of it: the header never overwrites the code kept at offset 125 of the same buffer, and a server recovers the code |
| `WebSocketClient.NoChunkAt125` | include/ws_client/WebSocketClient.hpp:856-881 | two bytes at offset 125 of the 64-byte aligned write buffer hold no full mask chunk |
| `Sending.SentIsDecoded` | include/ws_client/WebSocketClient.hpp:775-842 | a server decoding by sections 5.2 and 5.3 of RFC 6455 gets header, length and the unmasked payload of what was sent, with nothing left over |
| `Sending.FrameIsSeen` | include/ws_client/WebSocketClient.hpp:775-842 | a server decodes a frame as its header and what the masking left of its payload, with the bytes behind it left over; that is the payload itself when the frame is recoverable |
| `Sending.ServerRecoversIff` | include/ws_client/WebSocketClient.hpp:828-839 | a server recovers every payload of a length if and only if no full chunk fits or the key repeats with the misalignment |
| `Sending.LengthExtValue` | include/ws_client/WebSocketClient.hpp:802-815 | the extended length stands for the payload size |
| `Sending.OnTheWire` | include/ws_client/WebSocketClient.hpp:775-842 | a client frame in numbers: 0x80 or, compressed, 0xC0 plus the opcode; 0x80 plus the length in one, three or nine bytes; the key; the masked payload |
| `Sending.MaskedHello` | include/ws_client/MaskKey.hpp:63-87 | the decoder that sending is measured by reads the masked `Hello` in section 5.7 of RFC 6455 |
| `Lifecycle.PhaseMeans` | include/ws_client/WebSocketClient.hpp:190-229 | what each phase of a connection says about all events before it |
| `Lifecycle.FramesOnlyWhileOpen` | include/ws_client/WebSocketClient.hpp:190-698 | in every possible log frames come only after a successful handshake, at most one close frame is sent, after it nothing but the shutdown, after that nothing |
| `Lifecycle.WireOnlyWhileOpen` | include/ws_client/WebSocketClient.hpp:190-698 | on the bytes sent, under arbitrary failures: every byte of a frame is behind the whole request of a successful handshake and part of a front piece of a frame, and behind a close frame that was begun the wire carries nothing any more |
| `Lifecycle.CloseIsLast` | include/ws_client/WebSocketClient.hpp:629-698 | in every possible log at most the last frame is a close frame |
| `Lifecycle.FramesAreSeen` | include/ws_client/WebSocketClient.hpp:775-842 | frames sent in full one after the other decode to exactly those frames |
| `Lifecycle.SeenAt` | include/ws_client/WebSocketClient.hpp:817-841 | frame by frame: the header as sent, and the payload exactly if masking in chunks was masking byte by byte |
| `Lifecycle.ServerSees` | include/ws_client/WebSocketClient.hpp:190-698 | without a transport failure, what a server decodes behind the request are exactly the frames of the log in order, with nothing left over |
| `WebSocketClient.WebSocketClient.ReadResponse` | include/ws_client/WebSocketClient.hpp:206-213 | the response up to the first CR LF CR LF, which is then taken off the stream |
| `WebSocketClient.WebSocketClient.ReadHeaders` | include/ws_client/WebSocketClient.hpp:202-208 | the headers end at the first CR LF CR LF; without a transport failure this only fails for headers over a mebibyte or a push-back that overflows, which needs a stream that can make it |
| `WebSocketClient.WebSocketClient.PerformHandshake` | include/ws_client/WebSocketClient.hpp:196-226 | request sent in full, response read and judged, compression set up, and exactly what follows the blank line still pending; after a failure a front part of the request |
| `WebSocketClient.WebSocketClient.JudgeResponse` | include/ws_client/WebSocketClient.hpp:213-224 | the verdict on the response decides; compression is set up exactly if it was negotiated, and may fail then |
| `WebSocketClient.WebSocketClient.InitCompression` | include/ws_client/PermessageDeflate.hpp:661-709 | the decompression buffer has the size that was configured, and it is zlib that takes or refuses the parameters negotiated |
| `WebSocketClient.WebSocketClient.Handshake` | include/ws_client/WebSocketClient.hpp:190-229 | the connection is open exactly if every step succeeded: the request with a new key sent, the response accepted, compression set up; a failure is one of the transport, of reading, the verdict on the response, or zlib refusing what was negotiated; refused without effect on an open connection |
| `WebSocketClient.WebSocketClient.ResponseDecides` | include/ws_client/WebSocketClient.hpp:190-229 | a well-formed response at the front of the stream, whatever follows it, can only be accepted if its status is 101 and its fields are as they must be, and only be rejected if not |
| `WebSocketClient.WebSocketClient.Close` | include/ws_client/WebSocketClient.hpp:629-698 | on an open connection without a failure, `Close(n)` adds no bytes for the codes 0, 1002, 1003 and 1007 to 1011, else bytes that a server decodes as one close frame, 0x88, with payload n / 256, n % 256; after a failure a front part of it; closed afterwards whatever fails; no effect when closed |
| `WebSocketClient.FailsInNumbers` | include/ws_client/WebSocketClient.hpp:636-644 | the codes for which no close frame is sent: 0, 1002, 1003 and 1007 to 1011 |
| `WebSocketClient.ClosesInNumbers` | include/ws_client/WebSocketClient.hpp:844-888 | for every other code a server decodes what was added to the wire, all of it, as one frame: 0x88 and the two bytes of the code |
| `Connection.Perform` | include/ws_client/WebSocketClient.hpp:260-698 | one call by an application sends exactly the bytes of the events it adds to the log, at most its own frame and the shutdown; on a closed connection nothing changes |
| `Connection.Run` | include/ws_client/WebSocketClient.hpp:190-698 | any sequence of calls with one handshake and arbitrary transport failures is a trace of such steps, in which the log accounts for every byte sent |
| `Connection.TraceGrows` | include/ws_client/WebSocketClient.hpp:629-698 | in every trace log and sent bytes only grow, and once the connection is refused or ended nothing on the wire changes |
| `Connection.TraceConveys` | include/ws_client/WebSocketClient.hpp:190-698 | at every moment of a trace with a successful handshake the frames answer the sending commands so far, up to the first close: one frame for each, in order, with its payload; only a message to be compressed may be without one |
| `Connection.FramesArrive` | include/ws_client/WebSocketClient.hpp:190-698 | end to end: after any run without a transport failure, what a server decodes behind the request are, with nothing left over, the frames that answer the commands, each with its header, and with its payload exactly if it is recoverable; at most the last is a close frame |
| `Connection.ContentsArrive` | include/ws_client/WebSocketClient.hpp:190-698 | so without compression, and with payloads at multiples of 4, the server gets exactly what the sending commands said, one after the other: first bytes 0x81, 0x82, 0x8A and 0x88, the payloads, and the two bytes of a close code |
| `Sha1.RolIsRotate` | include/ws_client/utils/SHA1.hpp:82-85 | the shifts are rotations |
| `Sha1.F1IsCh` | include/ws_client/utils/SHA1.hpp:97-125 | the client's selection function is Ch of FIPS 180-4 |
| `Sha1.F3IsMaj` | include/ws_client/utils/SHA1.hpp:144-157 | its majority function is Maj |
| `Sha1.NextWord` | include/ws_client/utils/SHA1.hpp:88-91 | on the 16-word window the next word is the word of the 80-word schedule |
| `Sha1.WindowSlides` | include/ws_client/utils/SHA1.hpp:112-173 | overwriting the oldest word keeps the window |
| `Sha1.R0` | include/ws_client/utils/SHA1.hpp:97-109 | a step of rounds 0 to 15 in rotated registers is the standard round |
| `Sha1.R1` | include/ws_client/utils/SHA1.hpp:112-125 | the same for rounds 16 to 19, with the schedule moved on |
| `Sha1.R2` | include/ws_client/utils/SHA1.hpp:128-141 | the same for rounds 20 to 39 |
| `Sha1.R3` | include/ws_client/utils/SHA1.hpp:144-157 | the same for rounds 40 to 59 |
| `Sha1.R4` | include/ws_client/utils/SHA1.hpp:160-173 | the same for rounds 60 to 79 |
| `Sha1.AllRounds` | include/ws_client/utils/SHA1.hpp:179-269 | the 80 unrolled steps are the 80 rounds of section 6.1.2 of FIPS 180-4 |
| `Sha1.SHA1.Transform` | include/ws_client/utils/SHA1.hpp:179-279 | one block's step of the hash value |
| `Sha1.SHA1.BufferToBlock` | include/ws_client/utils/SHA1.hpp:282-292 | the words of a block, most significant byte first |
| `Sha1.SHA1.Update` | include/ws_client/utils/SHA1.hpp:301-321 | the message grows by the data; any split into updates leads to the same state |
| `Sha1.Padded` | include/ws_client/utils/SHA1.hpp:324-347 | padding in one or two blocks is that of section 5.1.1 of FIPS 180-4 |
| `Sha1.SHA1.HashTail` | include/ws_client/utils/SHA1.hpp:329-347 | the last partial block is hashed in one block or two |
| `Sha1.SHA1.FinalBytes` | include/ws_client/utils/SHA1.hpp:324-363 | the result is the SHA-1 of everything since the last reset, and the object is reset |
| `Sha1.SHA1.DigestBytes` | include/ws_client/utils/SHA1.hpp:349-357 | the digest as bytes, most significant first |
| `Fips180.BlocksSnoc` | include/ws_client/utils/SHA1.hpp:307-321 | hashing goes block by block |
| `Fips180Example.HashOfAbc` | include/ws_client/utils/SHA1.hpp:179-363 | the definition that hashing is measured by gives `abc` the hash A9993E36 4706816A BA3E2571 7850C26C 9CD0D89D of FIPS 180 |
| `Base64.DecodeEncode` | include/ws_client/utils/base64.hpp:10-40 | the decoder of section 4 of RFC 4648 recovers every input, and the length is four characters for every three octets or part of them |
| `Base64.EncodeDecode` | include/ws_client/utils/base64.hpp:10-40 | whatever that decoder accepts is the encoding of what it decodes to |
| `Base64.EncodesIff` | include/ws_client/utils/base64.hpp:10-40 | so the encoding is characterised by the decoder, and is injective |
| `Base64.Base64Encode` | include/ws_client/utils/base64.hpp:10-40 | the loop over triples computes it |
| `Base64.TableValue` | include/ws_client/utils/base64.hpp:12-13 | the table is the alphabet of the standard |
| `Base64.KnownEncodings` | include/ws_client/utils/base64.hpp:10-40 | test vectors in section 10 of RFC 4648 |
| `Handshake.ValidateAccept` | include/ws_client/Handshake.hpp:323-355 | a response passes exactly if its first Sec-WebSocket-Accept is the base64 of the SHA-1 of key and GUID, which `Opening.DigestIsAccept` says through the decoder and the octets of the GUID |
| `Handshake.ValidateVersion` | include/ws_client/Handshake.hpp:303-321 | a response passes exactly if it has no Sec-WebSocket-Version or the first one is 13 |
| `Handshake.HasToken` | include/ws_client/Handshake.hpp:229-259 | the loop over commas finds the token exactly if an element of the list is the token, regardless of case and of white space around it |
| `Handshake.ContainsToken` | include/ws_client/Handshake.hpp:229-259 | the same over all fields of a name, in whatever case |
| `Handshake.RequestFields` | include/ws_client/Handshake.hpp:131-155 | whatever fields the user set, the request has exactly one key, the generated one; every other name keeps the user's values, and what section 4.1 of RFC 6455 requires is there |
| `Handshake.KeyDecodes` | include/ws_client/Handshake.hpp:357-365 | the key decodes to the 16 bytes of two numbers of the generator |
| `Handshake.Handshake.GetRequestMessage` | include/ws_client/Handshake.hpp:131-169 | the request line with the resource of the URL, the user's fields and the missing ones, the key and the offer |
| `Handshake.Handshake.ProcessResponse` | include/ws_client/Handshake.hpp:171-226 | the object takes over the verdict on the text: success, negotiated or not, and the settings agreed on; `Opening.AcceptedIff` says which fields succeed |
| `Handshake.UnaskedIsIgnored` | include/ws_client/Handshake.hpp:204-221 | a subprotocol in the response, in whatever place and with whatever offer, makes no difference to the verdict, and neither do extensions, unless something was offered and theirs is the first such field |
| `Handshake.RefusedIff` | include/ws_client/Handshake.hpp:204-221 | a response is refused if and only if a field that is checked is not as it must be, or it takes up an offer with a window size that is none or too large; whatever else it names that was not asked for, which section 4.1 of RFC 6455 wants refused |
| `Handshake.UnaskedIsAccepted` | include/ws_client/Handshake.hpp:204-258 | a response that names an extension and a subprotocol nobody asked for, and lists `foo, websocket` under Upgrade, is accepted, with an offer and without, exactly if its Sec-WebSocket-Accept is the right one |
| `Handshake.PrintedIsJudged` | include/ws_client/Handshake.hpp:171-226 | a printed response with a well-formed status line and fields is judged by its status code and its fields alone |
| `Handshake.ResponseEnds` | include/ws_client/WebSocketClient.hpp:202-213 | the first CR LF CR LF of such a response is the one at its end, whatever bytes follow it |
| `Handshake.ResponseIsJudged` | include/ws_client/Handshake.hpp:171-226 | so in any stream that begins with such a response, the part read is judged by its status code and its fields |
| `Opening.RequestCarries` | include/ws_client/Handshake.hpp:131-156 | field by field, what a request carries: Host, Upgrade: websocket, Connection: Upgrade, Sec-WebSocket-Version: 13, the offer and User-Agent unless the user set others, and one key |
| `Opening.RequestIsWritten` | include/ws_client/Handshake.hpp:156-169 | the text of a request: `GET`, the resource, `HTTP/1.1`, one line a field, a blank line |
| `Opening.RequestIsRead` | include/ws_client/Handshake.hpp:156-169 | a server that reads it word by word and line by line gets method, target, version, and all fields in order |
| `Opening.KeyHolds` | include/ws_client/Handshake.hpp:357-365 | the key decodes to the next two numbers of the generator, each in eight bytes of the host's order |
| `Opening.GuidOctets` | include/ws_client/Handshake.hpp:337 | the GUID is 258EAFA5-E914-47DA-95CA-C5AB0DC85B11, octet by octet |
| `Opening.DigestIsAccept` | include/ws_client/Handshake.hpp:335-340 | the one text accepted is the one that the decoder of RFC 4648 takes to the SHA-1 of the key followed by those octets |
| `Opening.ListsIff` | include/ws_client/Handshake.hpp:229-259 | the client finds a token in a value exactly if the value can be cut at commas into a part before, white space, the token in whatever case, white space, and a part behind |
| `Opening.AcceptedIff` | include/ws_client/Handshake.hpp:171-258 | the fields accepted, without the functions the client computes with: the tokens listed, the first Sec-WebSocket-Accept decoding to that SHA-1, no first version but 13, and no offer taken up wrongly |
| `Opening.DigestDecides` | include/ws_client/Handshake.hpp:323-355 | in a response that is otherwise as it must be, accepted if and only if the text decodes to that SHA-1 |
| `Random.UnstepStep` | include/ws_client/utils/random.hpp:87-103 | `next` is injective on states: it has an inverse |
| `Random.SeededNeverZero` | include/ws_client/utils/random.hpp:61-103 | from every 64-bit seed and after any number of calls the state is not all zero |
| `Random.KnownNumbers` | include/ws_client/utils/random.hpp:61-103 | first numbers of splitmix64 and of xoshiro128+, seeded and from a given state |
| `Random.Xoshiro128p.constructor` | include/ws_client/utils/random.hpp:61-77 | seeding by two steps of splitmix64 |
| `Random.Xoshiro128p.Next` | include/ws_client/utils/random.hpp:87-103 | the in-place update is one step, and the state stays usable |
| `Url.Parse` | include/ws_client/URL.hpp:136-262 | a URL is returned exactly for the strings of the grammar, and it is the one the string means; `PartsAreRead` and `ReadIsParts` say which, part by part |
| `Url.ParseBracketed` | include/ws_client/URL.hpp:168-212 | host and port behind brackets |
| `Url.ParseBare` | include/ws_client/URL.hpp:213-239 | host and port without brackets |
| `Url.ParseResource` | include/ws_client/URL.hpp:248-260 | the request target: with a path and the query, without the fragment (`ResourceOfParts`) |
| `Url.ParsePort` | include/ws_client/URL.hpp:283-298 | accepted exactly: digit strings with a value from 1 to 65535 |
| `Text.ParseNumberIff` | include/ws_client/URL.hpp:283-298 | `from_chars` with the range check accepts exactly digit strings of a value in the range: no sign, no space, any leading zeros, no overflow |
| `Url.Unambiguous` | include/ws_client/URL.hpp:136-262 | a string can be read as a URL in one way only |
| `Url.ReadableIff` | include/ws_client/URL.hpp:166-246 | the searches of the parser find the pieces of every string of the grammar, and only of those |
| `Url.ParsedFields` | include/ws_client/URL.hpp:136-262 | every parsed URL has a lower-case known protocol, a host, a port from 1 to 65535, and a resource that starts with a slash and has no fragment |
| `Url.PartsAreRead` | include/ws_client/URL.hpp:136-262 | a URL put together from scheme, host, port, path, query and fragment, of which the last four may be missing, means one thing only: the scheme in lower case, the host, the number of the port or that of the scheme, and path (or `/`) and query |
| `Url.ReadIsParts` | include/ws_client/URL.hpp:136-262 | and every string that is read is put together like that |
| `Url.ResourceOfParts` | include/ws_client/URL.hpp:249-262 | the request target of path, query and fragment is path, or `/`, and query |
| `Url.PortsOfSchemes` | include/ws_client/URL.hpp:55-59 | the schemes known are ws and http with 80, wss and https with 443, ftp with 21, ssh with 22 |
| `Url.AuthorityExamples` | include/ws_client/URL.hpp:123-128 | `h:80` and `[::1]:8443` |
| `Url.RoundTrip` | include/ws_client/URL.hpp:123-303 | the printed form of a parsed URL is parsed back to it if and only if its host contains a colon, or none of `/?#` and no bracket at its front |
| `Url.BracketsLost` | include/ws_client/URL.hpp:123-128 | `ws://[a/b]` is a URL that does not survive |
| `Text.DecimalRoundTrip` | include/ws_client/URL.hpp:104-107 | printing a number in decimal and reading it gives it back |
| `HttpHeader.HttpHeaderFields.Add` | include/ws_client/HttpHeader.hpp:84-87 | appends, duplicates included |
| `HttpHeader.HttpHeaderFields.AddIfMissing` | include/ws_client/HttpHeader.hpp:93-97 | appends unless a field of that name, in whatever case, exists |
| `HttpHeader.HttpHeaderFields.Set` | include/ws_client/HttpHeader.hpp:104-118 | afterwards the name has exactly this value and every other name the values it had |
| `HttpHeader.HttpHeaderFields.RemoveKey` | include/ws_client/HttpHeader.hpp:158-168 | afterwards the name, in whatever case, has no value, every other name the values it had, and the other fields keep their order |
| `HttpHeader.HttpHeaderFields.Get` | include/ws_client/HttpHeader.hpp:124-133 | all values of a name, in order |
| `HttpHeader.HttpHeaderFields.GetFirst` | include/ws_client/HttpHeader.hpp:141-154 | the first of them |
| `HttpHeader.HttpHeaderFields.ContainsKey` | include/ws_client/HttpHeader.hpp:174-179 | whether there is one |
| `HttpHeader.HttpHeaderFields.CountKey` | include/ws_client/HttpHeader.hpp:185-190 | how many there are |
| `HttpHeader.ValuesWithout` | include/ws_client/HttpHeader.hpp:158-168 | removing a name leaves no value of it in any case and all values of others |
| `HttpHeader.PrintRequest` | include/ws_client/HttpHeader.hpp:218-232 | request line, one line a field, blank line |
| `HttpParser.ParseHeaderFields` | include/ws_client/HttpParser.hpp:70-115 | the loop over lines returns the fields up to a blank line or the end, or the error of the first malformed line, and leaves the rest of the stream |
| `HttpParser.ParsedAreGood` | include/ws_client/HttpParser.hpp:70-115 | every parsed field has a name without colon, newline and leading space, and a trimmed value without newline |
| `HttpParser.HeaderRoundTrip` | include/ws_client/HttpParser.hpp:70-115 | printed fields are parsed back, all of them in order, if and only if each of them is like that |
| `HttpParser.ParseStatusLine` | include/ws_client/HttpParser.hpp:28-62 | version, integer code and trimmed reason of the first line, or the error, and the rest of the stream |
| `HttpParser.StatusIsRead` | include/ws_client/HttpParser.hpp:28-62 | a printed status line is read back as itself, whether it is the last line or not |
| `HttpParser.GoodFieldsEnd` | include/ws_client/HttpParser.hpp:70-115 | printed fields are parsed back also when the end of the last line is missing, as in the text of a response |
| `HttpParser.NoField` | include/ws_client/HttpParser.hpp:88-107 | a line without a colon, or with nothing before it, is an error |
| `HttpParser.MalformedLine` | include/ws_client/HttpParser.hpp:70-115 | behind whatever fields, such a line makes the whole header an error |
| `HttpParser.BadStatus` | include/ws_client/HttpParser.hpp:28-62 | a status line without a second word, or with one that is no number, is an error |
| `Text.TrimAround` | include/ws_client/utils/string.hpp:76-102 | trimming removes exactly the white space around a trimmed string |
| `Text.StringStream.GetLine` | include/ws_client/HttpParser.hpp:76-77 | `std::getline`: up to the delimiter, which is taken off, or to the end |
| `Text.WordEnds` | include/ws_client/HttpParser.hpp:36 | `operator>>`: leading white space skipped, up to the next white space |
| `Text.LowerCase` | include/ws_client/utils/string.hpp:18-31 | the 26 letters have the lower case of the alphabet, other characters are their own |
| `Text.SameInAnyCase` | include/ws_client/utils/string.hpp:36-48 | strings are equal regardless of case exactly if they are character by character equal or one letter in two cases |
| `Text.WhiteSpace` | include/ws_client/utils/string.hpp:74-102 | white space is the characters 32 and 9 to 13 |
| `PermessageDeflate.ParseExtensions` | include/ws_client/PermessageDeflate.hpp:515-540 | the parameters of the extension header, the last of a name counting |
| `PermessageDeflate.SplitParameter` | include/ws_client/PermessageDeflate.hpp:527-536 | name and value at the first `=`; without a value all of it is the name |
| `PermessageDeflate.PermessageDeflate.ParseWindowBits` | include/ws_client/PermessageDeflate.hpp:542-560 | accepted exactly: digit strings with a value from 8 to 15, leading zeros included |
| `PermessageDeflate.PermessageDeflate.NegotiateServerReset` | include/ws_client/PermessageDeflate.hpp:186-230 | set exactly if the response has the parameter |
| `PermessageDeflate.PermessageDeflate.NegotiateClientReset` | include/ws_client/PermessageDeflate.hpp:232-263 | set if it was, or the response has the parameter |
| `PermessageDeflate.PermessageDeflate.NegotiateServerWindow` | include/ws_client/PermessageDeflate.hpp:265-386 | the size agreed on, or the error and no change; `SizesAreTaken` says that a smaller size answered is the one agreed on |
| `PermessageDeflate.PermessageDeflate.NegotiateClientWindow` | include/ws_client/PermessageDeflate.hpp:388-487 | the size agreed on, or the error and no change; `SizesAreTaken` as for the server's |
| `PermessageDeflate.PermessageDeflate.Negotiate` | include/ws_client/PermessageDeflate.hpp:126-184 | whether the extension is in use or the error, and in every case the four settings afterwards, as the first extension header determines them: in numbers, `SizesAreTaken` |
| `PermessageDeflate.Negotiated` | include/ws_client/PermessageDeflate.hpp:126-487 | after success both sizes are 8 to 15 and at most what was asked for and acknowledged, and negotiating again with the same response succeeds and changes nothing |
| `PermessageDeflate.SizesAreTaken` | include/ws_client/PermessageDeflate.hpp:126-184 | for every offer and every answer put into a response: if each size answered is 8 to 15 and not above a size asked for, or is missing, the settings afterwards are exactly the sizes answered, with 15 for a missing one; else the answer is an error |
| `PermessageDeflate.UnofferedWindowIff` | include/ws_client/PermessageDeflate.hpp:388-487 | a client window that was not offered is refused if and only if its value is not a digit string with a value from 8 to 15, and else taken over; the table in the source and section 7.1.2.2 of RFC 7692 want it refused always |
| `PermessageDeflate.UnofferedWindow` | include/ws_client/PermessageDeflate.hpp:388-487 | `permessage-deflate; client_max_window_bits=10` is accepted without the offer |
| `PermessageDeflate.ServerResetIff` | include/ws_client/PermessageDeflate.hpp:186-230 | a requested `server_no_context_takeover` stays set if and only if the response repeats it; the table in the source wants it to stay always |
| `PermessageDeflate.ServerResetDropped` | include/ws_client/PermessageDeflate.hpp:186-230 | the response `permessage-deflate` drops it |
| `PermessageDeflate.PrintOffer` | include/ws_client/PermessageDeflate.hpp:489-512 | the offer, parameter by parameter |
| `PermessageDeflate.OfferText` | include/ws_client/PermessageDeflate.hpp:489-512 | the text of an offer: what is set, in this order, each behind a semicolon and a blank |
| `PermessageDeflate.OfferIsRecorded` | include/ws_client/PermessageDeflate.hpp:489-540 | the printed offer is parsed back as exactly its parameters |
| `PermessageDeflate.EchoKeeps` | include/ws_client/PermessageDeflate.hpp:126-540 | a server that repeats the offer keeps all four parameters if and only if both sizes are 8 to 15 |

## Left out

- ReadMessage: the number of bytes a `size_t` sum can hold is a precondition; the sizes of message and decompression buffer together must not exceed it, and callers pass the same buffer until a message is complete and stop at the first error, as the source's documentation demands.
- ReadUntil: a failure of the transport or of the buffer leaves the order of the bytes unstated; the caller gives the connection up.
- Run: a read after a failed call, and a handshake after the first, are not carried out; `WebSocketClient.hpp` lines 186 and 258 tell the caller not to make them.
- ResponseDecides: a response whose lines end otherwise than printed ones is judged by `Verdict`, of which no shorter description is proved; what `Judge` makes of its fields is described by `Opening.AcceptedIff`.
- GenerateKey: the seed, which the source takes from the clock, is arbitrary.
- SendMessage: the mask key is any four bytes; the generator is modelled on its own in `Random`.
- Decompress: zlib, together with the room it is given in the message buffer, is a function of the compressed payloads so far; how that room is set aside before each of its calls (`PermessageDeflate.hpp` lines 711-770), the flush marker and the compression buffers are not modelled. A message whose content fits can fail there, and then does not count as one that fits.
- InitCompression: which parameters zlib refuses is not modelled, nor that the memory for it can run out.
- Timeout: time is a flag that stays set once it is; durations are not modelled.
- Allocation failure, log output, error message texts, move operations and `std::string` capacity.
- `wait_message` and `wait_readable`: they pass a question on to the transport.
- The asynchronous client and its buffered socket, near copies of the synchronous ones; the coroutine adapter; TLS, DNS and the operating system's sockets.
- The simdutf branch of the UTF-8 check, and unaligned vector loads: the masking kernels are modelled on aligned chunks of 8 and 16 bytes.
- `jump` and `long_jump` of the generator: that they equal 2^64 and 2^96 steps.
- The constant mask key generator, which would only add easy members.
- Undefined behaviour outside the stated preconditions.
