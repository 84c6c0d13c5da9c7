# Flotilla and its WebSocket engine

The Flotilla daemon passes commands between hardware docks and browser clients. It talks to the clients over the WebSocket
engine kept in its `packages` directory. This project models the parts of both where state is carried from one call to the
next, and proves what they promise.

- `Masking`, `Utf8`, `Frame`, `Close`: masking of payloads word by word, the UTF-8 automaton, frame headers, close payloads.
- `Hybi13Reader`, `Hybi13`, `Hybi13Writer`: the frame reader and writer of RFC 6455. The first gives the meaning of each byte;
  class `Hybi13.Processor` reads buffers in place and is proved against it.
- `Hybi13RoundTrip`, `Hybi13Accepts`, `Hybi13Faults`, `Hybi13Safety`, `Hybi13Exchange`: legal sequences of frames are read as
  sent; nothing else is taken; which error is reported; what holds in every state of the reader; both ends together.
- `ConnectionSpec`, `ConnectionRun`, `Connection`: the life of a connection and its write queue. Calls, transport completions
  and timers are steps that may come in any order; class `Connection.Connection` is proved against the steps
  and driven through whole runs. `ConnectionFrames` and `ConnectionStates`: what each event queues, and the states it leads to.
- `HttpParser`, `HttpRequest`, `HttpStream`, `HttpRoundTrip`: the streaming request parser.
- `Sha1`, `Md5`, `Base64`, `Hybi00`: the digests of the opening handshakes and the older framing.
- `Polling`, `FlotillaModule`, `FlotillaDock`, `Flotilla`: the queues of modules, the events of docks, the tables clients keep.
  `FlotillaHistory`, `FlotillaValues`: what clients know and are sent, told from the lines of the docks over whole runs.

`Bytes` and `Wrappers` are shared. `dafny verify dfyconfig.toml` checks everything.

How the model reads the code:

- Bytes are integers from 0 to 255 and words are natural numbers, little-endian where the code loads them from memory. Masks
  and shifts are written as quotients, remainders and products, and `|` of disjoint bits as a sum. Exclusive or, and the logical
  operations of SHA-1, are defined bit by bit. Wrap-around is explicit where it can happen.
- Exceptions and error codes are values. `consume` of the frame reader is not called again after an error, as its caller sees to.
- A data message and a control message live in the reader at the same time; message objects, which the code shares by pointer,
  are values here.
- The extension for compression is disabled in this copy, and the reader states `EXTENSION` and `FATAL_ERROR` are never
  entered; neither is modelled.
- A connection's handlers are taken to be set and not to call back into it; the answer of a ping handler and the outcome of
  parsing and answering a handshake are parameters. The transport calls each completion once, in any order. `silent_close` is
  off, as configured.
- Two close frames can be queued: a close frame with a bad code or reason is acknowledged even while closing. `SecondClose` says
  exactly when.
- connection.hpp says a plain HTTP request never reaches the fail handler; `terminate` records an error even on a closed
  connection, so it can. `HttpOutcome` says exactly when.
- The check that a text message is complete looks at the last frame's opcode, which for a fragmented message is a continuation;
  `FetchDeliverable` says what is guaranteed.
- `last_update` of a module serves both directions and outlives a connection, and the update queue outlives it too;
  `ReconnectSwallows`, `StaleUpdate` and `UpdateResent` say exactly what that does.
- A client's table starts afresh with each snapshot. Channels are numbered from 1 to 8 by the docks and from 0 here.
- The sum the reader compares with the size limit can wrap for announced lengths no standard allows. `NoWraps` is the condition,
  a byte at a time; `StepBounded` shows it is exact and `LengthMayWrap` an input that breaks it.
- A length not in its shortest form is a protocol error by RFC 6455, but `to_ws` does not list it, so the peer is told 1011, an
  internal error; `CodeNamesFault` follows the code.
- Header names are ordered by their lower-case form, as in the code's map; where the two ends found by `strip_lws` cross, which
  no string constructor accepts, the call is taken to throw.

## Model

| member | source | states |
|---|---|---|
| Masking.MaskInvolution | packages/websocketpp.0.6.0.1/include/websocketpp/frame.hpp:641-652 | masking twice with one key and offset is the identity |
| Masking.MaskOffset | packages/websocketpp.0.6.0.1/include/websocketpp/frame.hpp:641-652 | masking from an offset into the key is masking with the key rotated by it |
| Bytes.XorAt | packages/websocketpp.0.6.0.1/include/websocketpp/frame.hpp:641-652 | the exclusive or of two bytes has a bit set exactly if one of them has it and the other has not |
| Masking.MaskConcat | packages/websocketpp.0.6.0.1/include/websocketpp/frame.hpp:641-652 | a payload masked in two pieces, the key rotated by the length of the first, is the payload masked whole |
| Masking.PrepareMaskingKeyRepeats | packages/websocketpp.0.6.0.1/include/websocketpp/frame.hpp:595-604 | the prepared key is the word whose bytes are the four key bytes twice |
| Masking.CircshiftIsRotate | packages/websocketpp.0.6.0.1/include/websocketpp/frame.hpp:612-620 | shifting the prepared key by any offset, 0 included, gives the prepared form of the rotated key |
| Masking.WordMaskCirc | packages/websocketpp.0.6.0.1/include/websocketpp/frame.hpp:765-786 | word-at-a-time masking writes what byte-at-a-time masking writes, nothing else, and returns the key to go on with |
| Masking.ByteMaskCirc | packages/websocketpp.0.6.0.1/include/websocketpp/frame.hpp:827-838 | the byte-wise circular form does the same |
| Masking.WordMaskExact | packages/websocketpp.0.6.0.1/include/websocketpp/frame.hpp:699-714 | the one-shot word form does the same for a whole payload |
| Masking.ByteMask | packages/websocketpp.0.6.0.1/include/websocketpp/frame.hpp:641-652 | the simple loop computes the exclusive or with the repeated key from any key offset |
| Masking.MaskChunksIsMask | packages/websocketpp.0.6.0.1/include/websocketpp/frame.hpp:765-786 | any list of chunks masked one after the other, threading the key, is the whole masked once |
| Frame.BigEndianRoundTrip | packages/websocketpp.0.6.0.1/include/websocketpp/frame.hpp:240-275 | a length written in network byte order is read back |
| Frame.HeaderRoundTrip | packages/websocketpp.0.6.0.1/include/websocketpp/frame.hpp:194-275 | opcode, fin, masked bit, payload size and key read from a header are those it was built from, for every size below 2^64, in the shortest of the three length forms |
| Frame.HeaderIsBuilt | packages/websocketpp.0.6.0.1/include/websocketpp/frame.hpp:194-275 | and a header without reserved bits whose length is in the shortest form is the one built from the fields read from it |
| Hybi13RoundTrip.WireOctets | packages/websocketpp.0.6.0.1/include/websocketpp/frame.hpp:194-275 | every octet of a frame on the wire: fin and opcode, mask bit and length code, the length in 0, 2 or 8 octets high octet first, the key, and the payload, masked if there is a key, as in the figure of section 5.2 of RFC 6455 |
| Utf8.TableNext | packages/websocketpp.0.6.0.1/include/websocketpp/utf8_validator.hpp:45-60 | the transition half of the packed table is the small transition function used in the proofs, for all nine states and twelve classes |
| Utf8.AcceptsExactlyWellFormed | packages/websocketpp.0.6.0.1/include/websocketpp/utf8_validator.hpp:69-78 | from the start state exactly the concatenations of encodings of section 4 of RFC 3629 (no overlong forms, no surrogates, nothing above U+10FFFF) end in the accepting state |
| Utf8.AcceptedIsEncoding | packages/websocketpp.0.6.0.1/include/websocketpp/utf8_validator.hpp:69-78 | the code points computed along an accepted string are scalar values, and encoding them gives the string back |
| Utf8.AcceptsEncodings | packages/websocketpp.0.6.0.1/include/websocketpp/utf8_validator.hpp:69-78 | every encoding of scalar values is accepted, and the code points computed are those scalar values |
| Utf8.RejectAbsorbs | packages/websocketpp.0.6.0.1/include/websocketpp/utf8_validator.hpp:69-78 | once rejected, always rejected |
| Utf8.RunConcat | packages/websocketpp.0.6.0.1/include/websocketpp/utf8_validator.hpp:104-118 | decoding in pieces is decoding whole |
| Utf8.NotRejectedIsPrefix | packages/websocketpp.0.6.0.1/include/websocketpp/utf8_validator.hpp:104-126 | a string not rejected is exactly a beginning of some well-formed string |
| Utf8.NeverRejectedBytes | packages/websocketpp.0.6.0.1/include/websocketpp/utf8_validator.hpp:45-78 | no byte from 0xF5 up ever gets past the validator |
| Utf8.Validator.ConsumeByte | packages/websocketpp.0.6.0.1/include/websocketpp/utf8_validator.hpp:91-96 | one byte through the packed table moves state and code point as the automaton does |
| Utf8.Validator.Decode | packages/websocketpp.0.6.0.1/include/websocketpp/utf8_validator.hpp:104-118 | the loop over a range succeeds exactly if the automaton does not reject, and ends in its state |
| Utf8.Validate | packages/websocketpp.0.6.0.1/include/websocketpp/utf8_validator.hpp:143-149 | the convenience function accepts exactly well-formed UTF-8 |
| Hybi13Reader.ChunkIndependence | packages/websocketpp.0.6.0.1/include/websocketpp/impl/connection_impl.hpp:1012-1085 | what is delivered and the first error depend only on the byte stream, not on how the reads cut it |
| Hybi13Reader.FeedConsumes | packages/websocketpp.0.6.0.1/include/websocketpp/processors/hybi13.hpp:328-455 | one `consume` call followed by fetching the message does what the bytes do one by one: same messages, same error, same state |
| Hybi13.Processor.Consume | packages/websocketpp.0.6.0.1/include/websocketpp/processors/hybi13.hpp:328-455 | the loop over buffered fields reads up to the end of a message or of the read; on a non-empty read it ends, having taken a byte or reported an error |
| Hybi13.Processor.CopyBasicHeaderBytes | packages/websocketpp.0.6.0.1/include/websocketpp/processors/hybi13.hpp:655-684 | the two header bytes may arrive in separate reads, or none at all |
| Hybi13.Processor.CopyExtendedHeaderBytes | packages/websocketpp.0.6.0.1/include/websocketpp/processors/hybi13.hpp:687-695 | so may the extended header, at the cursor where the last read left it |
| Hybi13.Processor.ProcessPayloadBytes | packages/websocketpp.0.6.0.1/include/websocketpp/processors/hybi13.hpp:710-757 | payload bytes are unmasked in place, validated as text and appended, with key rotation and decoder state carried over to the next read |
| Hybi13.Processor.OpenMessage | packages/websocketpp.0.6.0.1/include/websocketpp/processors/hybi13.hpp:364-416 | a validated header opens the data or control message it belongs to, or refuses it by size, in the order the code checks |
| Hybi13.Processor.GetMessage | packages/websocketpp.0.6.0.1/include/websocketpp/processors/hybi13.hpp:476-492 | fetching hands over the message that is ready and leaves the other one alone |
| Hybi13.ReadLoop | packages/websocketpp.0.6.0.1/include/websocketpp/impl/connection_impl.hpp:1012-1085 | the read loop of the connection delivers what the byte stream delivers |
| Hybi13.ReadChunks | packages/websocketpp.0.6.0.1/include/websocketpp/impl/connection_impl.hpp:1012-1085 | over any number of reads the objects deliver what the concatenated stream delivers, up to the first error |
| Hybi13RoundTrip.ReadsFrame | packages/websocketpp.0.6.0.1/include/websocketpp/processors/hybi13.hpp:328-455 | one legal frame, masked or not, between any others, is accepted exactly as sent |
| Hybi13RoundTrip.RoundTrip | packages/websocketpp.0.6.0.1/include/websocketpp/processors/hybi13.hpp:328-492 | end to end: any legal sequence of frames, in fragments and with control frames between them, yields the original control messages and the reassembled data messages in order, without error; a data message is held between frames exactly while one is unfinished |
| Hybi13Accepts.LegalHeader | packages/websocketpp.0.6.0.1/include/websocketpp/processors/hybi13.hpp:769-873 | a header that passes both validations is exactly the header a conforming sender builds: no reserved bits or opcodes, masked as the role demands, minimal length, control frames whole and short, continuations only of what is unfinished |
| Hybi13Accepts.AcceptsOnlyLegal | packages/websocketpp.0.6.0.1/include/websocketpp/processors/hybi13.hpp:328-492 | the converse, for every byte stream: as long as the reader reports no error, the bytes so far are a legal sequence of frames and a beginning of another; the messages delivered are exactly those of the sequence; the data message is held exactly while one is unfinished or being read; nothing is left over exactly at a frame boundary |
| Hybi13Accepts.TakenIffLegal | packages/websocketpp.0.6.0.1/include/websocketpp/processors/hybi13.hpp:328-492 | so a stream is taken whole, to a frame boundary and without error, if and only if it is a legal sequence of frames |
| Hybi13Faults.ByteVerdict | packages/websocketpp.0.6.0.1/include/websocketpp/processors/hybi13.hpp:328-455 | after any stream taken without error, a further byte is refused, or not, exactly as the frame it belongs to has one of ten faults, and the error is the first of them in the order of the checks; faults are stated on the header octets, the messages before and well-formed UTF-8, and for text on whether it begins any well-formed text |
| Hybi13Faults.ErrorNamesFault | packages/websocketpp.0.6.0.1/include/websocketpp/processors/hybi13.hpp:769-873 | so whatever error a stream of bytes ends in is the first fault of the first frame that has one, and everything before it was legal |
| Hybi13Faults.CodeNamesFault | packages/websocketpp.0.6.0.1/include/websocketpp/processors/base.hpp:261-286 | the peer is told 1007 exactly for text that is not UTF-8, 1009 for a message too long, 1011 for a length not in its shortest form and 1002 for every other fault, and a close frame with that code can always be built |
| Hybi13Writer.PrepareDataFrame | packages/websocketpp.0.6.0.1/include/websocketpp/processors/hybi13.hpp:527-596 | refuses control opcodes and ill-formed text and nothing else; otherwise the frame built is the frame the reader is proved against, masked with the key for a client |
| Hybi13Writer.PrepareControl | packages/websocketpp.0.6.0.1/include/websocketpp/processors/hybi13.hpp:906-946 | refuses data opcodes and payloads above 125 bytes and nothing else; otherwise builds an unfragmented control frame |
| Hybi13Writer.PrepareClose | packages/websocketpp.0.6.0.1/include/websocketpp/processors/hybi13.hpp:607-641 | refuses exactly the reserved and invalid codes, a reason without a code and a reason too long; otherwise builds the close frame |
| Hybi13Writer.FragmentsReassemble | packages/websocketpp.0.6.0.1/include/websocketpp/processors/hybi13.hpp:527-596 | in the reference assembly a message sent in fragments, with control messages between them, is whole after those control messages |
| Hybi13Exchange.FramesLegal | packages/websocketpp.0.6.0.1/include/websocketpp/processors/hybi13.hpp:527-596 | its fragments and the control frames between them are legal for a peer of the other role whose size limit it keeps |
| Hybi13Exchange.Exchange | packages/websocketpp.0.6.0.1/include/websocketpp/processors/hybi13.hpp:328-596 | sender and receiver together: the fragments and control frames `prepare_data_frame` and `prepare_control` build, cut into reads of any sizes, are delivered as the control messages and then the whole message, without error, whatever the keys |
| Hybi13Exchange.ReceiveAny | packages/websocketpp.0.6.0.1/include/websocketpp/impl/connection_impl.hpp:1012-1085 | whatever the reader object takes without error, in any reads, was a legal sequence of frames and the beginning of another, and what it delivered is what they carry; and an error it reports is the first fault of the first frame at fault |
| Close.CloseRoundTrip | packages/websocketpp.0.6.0.1/include/websocketpp/close.hpp:283-337 | a close payload is accepted exactly if some endpoint could have prepared it, and then code and reason are read back |
| Hybi13Safety.ControlKeepsData | packages/websocketpp.0.6.0.1/include/websocketpp/processors/hybi13.hpp:372-430 | bytes of an interleaved control frame change neither the unfinished data message nor its validator |
| Hybi13Safety.ControlIsSmall | packages/websocketpp.0.6.0.1/include/websocketpp/processors/hybi13.hpp:769-834 | a control frame being read is unfragmented and at most 125 bytes |
| Hybi13Safety.FetchDeliverable | packages/websocketpp.0.6.0.1/include/websocketpp/processors/hybi13.hpp:432-446 | a text message sent as one frame is complete well-formed UTF-8 when delivered; one in fragments is exactly if the validator is between characters |
| Hybi13Safety.AllDeliverable | packages/websocketpp.0.6.0.1/include/websocketpp/processors/hybi13.hpp:419-446 | over every run, delivered control messages are short and delivered text is at least the beginning of well-formed UTF-8 |
| Hybi13Safety.FragmentedTextMayBeIncomplete | packages/websocketpp.0.6.0.1/include/websocketpp/processors/hybi13.hpp:432-446 | to either role, with any key, a fragmented text message whose last character is cut short is delivered: the completeness check looks at the opcode of the last frame |
| Hybi13Safety.BeginBounded | packages/websocketpp.0.6.0.1/include/websocketpp/processors/hybi13.hpp:384-402 | accepting a data frame keeps stored plus announced payload within the limit exactly if the sum compared did not wrap |
| Hybi13Safety.StepBounded | packages/websocketpp.0.6.0.1/include/websocketpp/processors/hybi13.hpp:347-457 | a byte the reader takes keeps stored plus announced payload within the limit exactly if it announces no length that wraps the sum |
| Hybi13Safety.AlwaysBounded | packages/websocketpp.0.6.0.1/include/websocketpp/processors/hybi13.hpp:364-416 | over every run in which no announced length wraps the sum compared, stored plus announced payload stays within the limit, and so does every data message delivered |
| Hybi13Safety.LegalLengthsFit | packages/websocketpp.0.6.0.1/include/websocketpp/processors/hybi13.hpp:394-402 | lengths section 5.2 of RFC 6455 allows never wrap it, for limits below 2^63 |
| Hybi13Safety.LengthMayWrap | packages/websocketpp.0.6.0.1/include/websocketpp/processors/hybi13.hpp:394-402 | from a fresh reader of either role: after a fragment of one byte an announced length of 2^64 - 1 wraps to 0 and is accepted |
| Connection.Connection.WritePush | packages/websocketpp.0.6.0.1/include/websocketpp/impl/connection_impl.hpp:2167-2182 | appends to the queue and adds the payload size |
| Connection.Connection.WritePop | packages/websocketpp.0.6.0.1/include/websocketpp/impl/connection_impl.hpp:2185-2205 | takes the first frame off the queue and its size off the buffer size, or nothing from an empty queue |
| Connection.Connection.PopBatch | packages/websocketpp.0.6.0.1/include/websocketpp/impl/connection_impl.hpp:1764-1774 | the pop loop moves exactly the frames up to and including the first terminal one |
| Connection.Connection.WriteFrame | packages/websocketpp.0.6.0.1/include/websocketpp/impl/connection_impl.hpp:1750-1843 | does nothing while a write is outstanding; otherwise hands a batch to the transport and holds the write flag |
| Connection.Connection.HandleWriteFrame | packages/websocketpp.0.6.0.1/include/websocketpp/impl/connection_impl.hpp:1846-1885 | after an error or a terminal frame the connection ends with the flag held; otherwise the flag is released and waiting frames are dispatched |
| Connection.Connection.Terminate | packages/websocketpp.0.6.0.1/include/websocketpp/impl/connection_impl.hpp:1655-1705 | only the first termination starts a shutdown; every one with an error records it |
| Connection.Connection.HandleTerminate | packages/websocketpp.0.6.0.1/include/websocketpp/impl/connection_impl.hpp:1708-1747 | the shutdown callback calls the fail or the close handler, and then the termination handler |
| Connection.Connection.Start | packages/websocketpp.0.6.0.1/include/websocketpp/impl/connection_impl.hpp:705-726 | starting twice ends the connection |
| Connection.Connection.HandleTransportInit | packages/websocketpp.0.6.0.1/include/websocketpp/impl/connection_impl.hpp:729-760 | an error or a wrong state ends the connection |
| Connection.Connection.CheckHandshake | packages/websocketpp.0.6.0.1/include/websocketpp/impl/connection_impl.hpp:797-831 | the checks every handshake callback starts with: go on, ignore a closed connection, or abort |
| Connection.Connection.HandleReadHandshake | packages/websocketpp.0.6.0.1/include/websocketpp/impl/connection_impl.hpp:793-926 | moves on to the response when the request is complete or cannot be parsed |
| Connection.Connection.HandleWriteHttpResponse | packages/websocketpp.0.6.0.1/include/websocketpp/impl/connection_impl.hpp:1327-1407 | opens the connection after a 101 response, and ends it after any other |
| Connection.Connection.Send | packages/websocketpp.0.6.0.1/include/websocketpp/impl/connection_impl.hpp:103-151 | queues a frame exactly if open and prepared or preparable |
| Connection.Connection.Ping | packages/websocketpp.0.6.0.1/include/websocketpp/impl/connection_impl.hpp:154-220 | queues a ping exactly if open and the payload fits |
| Connection.Connection.Pong | packages/websocketpp.0.6.0.1/include/websocketpp/impl/connection_impl.hpp:251-291 | queues a pong exactly if open and the payload fits |
| Connection.Connection.SendCloseFrame | packages/websocketpp.0.6.0.1/include/websocketpp/impl/connection_impl.hpp:2022-2115 | chooses code and reason, and queues the close frame and moves to closing exactly if it can be prepared |
| Connection.Connection.Close | packages/websocketpp.0.6.0.1/include/websocketpp/impl/connection_impl.hpp:303-322 | closes only an open connection, with the reason cut to 123 bytes |
| Connection.Connection.ProcessControlFrame | packages/websocketpp.0.6.0.1/include/websocketpp/impl/connection_impl.hpp:1894-1935 | ignores frames once closed and all but close frames once closing; answers pings |
| Connection.Connection.ProcessClose | packages/websocketpp.0.6.0.1/include/websocketpp/impl/connection_impl.hpp:1934-2005 | acknowledges, refuses or drops on a close frame as its code, its reason and the state ask for |
| Connection.Connection.HandleReadError | packages/websocketpp.0.6.0.1/include/websocketpp/impl/connection_impl.hpp:950-1001 | which read errors are expected, end the connection cleanly or end it with an error |
| Connection.Connection.HandleProtocolError | packages/websocketpp.0.6.0.1/include/websocketpp/impl/connection_impl.hpp:1040-1061 | a protocol error drops the connection or closes it with the mapped code, and ends it if it cannot be closed |
| Connection.Connection.Perform | packages/websocketpp.0.6.0.1/include/websocketpp/impl/connection_impl.hpp:1655-1885 | the object, driven through any possible sequence of calls, completions and timers, ends where the state machine does; every callback finds what it needs |
| Connection.Live | packages/websocketpp.0.6.0.1/include/websocketpp/impl/connection_impl.hpp:1655-1885 | from its construction on: frames pushed are frames written followed by frames queued, the buffer size is that of the queue, one write at most is outstanding and none is forgotten, and the handlers called are the promised ones |
| ConnectionRun.StepInv | packages/websocketpp.0.6.0.1/include/websocketpp/impl/connection_impl.hpp:1750-1885 | every step, in any order of calls, completions and timers, keeps the invariant of queue, states and handlers |
| ConnectionRun.RunInv | packages/websocketpp.0.6.0.1/include/websocketpp/impl/connection_impl.hpp:1655-1885 | so it holds in every state reachable from the initial one |
| ConnectionRun.WriteFrameFlows | packages/websocketpp.0.6.0.1/include/websocketpp/impl/connection_impl.hpp:1750-1843 | a run of `write_frame` keeps the queue invariant: nothing lost, one write, terminal frame last, no lost wake-up |
| ConnectionRun.BatchTerminal | packages/websocketpp.0.6.0.1/include/websocketpp/impl/connection_impl.hpp:1764-1775 | frames are taken from the queue up to and including the first terminal one, or all of them |
| ConnectionRun.WritesConserved | packages/websocketpp.0.6.0.1/include/websocketpp/impl/connection_impl.hpp:1750-1885 | over every run, frames handed over followed by frames waiting are exactly the frames queued, in order; the buffer size is the sum of the waiting payloads; at most one write is outstanding; only the last frame handed over may be terminal |
| ConnectionFrames.StepQueues | packages/websocketpp.0.6.0.1/include/websocketpp/impl/connection_impl.hpp:103-345 | every step queues exactly the frame the event asks for in that state, kind, payload and terminal flag written out, or none |
| ConnectionFrames.PushedIsAsked | packages/websocketpp.0.6.0.1/include/websocketpp/impl/connection_impl.hpp:2167-2182 | over every run, the frames queued are exactly those asked for, in that order |
| ConnectionFrames.MessagesQueued | packages/websocketpp.0.6.0.1/include/websocketpp/impl/connection_impl.hpp:103-300 | over every run, the data frames queued are the payloads of the messages accepted while open, in order, the pings those called for, and the pongs those called for and the answers to pings |
| ConnectionFrames.CloseSays | packages/websocketpp.0.6.0.1/include/websocketpp/close.hpp:283-340 | a close frame called for reads back as the caller's code and reason cut to 123 bytes; the answer to a good close frame reads back as what the peer said, 1000 if it said nothing, and to a bad one as 1002 |
| ConnectionFrames.CodesAgree | packages/websocketpp.0.6.0.1/include/websocketpp/close.hpp:170-205 | the codes that may be sent or received are 1000 to 1003, 1007 to 1013 and 3000 to 4999 |
| ConnectionStates.StepState | packages/websocketpp.0.6.0.1/include/websocketpp/impl/connection_impl.hpp:1655-2115 | the session state after every step, as a table of state and event |
| ConnectionStates.StepInternal | packages/websocketpp.0.6.0.1/include/websocketpp/impl/connection_impl.hpp:705-926 | the opening handshake advances exactly so: started, transport ready, request read, answer written |
| ConnectionStates.ClosingHandshake | packages/websocketpp.0.6.0.1/include/websocketpp/impl/connection_impl.hpp:1894-2115 | two ends of an open connection: the close frame of one tells the other its code and reason, is answered with the same and, from a server, drops the connection once written; the answer completes the handshake, and only a server ends the connection then |
| ConnectionRun.NeverStalls | packages/websocketpp.0.6.0.1/include/websocketpp/impl/connection_impl.hpp:1869-1884 | over every run, if no `write_frame` is dispatched and no write outstanding, everything queued has been written, unless the connection is closed |
| ConnectionRun.NothingAfterTerminal | packages/websocketpp.0.6.0.1/include/websocketpp/impl/connection_impl.hpp:1864-1867 | once a terminal frame has been handed over no frame is written any more |
| ConnectionRun.RunAdvances | packages/websocketpp.0.6.0.1/include/websocketpp/impl/connection_impl.hpp:1655-1705 | over every run the state only moves forward along connecting, open, closing, closed; queued frames, written frames and handler calls are never taken back |
| ConnectionRun.NothingAfterClose | packages/websocketpp.0.6.0.1/include/websocketpp/impl/connection_impl.hpp:2022-2115 | once a close frame is queued only close frames are queued, over every continuation (section 5.5.1 of RFC 6455) |
| ConnectionRun.SecondClose | packages/websocketpp.0.6.0.1/include/websocketpp/impl/connection_impl.hpp:1934-1975 | while closing, a step queues another frame exactly if it is a close frame with a bad code or reason and protocol errors do not drop the connection |
| ConnectionRun.ClosedIsSilent | packages/websocketpp.0.6.0.1/include/websocketpp/impl/connection_impl.hpp:103-114 | a closed connection queues nothing |
| ConnectionRun.HandlersCalled | packages/websocketpp.0.6.0.1/include/websocketpp/connection.hpp:52-79 | over every run the open handler is called at most once, and a connection that has ended called open then close exactly once each, or fail at most once; never fail after open |
| ConnectionRun.UpgradeAnswered | packages/websocketpp.0.6.0.1/include/websocketpp/connection.hpp:52-79 | an attempt to upgrade that has ended called exactly one of the open and fail handlers, and the close handler exactly once after open |
| ConnectionRun.HttpOutcome | packages/websocketpp.0.6.0.1/include/websocketpp/connection.hpp:71-79 | for an answered plain HTTP request the fail handler stays uncalled exactly if no event records an error before the shutdown is done |
| ConnectionRun.HttpMayFail | packages/websocketpp.0.6.0.1/include/websocketpp/impl/connection_impl.hpp:1708-1727 | a run in which it is called: the handshake timer has expired when it is cancelled, and its handler runs before the shutdown is done |
| HttpStream.ExtractLws | packages/websocketpp.0.6.0.1/include/websocketpp/http/parser.hpp:139-152 | one unit of linear white space, with the leading CR LF rule |
| HttpStream.ExtractAllLws | packages/websocketpp.0.6.0.1/include/websocketpp/http/parser.hpp:164-178 | all of it, unit after unit |
| HttpStream.StripLws | packages/websocketpp.0.6.0.1/include/websocketpp/http/parser.hpp:379-387 | white space stripped from both ends, by scanning forwards and backwards |
| HttpStream.RequestParser.AppendHeader | packages/websocketpp.0.6.0.1/include/websocketpp/http/impl/parser.hpp:67-79 | a token name is required; a value is appended to a non-empty value already there |
| HttpStream.RequestParser.SetBody | packages/websocketpp.0.6.0.1/include/websocketpp/http/impl/parser.hpp:91-105 | sets the body and its length header, or removes both |
| HttpStream.RequestParser.Process | packages/websocketpp.0.6.0.1/include/websocketpp/http/impl/request.hpp:164-185 | the request line, and every way it can be refused |
| HttpStream.RequestParser.ProcessHeader | packages/websocketpp.0.6.0.1/include/websocketpp/http/impl/parser.hpp:161-177 | a header line, and every way it can be refused |
| HttpStream.RequestParser.PrepareBody | packages/websocketpp.0.6.0.1/include/websocketpp/http/impl/parser.hpp:119-143 | whether a body is to come, its length, and the limit on it |
| HttpStream.RequestParser.ProcessBody | packages/websocketpp.0.6.0.1/include/websocketpp/http/impl/parser.hpp:145-159 | takes as many body bytes as are needed and there |
| HttpStream.RequestParser.Consume | packages/websocketpp.0.6.0.1/include/websocketpp/http/impl/request.hpp:41-129 | the whole call, buffered line start, lines, blank line and body, with the bytes taken and every exception |
| HttpStream.RequestParser.Lines | packages/websocketpp.0.6.0.1/include/websocketpp/http/impl/request.hpp:66-128 | the loop over lines takes what a text is said to amount to, whatever part of it was buffered |
| HttpStream.RequestParser.Raw | packages/websocketpp.0.6.0.1/include/websocketpp/http/impl/request.hpp:131-139 | request line, headers and body written out |
| HttpRequest.ReadMore | packages/websocketpp.0.6.0.1/include/websocketpp/http/impl/request.hpp:41-129 | two calls do what one call on both reads does, exceptions included, even with a line end or a body cut between them |
| HttpRequest.Streaming | packages/websocketpp.0.6.0.1/include/websocketpp/http/impl/request.hpp:41-129 | for every request and every cut, the calls end with the same method, uri, version, headers, body, ready flag, bytes taken or exception as one call, the header limit aside |
| HttpRequest.CutOrWhole | packages/websocketpp.0.6.0.1/include/websocketpp/http/impl/request.hpp:54-58 | if no call on the pieces throws, one call on the whole does the same exactly if the whole is within the header limit |
| HttpRoundTrip.CutMayPass | packages/websocketpp.0.6.0.1/include/websocketpp/http/impl/request.hpp:54-58 | a request line and a long unended line after it are taken in two calls and refused in one |
| HttpRequest.WithinLimit | packages/websocketpp.0.6.0.1/include/websocketpp/http/impl/request.hpp:54-58 | within the limit nothing is refused for its size, however it is cut |
| HttpRequest.ReadValid | packages/websocketpp.0.6.0.1/include/websocketpp/http/impl/request.hpp:41-129 | a call takes no more than it is given, and all of it unless the request is complete |
| HttpParser.StrtoulDecimal | packages/websocketpp.0.6.0.1/include/websocketpp/http/impl/parser.hpp:119-129 | a length written in decimal is read back |
| HttpParser.StrtoulReads | packages/websocketpp.0.6.0.1/include/websocketpp/http/impl/parser.hpp:119-129 | a length with or without a sign, whatever follows it, is negated modulo 2^64 after a minus sign and is the largest of 64 bits if it does not fit |
| HttpParser.SameIff | packages/websocketpp.0.6.0.1/include/websocketpp/utilities.hpp:75-89 | two header names are the same exactly if they have equal length and each pair of characters is equal or the two cases of one ASCII letter |
| HttpParser.TokenCharacters | packages/websocketpp.0.6.0.1/include/websocketpp/http/constants.hpp:78-100 | a token character is a printable ASCII character that is none of the separators |
| HttpRequest.RequestLineVerdict | packages/websocketpp.0.6.0.1/include/websocketpp/http/impl/request.hpp:164-185 | a request line is refused for its method exactly if what stands before the first space is no token, for its form exactly if a space is missing, and otherwise taken apart at the first two spaces |
| HttpRequest.HeaderLineVerdict | packages/websocketpp.0.6.0.1/include/websocketpp/http/impl/parser.hpp:161-177 | a header line without a colon is refused; any other is split at the first one, stripped, and refused exactly if the name is no token |
| HttpRequest.BlankLineVerdict | packages/websocketpp.0.6.0.1/include/websocketpp/http/impl/request.hpp:85-110 | the blank line is refused as incomplete exactly without a request line or a Host header, and for its body exactly above 32000000 |
| HttpRoundTrip.StripTrimmed | packages/websocketpp.0.6.0.1/include/websocketpp/http/parser.hpp:379-387 | a trimmed value survives, with or without the space after the colon |
| HttpRoundTrip.StripPadded | packages/websocketpp.0.6.0.1/include/websocketpp/http/parser.hpp:372-387 | whatever blanks and tabs stand before and behind a value, stripping finds it between them |
| HttpRoundTrip.AppendGet | packages/websocketpp.0.6.0.1/include/websocketpp/http/impl/parser.hpp:67-79 | a header given again is joined to what is there with a comma and a space, and the value of no other name changes |
| HttpRoundTrip.SetBodyGood | packages/websocketpp.0.6.0.1/include/websocketpp/http/impl/parser.hpp:91-105 | setting a body keeps the headers ordered and well formed, leaves the Host header alone and records the length |
| HttpRoundTrip.HeadersRead | packages/websocketpp.0.6.0.1/include/websocketpp/http/impl/parser.hpp:161-188 | header lines written in the order of the map are read back into the same map |
| HttpRoundTrip.RoundTrip | packages/websocketpp.0.6.0.1/include/websocketpp/http/impl/request.hpp:131-139 | a request with token method, space-free uri, Host header, token names and trimmed values, its body set by `set_body` and no larger than the header limit, is rebuilt by one call, which takes all of it |
| HttpRoundTrip.RoundTripInPieces | packages/websocketpp.0.6.0.1/include/websocketpp/http/impl/request.hpp:41-139 | and by any sequence of calls on its pieces |
| HttpRoundTrip.RecasedRead | packages/websocketpp.0.6.0.1/include/websocketpp/http/parser.hpp:60 | a request whose header names are written in any mix of cases is read the same: the same body, and the same value for every name |
| Sha1.ChooseForms | packages/websocketpp.0.6.0.1/include/websocketpp/sha1/sha1.hpp:79-89 | the choice function written with or is the one of FIPS 180-4 written with exclusive or |
| Sha1.MajorityForms | packages/websocketpp.0.6.0.1/include/websocketpp/sha1/sha1.hpp:96-101 | so is the majority function |
| Sha1.LogicBits | packages/websocketpp.0.6.0.1/include/websocketpp/sha1/sha1.hpp:79-101 | bit by bit, the logical operations are the logical operations |
| Sha1.RolBit | packages/websocketpp.0.6.0.1/include/websocketpp/sha1/sha1.hpp:45-47 | rotation by 1, 5 or 30 moves bit i to bit i + n modulo 32 |
| Sha1.RoundConstants | packages/websocketpp.0.6.0.1/include/websocketpp/sha1/sha1.hpp:79-116 | the round constants are 2^30 times the square roots of 2, 3, 5 and 10, rounded down |
| Sha1.InitialHash | packages/websocketpp.0.6.0.1/include/websocketpp/sha1/sha1.hpp:129-130 | the initial hash value counts its hexadecimal digits up and down, and ends in c3d2e1f0 |
| Sha1.InnerHash | packages/websocketpp.0.6.0.1/include/websocketpp/sha1/sha1.hpp:59-116 | the five loops compute the 80 rounds of section 6.1.2 of FIPS 180-4 on the first sixteen words and add them to the hash value |
| Sha1.LoadBlock | packages/websocketpp.0.6.0.1/include/websocketpp/sha1/sha1.hpp:149-158 | a block is loaded as sixteen big-endian words |
| Sha1.LoadRest | packages/websocketpp.0.6.0.1/include/websocketpp/sha1/sha1.hpp:163-171 | the rest of the message and the one bit are set byte by byte into the cleared buffer |
| Sha1.FoldLast | packages/websocketpp.0.6.0.1/include/websocketpp/sha1/sha1.hpp:163-177 | the end of the padded message is one block if at most 55 bytes are left, else two |
| Sha1.Calc | packages/websocketpp.0.6.0.1/include/websocketpp/sha1/sha1.hpp:127-184 | `calc` writes the hash of the padded message, for every length |
| Sha1.PaddedIff | packages/websocketpp.0.6.0.1/include/websocketpp/sha1/sha1.hpp:163-177 | that message is padded as section 5.1.1 of FIPS 180-4 says exactly if it is shorter than 2^29 bytes |
| Sha1.CalcIsStandard | packages/websocketpp.0.6.0.1/include/websocketpp/sha1/sha1.hpp:127-184 | so for those the hash value is the standard's |
| Md5.AppendPieces | packages/websocketpp.0.6.0.1/include/websocketpp/common/md5.hpp:357-391 | appending a message in pieces leaves the digest words, bit count and partial block of one append, however it is cut |
| Md5.InitialWords | packages/websocketpp.0.6.0.1/include/websocketpp/common/md5.hpp:349-355 | the digest starts as the octets 01 23 ... ef and fe dc ... 10 |
| Md5.AppendedValid | packages/websocketpp.0.6.0.1/include/websocketpp/common/md5.hpp:357-391 | the 64-bit count, wrapped, still tells how full the buffer is |
| Md5.Md5State.AddBits | packages/websocketpp.0.6.0.1/include/websocketpp/common/md5.hpp:361-370 | the two words of the count hold the bit length modulo 2^64 |
| Md5.Md5State.Feed | packages/websocketpp.0.6.0.1/include/websocketpp/common/md5.hpp:372-390 | the buffered partial block is completed first, whole blocks are compressed, and the rest is kept |
| Md5.Md5State.Append | packages/websocketpp.0.6.0.1/include/websocketpp/common/md5.hpp:357-391 | `md5_append` in memory does to the live state what appending means |
| Md5.Md5State.Finish | packages/websocketpp.0.6.0.1/include/websocketpp/common/md5.hpp:393-412 | `md5_finish` appends the padding and the length and writes the digest words low byte first |
| Md5.PaddingIsShortest | packages/websocketpp.0.6.0.1/include/websocketpp/common/md5.hpp:393-407 | the padding is a one bit and the fewest zero bits that leave 56 bytes modulo 64 |
| Md5.FinishHashes | packages/websocketpp.0.6.0.1/include/websocketpp/common/md5.hpp:393-412 | finishing compresses exactly the padded message of sections 3.1 and 3.2 of RFC 1321, a multiple of 64 bytes |
| Base64.RoundTrip | packages/websocketpp.0.6.0.1/include/websocketpp/base64/base64.hpp:66-174 | decoding undoes encoding, for every byte string |
| Base64.EncodeLength | packages/websocketpp.0.6.0.1/include/websocketpp/base64/base64.hpp:66-112 | the encoding has 4 * ceil(n / 3) characters |
| Base64.DigitsByHand | packages/websocketpp.0.6.0.1/include/websocketpp/base64/base64.hpp:75-81 | the shifts and masks give the base-64 digits of three bytes taken as a number |
| Base64.Base64Encode | packages/websocketpp.0.6.0.1/include/websocketpp/base64/base64.hpp:66-112 | the loop encodes as section 4 of RFC 4648 says |
| Base64.TestVectors | packages/websocketpp.0.6.0.1/include/websocketpp/base64/base64.hpp:46-112 | the vectors of section 10 of RFC 4648 for one, two and three bytes |
| Base64.Decoded | packages/websocketpp.0.6.0.1/include/websocketpp/base64/base64.hpp:157-171 | the junk in the places of missing characters never gets into the bytes taken |
| Base64.Base64Decode | packages/websocketpp.0.6.0.1/include/websocketpp/base64/base64.hpp:131-174 | the loop takes characters up to the first that is not of the alphabet and decodes them, for every input |
| Hybi00.PrepareDataFrame | packages/websocketpp.0.6.0.1/include/websocketpp/processors/hybi00.hpp:313-347 | refuses anything but text that is well-formed UTF-8; otherwise wraps it in 0x00 and 0xFF |
| Hybi00.FrameReadsIff | packages/websocketpp.0.6.0.1/include/websocketpp/processors/hybi00.hpp:236-306 | a frame is read back as what was put in it exactly if that contains no 0xFF |
| Hybi00.NoTerminator | packages/websocketpp.0.6.0.1/include/websocketpp/utf8_validator.hpp:143-149 | well-formed UTF-8 never contains 0xFF |
| Hybi00.RoundTrip | packages/websocketpp.0.6.0.1/include/websocketpp/processors/hybi00.hpp:236-347 | any texts that can be prepared are recovered exactly, in order, under any chunking |
| Hybi00.Processor.Consume | packages/websocketpp.0.6.0.1/include/websocketpp/processors/hybi00.hpp:236-290 | the scan for the terminator over one read does what its bytes do one by one, up to the end of a message or a violation |
| Hybi00.Processor.ReadLoop | packages/websocketpp.0.6.0.1/include/websocketpp/impl/connection_impl.hpp:1012-1085 | the read loop around it delivers what the byte stream delivers |
| Polling.VolatileDelivers | Flotilla/Flotilla_Module.cpp:38-63 | for a volatile module, at every moment, what was delivered followed by what is still to come is what was queued without adjacent duplicates |
| Polling.VolatileComplete | Flotilla/Flotilla_Module.cpp:38-63 | however values and polls are mixed, as many more polls as there are entries complete the delivery |
| Polling.DeliversQueued | Flotilla/Flotilla_Module.cpp:38-104 | for every module what is delivered was queued, in that order |
| Polling.NeverRepeats | Flotilla/Flotilla_Module.cpp:38-104 | nor is anything delivered twice in a row |
| Polling.LatestDelivered | Flotilla/Flotilla_Module.cpp:38-104 | for a non-volatile module one more poll for commands, two for updates, leaves the latest value queued as the last delivered |
| FlotillaModules.TouchCommands | Flotilla/Flotilla_Module.cpp:10-70 | the touch module's clients get every value once, without adjacent duplicates |
| FlotillaModules.TouchUpdates | Flotilla/Flotilla_Module.cpp:72-103 | and so does its dock |
| FlotillaModules.LatestCommand | Flotilla/Flotilla_Module.cpp:38-70 | any other module's clients have the latest value after one more poll |
| FlotillaModules.LatestUpdate | Flotilla/Flotilla_Module.cpp:72-103 | and its dock the latest update after two |
| FlotillaModules.SentWasQueued | Flotilla/Flotilla_Module.cpp:38-104 | both directions: a subsequence of what was queued, nothing twice in a row |
| FlotillaModules.ReconnectSwallows | Flotilla/Flotilla_Module.cpp:26-63 | the first value after a reconnection reaches the clients exactly if it differs from the last one before |
| FlotillaModules.StaleUpdate | Flotilla/Flotilla_Module.cpp:26-104 | a newly connected module is sent an update meant for the old one exactly if one was queued and was not the last sent |
| FlotillaModules.UpdateResent | Flotilla/Flotilla_Module.cpp:38-104 | an update already sent is sent again exactly if a different value went the other way in between |
| FlotillaModules.FlotillaModule.Connect | Flotilla/Flotilla_Module.cpp:26-31 | ignored if connected; otherwise names the module and empties the command queue |
| FlotillaModules.FlotillaModule.Disconnect | Flotilla/Flotilla_Module.cpp:33-36 | empties the command queue only |
| FlotillaModules.FlotillaModule.GetNextCommand | Flotilla/Flotilla_Module.cpp:38-63 | the pop loops poll the command queue as stated |
| FlotillaModules.FlotillaModule.GetNextUpdate | Flotilla/Flotilla_Module.cpp:79-103 | the pop loops poll the update queue as stated |
| FlotillaDocks.TextReads | Flotilla/Flotilla_Dock.cpp:333-348 | dock, channel, state and name can be read off the text of an event, whatever the name |
| FlotillaDocks.CommandReads | Flotilla/Flotilla_Dock.cpp:277-292 | dock, channel, module and value can be read off the packet a value is sent in |
| FlotillaDocks.EventKeeps | Flotilla/Flotilla_Dock.cpp:350-354 | changing a module and queueing its event keeps every table that follows the events right |
| FlotillaDocks.ProcessCommandKeeps | Flotilla/Flotilla_Dock.cpp:99-182 | every line from a dock keeps the invariant and every such table |
| FlotillaDocks.DropKeeps | Flotilla/Flotilla_Dock.cpp:184-206 | so does unplugging, which leaves no module connected |
| FlotillaDocks.FlotillaDock.ProcessCommand | Flotilla/Flotilla_Dock.cpp:99-182 | a found or lost module changes its slot and queues one event, and a value is queued for its module; channels out of range are ignored |
| FlotillaDocks.FlotillaDock.Disconnect | Flotilla/Flotilla_Dock.cpp:184-206 | the loop disconnects every connected module and queues an event for each, in order |
| FlotillaDocks.FlotillaDock.SetPort | Flotilla/Flotilla_Dock.cpp:218-256 | only a disconnected dock connects, and only if its port works |
| FlotillaDocks.FlotillaDock.GetPendingEvents | Flotilla/Flotilla_Dock.cpp:297-306 | hands over all queued events in order and leaves none |
| FlotillaDocks.FlotillaDock.GetPendingCommands | Flotilla/Flotilla_Dock.cpp:258-275 | polls the connected modules, and only them, in order, and gives the packet for each value |
| Flotilla.SnapshotAgrees | Flotilla/Flotilla.cpp:266-293 | the snapshot sent to a client is the table of the modules connected now |
| Flotilla.InitInSync | Flotilla/Flotilla.cpp:266-293 | and still is after the events that were queued when it was taken |
| Flotilla.UpdateInv | Flotilla/Flotilla.cpp:14-30 | a round of `update_clients` keeps every table in step and leaves no event queued |
| Flotilla.StepInv | Flotilla/Flotilla.cpp:14-30 | every step keeps the invariant of docks and tables |
| Flotilla.RunInv | Flotilla/Flotilla.cpp:14-293 | so it holds in every reachable state |
| Flotilla.TablesConverge | Flotilla/Flotilla.cpp:14-30 | after any run that ends with a round of `update_clients`, a client that missed no event of a dock since its snapshot knows exactly the modules connected to it |
| FlotillaHistory.PluggedExactly | Flotilla/Flotilla_Dock.cpp:99-206 | after any run a module is connected, and under which name, exactly as the found and lost lines and the unplugging say: the first found since the last was lost |
| FlotillaHistory.ConnectedExactly | Flotilla/Flotilla_Dock.cpp:184-256 | after any run a dock is connected exactly if its port was found and it was not unplugged since |
| FlotillaHistory.OpenExactly | Flotilla/Flotilla.cpp:233-264 | a client is known exactly if it opened and did not close since |
| FlotillaHistory.ReadyExactly | Flotilla/Flotilla.cpp:204-228 | it is ready exactly if it said so since it opened and did not pause since |
| FlotillaHistory.SubscribedExactly | Flotilla/Flotilla.cpp:162-202 | it is subscribed to a dock exactly if it subscribed since it opened and did not unsubscribe since |
| FlotillaHistory.TablesTellLines | Flotilla/Flotilla.cpp:14-293 | a client that has subscribed, says it is ready and goes on listening has in its table, after every later round, exactly the modules the lines of the dock say are plugged in |
| Flotilla.FoundReaches | Flotilla/Flotilla.cpp:49-78 | a module that appears reaches a client's table in the next round exactly if the client is ready and subscribed then |
| Flotilla.RoundDelivers | Flotilla/Flotilla.cpp:14-30 | a round sends a client the values polled from the docks it is subscribed to if it is ready, in order, and no others |
| FlotillaValues.ValuesReachClient | Flotilla/Flotilla_Dock.cpp:129-144 | over runs of the daemon, from the appearance of a module until it is lost, with no update forwarded to it, what a client ready and subscribed throughout is sent of it is a subsequence of the values in the lines of its dock, none twice in a row |
| FlotillaValues.TouchValuesComplete | Flotilla/Flotilla_Module.cpp:7-63 | for a touch module it is every value, without adjacent duplicates, after as many rounds as values; the first is missing exactly if it repeats the last value of the connection before |
| FlotillaValues.LatestValueReaches | Flotilla/Flotilla_Module.cpp:38-63 | for any other module the last value sent is the latest one read, after one more round |
| Flotilla.DisconnectedDocksAreEmpty | Flotilla/Flotilla_Dock.cpp:184-206 | after any run a dock that is not connected has no connected module |
| Flotilla.Server.SendToClients | Flotilla/Flotilla.cpp:49-78 | one packet goes to every client that is ready and subscribed, and to no other |
| Flotilla.Server.UpdateClients | Flotilla/Flotilla.cpp:14-30 | the loops over docks, events, values and clients do one round |
| Flotilla.Server.InitClient | Flotilla/Flotilla.cpp:266-293 | the loops over docks and channels send the snapshot |

## Left out

- Transports, timers, threads, TLS, logging, URI parsing, random numbers and serial ports: completions, expiries and errors are steps, keys and ports are parameters.
- The client's opening handshake, HTTP response parsing, the choice of a processor and the key arithmetic of either handshake.
- The subclasses for drafts 7 and 8, the build with strict masking, big-endian and 32-bit words.
- Interleavings inside a call: each public call, callback and dock line is one step, although `send` releases a lock before it queues.
- Quoted strings, attributes and parameter lists of HTTP headers, which nothing above depends on.
- The two serial-port queues of a dock; its `tick` loop appears as the steps `Forwarded` and `LineRead`, without what it writes to the port.
- Several reads of the handshake in flight at once: its completions are steps that may come at any time, more often than the transport would call them.
- Hybi13.ReadLoop: collects the messages instead of dispatching them; what dispatch does is `Connection.ProcessControlFrame`.
- Hybi13Writer.FragmentsReassemble: speaks of the reference assembly only; `Hybi13Exchange.Exchange` is about prepared frames and the reader.
- Hybi13Safety.AlwaysBounded: assumes that no announced length wraps the sum compared with the limit, because then the bound fails (`LengthMayWrap`).
- Hybi13Accepts.AcceptsOnlyLegal: assumes the same, and a limit below 2^63, because longer frames have no legal length.
- Connection.Connection.Terminate: the local close code and reason recorded with an error, and the state kept for plain HTTP; nothing modelled reads them.
- Connection.Connection.HandleTransportInit: the client branch, which writes the HTTP request.
- Connection.Connection.HandleReadHandshake: parsing, the choice of a processor and the key bytes of draft 00 are one parameter.
- Connection.Connection.Send: whether the processor could prepare the message is a parameter; `Hybi13Writer.PrepareDataFrame` says when it can.
- Connection.Connection.SendCloseFrame: the `silent_close` branch, which the configuration turns off, and setting the close timer.
- ConnectionRun.HttpMayFail: timers are not part of the state; that an expiry already queued outlives `cancel` is the transport's behaviour.
- Md5.Md5State.Append: assumes that the buffered bytes and the piece together do not overflow a `size_t`, which no array makes them do; the compression of one block is a parameter.
- FlotillaModules.LatestCommand: one direction active; with both, `UpdateResent` applies.
- FlotillaDocks.FlotillaDock.ProcessCommand: lines arrive split into their parts, channel numbers below 1, which index out of bounds, do not occur, and the names a dock reports for itself and its user are dropped.
- FlotillaDocks.FlotillaDock.SetPort: opening the port and reading the version are one parameter.
- FlotillaDocks.FlotillaDock.GetPendingCommands: gives the packets as values; `CommandText` writes them out.
- Flotilla.Server.UpdateClients: a failed send, which the daemon only logs, does not occur.
- Flotilla.Server.InitClient: the identification texts before and after the snapshot, and the snapshot reaches the client at once.
- Flotilla.TablesConverge: says nothing of a client that missed an event; `FoundReaches` shows what it costs.
- FlotillaValues.ValuesReachClient: no update is forwarded to the module meanwhile; both directions share `last_update`, as `UpdateResent` shows.
