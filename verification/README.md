# LibraryLink, modelled and verified in Dafny

LibraryLink lets a program in one language call a library in another. A wrapper encodes a call, frames it
over a socket, and a receiver decodes it, keeps foreign objects under ids and answers. This project models
the parts of it that carry the logic and proves what they promise. `dafny verify dfyconfig.toml` checks all
of it.

- **The wire codec of the Go receiver** (`Wire`, `Skipping`, `Records`, `Messages`, `Canonical`, `Objects`,
  `RequestObjects`, `Failures`).
  Pure functions say what decoding and encoding mean; a grammar of fields says what skipping accepts; classes
  with the generated code's fields and loops are proved to compute exactly that, errors included. On top of them
  stand what each decoded message holds, when an encoding is the shortest one, the round trips, the
  concatenation law "Last One Wins" of the Protocol Buffers Encoding specification, and the preservation of
  unknown fields.
- **The nested protocol** (`NestedRpc`). The Kotlin client and the Python receiver as one step relation over
  two call stacks and two channels, with requests inside callbacks inside requests to any depth.
- **The batched protocol** (`Framing`, `Reading`, `GoHandler`, `Batch`). The client's and the handler's code
  as methods over buffered streams, and both together as a step relation byte by byte: every interleaving,
  every cutting of the bytes, every early write of either buffer.
- **`checkSmall`** (`CheckSmall`, `Ending`). Bisection over several terms with a solver that may return any
  model: what it comes to, and for which constraints it ends.
- **Retractable constraints and the sort printer** (`Retractable`, `DisplaySort`, `Decimal`).
- **The prefetching cache** (`Cache`), **remote arrays** (`RemoteArray`), **stubs and handlers** (`Stub`).

Some promises fail in corners of the code; there the condition under which they hold is proved to be the
exact one, or a counterexample stands beside the theorem:

- `sendRequests` can return while the receiver still has STOP_BUFFERING before it, exactly if the receiver's
  writer holds back no byte of the answers: after an empty batch, or a last answer that fills what is left of its
  buffer and is then longer than a whole one (`Batch.RestAtReturn`, `Batch.HeldByLengths`). With the handler's
  own response only the empty batch does it (`Batch.HandlerRests`).
- `checkSmall` adds `upper` and `lower` in 32 bits. Every solver that decides its checks brings it to its end
  exactly if there is a model of non-negative ints and no descending series of models, each with no smaller
  model below the half of the term that is bisected, raises that term's floor until its sum with a model passes
  the largest int (`Ending.EndsExactly`); models up to 2^30 are always safe, and no larger bound is
  (`Ending.Limit`).
- It also takes an undecided check for a failed one. What it ends in is still a model, and a smaller one is left
  exactly if a failed check missed it (`CheckSmall.ExitIsModel`, `CheckSmall.SmallerIsMissed`).
- A sort declared under a name such as "int" prints like the built-in one (`DisplaySort.NameClash`).
- The equality of requests leaves out the assigned id, so the cache may answer with another id: it is
  transparent for every backend exactly if each request is stood in for by itself and, unless what is
  prefetched only reads, no prediction fails (`Cache.ReadingAheadIsTransparent`,
  `Cache.FollowingIsTransparent`). For backends that make nothing of the id, the second condition alone counts
  (`Cache.ReadingAheadByCall`, `Cache.FollowingByCallIsTransparent`).
- Characters from 128 to 0xFF7F do not survive a remote array (`RemoteArray.StoredExact`).
- A Boolean argument is sent without a value, and a function with both `self` and a static name looks `self`
  up under that name (`Stub.StubMeetsHandler`).
- The Go handler looks at the error of the first read of a frame only: a frame cut short at the end of the
  stream is filled up with zeros and answered, unless not even its length is there or it is taken for a
  control frame (`GoHandler.CutFrameShows`).
- The Go decoder panics exactly where one of its records, or of an argument's, ends past the largest int; a
  skipped field whose length alone is too large is an error instead (`Failures.RequestPanics`,
  `Skipping.SkipNegative`).

Integers of the source are modelled with their width wherever it matters: 32- and 64-bit wrap-around, sign
extension, truncating casts. Strings of the codec are sequences of bytes. The solver is a function that
answers rightly or gives up; libraries, user code and the Go receiver's answer are function parameters.

## Model

| member | source | states |
|---|---|---|
| Wire.ReadVarintExact | golang-receiver/exchange/exchange.pb.go:1003-1016 | the varint loops accept exactly the byte strings of one to ten bytes in which all but the last have the top bit set |
| Wire.ReadVarintLocal | golang-receiver/exchange/exchange.pb.go:1003-1016 | a varint is read the same wherever it stands and whatever follows it |
| Wire.ReadVarintLoop | golang-receiver/exchange/exchange.pb.go:1003-1016 | the inline loop, with its two errors: it ends where the varint ends and keeps the low 64 (or, for int32, 32) bits of the number written |
| Wire.OrStep | golang-receiver/exchange/exchange.pb.go:1012 | the statement that ors a shifted group into a variable, of 64 bits or 32 and for any shift: with only lower bits set it adds the group at its place, less the bits that do not fit |
| Wire.ReadOneMore | golang-receiver/exchange/exchange.pb.go:1012 | so each turn of a varint loop extends the number read by one group, also when the tenth byte or, in 32 bits, any from the fifth loses bits |
| Wire.OrIsSum | golang-receiver/exchange/exchange.pb.go:825-833 | bits below a power of two and a multiple of it are joined by adding them, as in setting the top bit of a byte |
| Wire.VarintRoundTrip | golang-receiver/exchange/exchange.pb.go:825-833 | every uint64 is written in one to ten bytes, as many as its computed size, and read back from exactly these inside any other bytes |
| Wire.VarintShortest | golang-receiver/exchange/exchange.pb.go:984-993 | no other varint of the same value is shorter |
| Wire.Int32RoundTrip | golang-receiver/exchange/exchange.pb.go:1307-1322 | a negative int32 takes ten bytes, and the 32-bit loop recovers it |
| Wire.TwosComplement | golang-receiver/exchange/exchange.pb.go:1307-1322 | the conversions between 32 and 64 bits keep the low bits of every number, within the range of the result |
| Wire.VarintExample | golang-receiver/exchange/exchange.pb.go:825-833 | the bytes of 300 and of 150, as the encoding is specified |
| Wire.EncodeVarint | golang-receiver/exchange/exchange.pb.go:825-833 | the loop writes the varint at the offset, returns the index after it and changes no other byte |
| Wire.SovLoop | golang-receiver/exchange/exchange.pb.go:984-993 | the size loop returns the length of what is written |
| Skipping.SkipExact | golang-receiver/exchange/exchange.pb.go:1604-1702 | a result n within the slice means exactly that the first n bytes are one field of the encoding's grammar, with groups balanced to any depth |
| Skipping.SkipsField | golang-receiver/exchange/exchange.pb.go:1604-1702 | any field of the grammar is skipped exactly, whatever follows it |
| Skipping.SkipsFixedBytes | golang-receiver/exchange/exchange.pb.go:1637-1697 | a field of 64 bits is eight bytes after its tag, one of 32 bits four |
| Skipping.FieldOf | golang-receiver/exchange/exchange.pb.go:1604-1702 | whatever is skipped can be parsed as one field of the grammar; a lone end tag is told apart by its wire type |
| Skipping.FieldsPrefixFree | golang-receiver/exchange/exchange.pb.go:1604-1702 | no field is a proper prefix of another one |
| Skipping.SkipLocal | golang-receiver/exchange/exchange.pb.go:1604-1702 | the result does not depend on bytes after the field |
| Skipping.SkipNegative | golang-receiver/exchange/exchange.pb.go:1640-1665 | a negative result comes from one case only: a declared length whose end lies beyond the largest int |
| Skipping.SkipBound | golang-receiver/exchange/exchange.pb.go:1604-1702 | the result is a Go int |
| Skipping.SkipCoversTag | golang-receiver/exchange/exchange.pb.go:1604-1702 | a non-negative result reaches past the tag, so at least one byte is consumed |
| Skipping.SkipExchange | golang-receiver/exchange/exchange.pb.go:1604-1702 | the loop and its recursion into groups terminate and compute the specified result or error on every slice, with a panic on the empty one |
| Records.ReadRecordLocal | golang-receiver/exchange/exchange.pb.go:997-1225 | a field is decoded from its own bytes alone |
| Records.DecodeConcat | golang-receiver/exchange/exchange.pb.go:997-1225 | "Last One Wins": decoding a + b onto m is decoding b onto the result of a, with the same value, the same error and the same message left behind, for every message type; but that a length may pass the largest int, and panic, only in the longer input |
| Records.RecordMoved | golang-receiver/exchange/exchange.pb.go:997-1225 | the same for the read of one record that stands further on |
| Records.DecodeReaches | golang-receiver/exchange/exchange.pb.go:997-1225 | what a message holds when decoding ends is, without an error, the decoded value |
| Records.DecodeIsApplyAll | golang-receiver/exchange/exchange.pb.go:997-1225 | decoding succeeds exactly when the bytes are a sequence of records and each can be applied, and then applies them in order |
| Records.RecordExtent | golang-receiver/exchange/exchange.pb.go:1204-1217 | every record, declared or not, reaches as far as the skipping function would go |
| Records.ReadRecordExact | golang-receiver/exchange/exchange.pb.go:997-1225 | a record is read between two indices exactly if the bytes between them are a field of the grammar with a positive number and, for a declared number, the declared wire type, and it holds what that field says |
| Records.FieldRead | golang-receiver/exchange/exchange.pb.go:997-1225 | whatever follows it, a field is read as what it means, and refused if it means nothing to the message |
| Records.UnknownKept | golang-receiver/exchange/exchange.pb.go:1204-1217 | the fields with undeclared numbers are kept verbatim, all of them and in order |
| Records.DecodeUnknown | golang-receiver/exchange/exchange.pb.go:1204-1217 | whole undeclared fields decode to themselves and change no declared field |
| Records.KeptIsWhole | golang-receiver/exchange/exchange.pb.go:1204-1217 | what decoding keeps is a sequence of whole undeclared fields again |
| Messages.ArgumentRoundTrip | golang-receiver/exchange/exchange.pb.go:691-733 | encode, then decode, gives back every Argument: any enum value, any oneof case including its default, any key, whole undeclared fields |
| Messages.RequestRoundTrip | golang-receiver/exchange/exchange.pb.go:610-680 | the same for every MethodCallRequest with any number of arguments |
| Messages.ImportRoundTrip | golang-receiver/exchange/exchange.pb.go:745-761 | the same for every ImportRequest |
| Messages.ResponseRoundTrip | golang-receiver/exchange/exchange.pb.go:772-824 | the same for every ChannelResponse and oneof case, negative int32 included |
| Messages.EncodeInjective | golang-receiver/exchange/exchange.pb.go:610-680 | different requests have different encodings |
| Messages.DecodedRequestHolds | golang-receiver/exchange/exchange.pb.go:997-1225 | a decoded request holds the last value of each scalar, one argument per record of field 3 in order, each decoded from its own bytes, and the undeclared fields appended |
| Messages.DecodedResponseHolds | golang-receiver/exchange/exchange.pb.go:1454-1603 | of a decoded response the last declared record decides the case, with field 1 a string, 2 a number, 3 an exception and 4 a flag; without one it is as before |
| Messages.DecodedImportHolds | golang-receiver/exchange/exchange.pb.go:1374-1453 | a decoded import request holds the last name |
| Messages.DecodedArgumentHolds | golang-receiver/exchange/exchange.pb.go:1226-1373 | a decoded argument holds the last type (field 1) and key (4), and the later of the last string (2) and number (3) |
| Messages.DecodesExactly | golang-receiver/exchange/exchange.pb.go:997-1225 | a request decodes exactly when its bytes are records and all its arguments decode, whatever it is decoded onto |
| Messages.DecodeEncodeDecode | golang-receiver/exchange/exchange.pb.go:997-1225 | any input that decodes gives a request that survives encoding and decoding |
| Messages.UnknownSurvives | golang-receiver/exchange/exchange.pb.go:675-678 | decode, then encode, keeps the bytes of undeclared fields verbatim and in order, for the request and inside each argument |
| Canonical.EncodedInOrder | golang-receiver/exchange/exchange.pb.go:610-680 | an encoded request is records in ascending order of their fields, one for each argument, at most one for any other field and none of these with a default value, and then its undeclared fields |
| Canonical.RequestTakes | golang-receiver/exchange/exchange.pb.go:997-1225 | no input that decodes to a request is shorter than a length that depends on the request alone |
| Canonical.ShortestExactly | golang-receiver/exchange/exchange.pb.go:610-733 | what is written of a request is the shortest input that decodes to it exactly if no argument holds a negative number |
| Canonical.ShortestDecodes | golang-receiver/exchange/exchange.pb.go:1226-1373 | there is such a shortest input for every request, with the negative numbers cut to 32 bits |
| Canonical.ResponseBytes | golang-receiver/exchange/exchange.pb.go:782-824 | the bytes of every case of a short response |
| Canonical.RequestBytes | golang-receiver/exchange/exchange.pb.go:610-733 | the bytes of a request with all fields set |
| Objects.ArgumentObject.Size | golang-receiver/exchange/exchange.pb.go:873-913 | equals the length of the encoding |
| Objects.ArgumentObject.MarshalTo | golang-receiver/exchange/exchange.pb.go:691-733 | writes the encoding at the offset, returns its length, stays within a buffer of that size and changes no other byte |
| Objects.ArgumentObject.Marshal | golang-receiver/exchange/exchange.pb.go:681-690 | a new buffer that holds the encoding and nothing else |
| Objects.ArgumentObject.Unmarshal | golang-receiver/exchange/exchange.pb.go:1226-1373 | the object becomes the decoded value, or the specified error is returned and the object holds what was decoded before it |
| Objects.ArgumentObject.ReadType | golang-receiver/exchange/exchange.pb.go:1259-1273 | the loop works in the field itself: after an error it holds the groups read |
| Objects.ReadBounds | golang-receiver/exchange/exchange.pb.go:1086-1108 | where a length-delimited field starts and ends, with its errors; the end may wrap below zero and pass the check |
| Objects.ReadLengthDelimited | golang-receiver/exchange/exchange.pb.go:1030-1053 | a length and that many bytes, with the errors for a negative length, one beyond the end and one whose end overflows |
| Objects.ReadUnknown | golang-receiver/exchange/exchange.pb.go:1204-1217 | the default case of the field switch |
| Objects.ReadInt32 | golang-receiver/exchange/exchange.pb.go:1307-1322 | the 32-bit loop of the oneof case and the enum: the low 32 bits of the number read |
| RequestObjects.RequestObject.Size | golang-receiver/exchange/exchange.pb.go:834-872 | equals the length of the encoding, nested arguments included |
| RequestObjects.RequestObject.MarshalTo | golang-receiver/exchange/exchange.pb.go:610-680 | writes exactly the encoding through all arguments; no index out of range, no truncated copy |
| RequestObjects.RequestObject.Marshal | golang-receiver/exchange/exchange.pb.go:600-609 | a new buffer that holds the encoding and nothing else |
| RequestObjects.RequestObject.AppendArgument | golang-receiver/exchange/exchange.pb.go:1109-1112 | a new argument object is appended before its bytes are sliced, which may panic, and then filled as far as they decode |
| RequestObjects.RequestObject.UnmarshalBytes | golang-receiver/exchange/exchange.pb.go:1026-1085 | field 1, 2 or 7: the string is set, or nothing is and the error is that of the length |
| RequestObjects.RequestObject.UnmarshalBool | golang-receiver/exchange/exchange.pb.go:1115-1174 | field 4, 5 or 6: any number but 0 is true |
| RequestObjects.RequestObject.UnmarshalArgument | golang-receiver/exchange/exchange.pb.go:1086-1113 | field 3: what is appended, and the error, in each case |
| RequestObjects.RequestObject.UnmarshalField | golang-receiver/exchange/exchange.pb.go:1000-1217 | one turn of the loop reads one record and applies it to the object, or fails and leaves the trace that the code leaves |
| RequestObjects.RequestObject.Unmarshal | golang-receiver/exchange/exchange.pb.go:997-1225 | the object becomes the decoded value, earlier argument objects stay in place and untouched, new ones are fresh; or the specified error is returned and the object holds what was decoded before it, a part of an argument included |
| RequestObjects.ImportObject.Marshal | golang-receiver/exchange/exchange.pb.go:735-761 | a new buffer that holds the encoding and nothing else |
| RequestObjects.ImportObject.Unmarshal | golang-receiver/exchange/exchange.pb.go:1374-1453 | the object becomes the decoded value, or the specified error is returned and the object holds what was decoded before it |
| RequestObjects.ResponseObject.MarshalTo | golang-receiver/exchange/exchange.pb.go:772-824 | writes exactly the encoding of whichever oneof case is set |
| RequestObjects.ResponseObject.Marshal | golang-receiver/exchange/exchange.pb.go:762-771 | a new buffer that holds the encoding and nothing else |
| RequestObjects.ResponseObject.Unmarshal | golang-receiver/exchange/exchange.pb.go:1454-1603 | the object becomes the decoded value, or the specified error is returned and the object holds what was decoded before it |
| Failures.SkipPanics | golang-receiver/exchange/exchange.pb.go:1604-1702 | `skipExchange` panics exactly on the empty slice and in a group where it gets to a member that ends past the largest int |
| Failures.DecodePanics | golang-receiver/exchange/exchange.pb.go:997-1225 | `Unmarshal` panics exactly if, behind a part of the input that decodes, a record ends past the largest int or panics as it is applied; for every message type |
| Failures.RequestPanics | golang-receiver/exchange/exchange.pb.go:1086-1113 | a request panics exactly where one of its own records ends past the largest int, or at an argument that panics, behind a part that decodes |
| Failures.ArgumentPanics | golang-receiver/exchange/exchange.pb.go:1226-1373 | an argument panics exactly where one of its records ends past the largest int, behind a part that decodes |
| Failures.ModestNeverPanics | golang-receiver/exchange/exchange.pb.go:997-1225 | no request shorter than the largest int less eight bytes panics if no varint in it, read as a length, reaches past the largest int |
| Failures.ModestConcat | golang-receiver/exchange/exchange.pb.go:997-1225 | then decoding a concatenation agrees with decoding its parts in turn, in result, error and message left behind, without exception |
| Failures.HugeLengthPanics | golang-receiver/exchange/exchange.pb.go:1103-1110 | the largest int as the length of a string or argument panics; an empty argument has been appended by then |
| Failures.HalfType | golang-receiver/exchange/exchange.pb.go:1259-1273 | a `Type` cut off in its varint is left with the groups that were there, and cleared if there was none |
| NestedRpc.NoUnexpectedFrame | kotlin-dataexchange/src/main/kotlin/ru/spbstu/kspt/librarylink/ProcessDataExchange.kt:236-260 | in every reachable state, with requests and callbacks nested to any depth, at most one frame is on the wire and its reader expects its tag |
| NestedRpc.CallersGetTheirOwnAnswer | kotlin-dataexchange/src/main/kotlin/ru/spbstu/kspt/librarylink/ProcessDataExchange.kt:254-259 | each finished `sendRequest` returned the RESPONSE recorded for its own request, and each finished callback its own CALLBACK_RESPONSE, for good |
| NestedRpc.AnswersArrive | python-receiver/main.py:342-343 | along any run with its steps: what a call returned is the payload of the step that answered this very request or callback, and of no other |
| NestedRpc.RequestsArrive | python-receiver/main.py:301-303 | what a party works on is the payload of the one step that asked for it |
| NestedRpc.WellBracketed | python-receiver/main.py:231-244 | unanswered requests and callbacks form one stack: every answer closes the latest open exchange |
| NestedRpc.OnePartyMoves | python-receiver/main.py:275-282 | in every reachable state exactly one of the two parties can take a step: no deadlock and no race |
| NestedRpc.StepKeeps | python-receiver/main.py:301-343 | every step of either party keeps the invariant that relates the two call stacks, the wire and the history |
| NestedRpc.Incoming | python-receiver/main.py:238-244 | what a frame on the wire tells about both stacks, and how reading it brings them together |
| NestedRpc.FrameStopsBoth | kotlin-dataexchange/src/main/kotlin/ru/spbstu/kspt/librarylink/ProcessDataExchange.kt:236-246 | while a frame is on the wire no user code runs on either side |
| Framing.NumberRoundTrip | kotlin-dataexchange/src/main/kotlin/ru/spbstu/kspt/librarylink/ProcessDataExchange.kt:227-229 | four bytes give back every 32-bit number |
| Framing.LittleEndianExact | kotlin-dataexchange/src/main/kotlin/ru/spbstu/kspt/librarylink/ProcessDataExchange.kt:227-229 | they are the one string of four bytes that denotes the number to the base 256, least byte first |
| Framing.NumberIsBase256 | kotlin-dataexchange/src/main/kotlin/ru/spbstu/kspt/librarylink/ProcessDataExchange.kt:229 | any four bytes are read as that number |
| Framing.FrameBytes | kotlin-dataexchange/src/main/kotlin/ru/spbstu/kspt/librarylink/ProcessDataExchange.kt:192-196 | the bytes of short frames of each kind that is sent, tag codes included |
| Framing.FrameRoundTrip | kotlin-dataexchange/src/main/kotlin/ru/spbstu/kspt/librarylink/ProcessDataExchange.kt:192-217 | a frame is read back with its tag and payload, and the bytes after it are left |
| Framing.ReadFrameExact | kotlin-dataexchange/src/main/kotlin/ru/spbstu/kspt/librarylink/ProcessDataExchange.kt:201-217 | and only a frame is read as one |
| Framing.BatchIsFrames | kotlin-dataexchange/src/main/kotlin/ru/spbstu/kspt/librarylink/ProcessDataExchange.kt:262-275 | read back, a batch is START_BUFFERING, the requests in order and STOP_BUFFERING |
| Framing.ResponseAfterCallbacks | kotlin-dataexchange/src/main/kotlin/ru/spbstu/kspt/librarylink/ProcessDataExchange.kt:236-246 | after any number of callbacks, each answered in order, the first other frame is the response |
| Framing.SimpleBinaryFraming.Write | kotlin-dataexchange/src/main/kotlin/ru/spbstu/kspt/librarylink/ProcessDataExchange.kt:192-199 | the stream grows by one frame, and is flushed unless buffering |
| Framing.SimpleBinaryFraming.SetBuffering | kotlin-dataexchange/src/main/kotlin/ru/spbstu/kspt/librarylink/ProcessDataExchange.kt:219-224 | switching announces itself with a frame of its own and flushes |
| Framing.SimpleBinaryFraming.ReadResponse | kotlin-dataexchange/src/main/kotlin/ru/spbstu/kspt/librarylink/ProcessDataExchange.kt:236-246 | the loop answers every callback that comes first and returns the payload of the first other frame; whenever it waits for a frame, all answers so far have been sent |
| Framing.SimpleBinaryFraming.SendRequest | kotlin-dataexchange/src/main/kotlin/ru/spbstu/kspt/librarylink/ProcessDataExchange.kt:255-260 | one request is sent before its response is waited for |
| Framing.SimpleBinaryFraming.SendRequests | kotlin-dataexchange/src/main/kotlin/ru/spbstu/kspt/librarylink/ProcessDataExchange.kt:262-275 | writes START_BUFFERING, the requests in order and STOP_BUFFERING, all of it sent before it waits for anything, and returns one response for each request, in order |
| Reading.ReadNumBytes | golang-receiver/main.go:97-108 | exactly the next num bytes whatever the pieces in which they arrive; an error exactly when the stream is too short |
| Reading.Connection.Read | golang-receiver/main.go:101 | one read of a stream that hands out at least one byte and no more than fits; it is kept what had been sent by then |
| GoHandler.Handle | golang-receiver/main.go:138-200 | the endless loop with its buffering flag: whenever it waits for input, in the middle of a frame or between two, it has sent the replies to all whole frames so far, but for at most a buffer while buffering; in the end all replies in order, and all of them sent if it ends with buffering off |
| GoHandler.AnsweredAtOnce | golang-receiver/main.go:196-198 | so a plain request is answered before the handler waits for anything else |
| GoHandler.HandledConcat | golang-receiver/main.go:138-200 | whole frames are handled without regard to what follows, which is handled with the buffering they leave |
| GoHandler.HandledBatch | golang-receiver/main.go:138-200 | the bytes of a batch are answered in order, ending with buffering off |
| GoHandler.ResponsesOfReplies | kotlin-dataexchange/src/main/kotlin/ru/spbstu/kspt/librarylink/ProcessDataExchange.kt:270-273 | the client takes these replies apart into one response for each request |
| GoHandler.BatchRoundTrip | kotlin-dataexchange/src/main/kotlin/ru/spbstu/kspt/librarylink/ProcessDataExchange.kt:262-275 | client, handler and client again: one answer for each request, in order, nothing left over |
| GoHandler.CutFrameShows | golang-receiver/main.go:141-185 | the replies are those of the whole frames exactly if the cut frame after them is shorter than a length or, filled up with zeros, is taken for a control frame; and buffering is as they leave it unless so taken; for all answers |
| GoHandler.CutRequest | golang-receiver/main.go:148-167 | a request cut anywhere behind its length is answered as if its missing bytes were zeros |
| GoHandler.HandledSplit | golang-receiver/main.go:138-200 | the whole frames of an input are handled first, and then what is left |
| GoHandler.Reply | golang-receiver/main.go:182-192 | the three writes of a reply, through the writer |
| GoHandler.ReplyLeavesNothing | golang-receiver/main.go:140 | a writer of at least four bytes is left empty exactly by a response longer than what it has left and a whole buffer |
| Batch.StepKeeps | golang-receiver/main.go:138-200 | every step of the client, its stream, the receiver's reads and its loop keeps the invariant: nothing is lost, reordered or made up in either direction, byte for byte |
| Batch.ResponsesAnswerRequests | kotlin-dataexchange/src/main/kotlin/ru/spbstu/kspt/librarylink/ProcessDataExchange.kt:262-275 | in every state of every interleaving, with any cutting of the bytes and any early writes, the i-th response answers the i-th request, and at return there are n of them |
| Batch.StuckIffQuiescent | golang-receiver/main.go:138-200 | the system comes to rest exactly in the state with both channels and both writers empty, buffering off and the call returned |
| Batch.SomeStep | golang-receiver/main.go:138-200 | in every other state some step is possible, without any early write of the client's stream: no deadlock |
| Batch.StepDecreases | golang-receiver/main.go:97-108 | every step decreases a measure of the bytes and statements still to go |
| Batch.RunsAreBounded | kotlin-dataexchange/src/main/kotlin/ru/spbstu/kspt/librarylink/ProcessDataExchange.kt:262-275 | no interleaving is longer than the first state's measure |
| Batch.BatchCompletes | kotlin-dataexchange/src/main/kotlin/ru/spbstu/kspt/librarylink/ProcessDataExchange.kt:262-275 | an interleaving that has come to rest has returned all answers and left everything empty |
| Batch.RestAtReturn | kotlin-dataexchange/src/main/kotlin/ru/spbstu/kspt/librarylink/ProcessDataExchange.kt:262-275 | in every interleaving the channel is at rest when `sendRequests` returns exactly if the receiver's writer, of any capacity, holds back a byte of the batch's answers; otherwise there is one that returns with STOP_BUFFERING unread |
| Batch.HeldByLengths | golang-receiver/main.go:140 | in lengths: nothing is held back of an empty batch, and else exactly if the last answer fills what the writer has left and is then longer than its buffer |
| Batch.ShortAnswersRest | golang-receiver/main.go:182-192 | so a request in the batch and a last answer no longer than the buffer are enough |
| Batch.HandlerRests | golang-receiver/main.go:140-192 | the handler with its 16 KiB and its one response leaves the channel at rest after any batch but the empty one |
| Batch.SameStreams | kotlin-dataexchange/src/main/kotlin/ru/spbstu/kspt/librarylink/ProcessDataExchange.kt:262-275 | the bytes of this model are those that `sendRequests` writes and those that `handler` writes for them |
| Batch.QuietAtReturn | kotlin-dataexchange/src/main/kotlin/ru/spbstu/kspt/librarylink/ProcessDataExchange.kt:262-275 | the state form of the positive half: returned, with a byte held back until the last flush, means nothing is left |
| Batch.RepliesByMode | golang-receiver/main.go:182-198 | in any state of the receiver, a payload taken is replied to through the writer while buffering, and otherwise at once with all that was held back |
| CheckSmall.CheckSmall | benchmarks/z3javajni/src/main/java/ru/spbstu/kspt/librarylink/JavaExample.java:1917-1985 | the two nested loops, stopped after a number of checks, go through the states of the specification, also with a solver that leaves checks undecided; on exit the solver's assertions and scopes are those on entry |
| CheckSmall.CheckOnce | benchmarks/z3javajni/src/main/java/ru/spbstu/kspt/librarylink/JavaExample.java:1935-1982 | the body of the inner loop |
| CheckSmall.ExitIsMinimal | benchmarks/z3javajni/src/main/java/ru/spbstu/kspt/librarylink/JavaExample.java:1917-1985 | on exit lower equals upper, a model attains it, and no other model is as small in every term; for all constraints and any choice of models |
| CheckSmall.TurnKeeps | benchmarks/z3javajni/src/main/java/ru/spbstu/kspt/librarylink/JavaExample.java:1932-1983 | upper is the last model, lower lies below every model no larger, and what is asserted since the push excludes no such model but for the pending bound |
| CheckSmall.ExitIsModel | benchmarks/z3javajni/src/main/java/ru/spbstu/kspt/librarylink/JavaExample.java:1943-1951 | if checks may be undecided, which the code takes for failed, upper is still attained by a model on exit |
| CheckSmall.SmallerIsMissed | benchmarks/z3javajni/src/main/java/ru/spbstu/kspt/librarylink/JavaExample.java:1943-1951 | and for each smaller assignment: it is a model exactly if some failed check of the run had it to find, so that only undecided checks cost minimality |
| CheckSmall.UndecidedMisses | benchmarks/z3javajni/src/main/java/ru/spbstu/kspt/librarylink/JavaExample.java:1943-1951 | a run in which an undecided check does: it ends in 1 where 0 would do |
| CheckSmall.Satisfiable | benchmarks/z3javajni/src/main/java/ru/spbstu/kspt/librarylink/JavaExample.java:1955-1965 | a model found is no larger than the last one in any term, so each value fits a Java int |
| CheckSmall.Unsatisfiable | benchmarks/z3javajni/src/main/java/ru/spbstu/kspt/librarylink/JavaExample.java:1944-1952 | a failed check was of a pending bound that was too low; the first check after a push succeeds once there is a model |
| CheckSmall.HalfBetween | benchmarks/z3javajni/src/main/java/ru/spbstu/kspt/librarylink/JavaExample.java:1974 | the bisection bound lies between lower and upper exactly when their sum does not overflow |
| Ending.EndsExactly | benchmarks/z3javajni/src/main/java/ru/spbstu/kspt/librarylink/JavaExample.java:1930-1984 | for given constraints the search ends with every solver exactly when there is a model of non-negative Java ints and no climb of models, a condition on the constraints alone, crosses the largest int |
| Ending.Settled | benchmarks/z3javajni/src/main/java/ru/spbstu/kspt/librarylink/JavaExample.java:1930-1984 | it then ends within a stated number of checks |
| Ending.OverflowCrosses | benchmarks/z3javajni/src/main/java/ru/spbstu/kspt/librarylink/JavaExample.java:1974 | wherever the sum of the pending bounds overflows, the run has found such a climb |
| Ending.FollowClimb | benchmarks/z3javajni/src/main/java/ru/spbstu/kspt/librarylink/JavaExample.java:1932-1983 | for every climb there is a solver that leads the search along it: each check below a half fails and the next finds the next model |
| Ending.Stuck | benchmarks/z3javajni/src/main/java/ru/spbstu/kspt/librarylink/JavaExample.java:1974-1978 | once the sum overflows, a solver that keeps finding its last model leaves the bounds as they are for ever |
| Ending.RoomySettles | benchmarks/z3javajni/src/main/java/ru/spbstu/kspt/librarylink/JavaExample.java:1974 | that is so if there is a model and, below each one with a term above 2^30, one with that term at most 2^29 |
| Ending.Exits | benchmarks/z3javajni/src/main/java/ru/spbstu/kspt/librarylink/JavaExample.java:1930-1984 | it ends if there is a model of non-negative Java ints and none is above 2^30 |
| Ending.ExampleExits | benchmarks/z3javajni/src/main/java/ru/spbstu/kspt/librarylink/JavaExample.java:1989-2002 | the one call in the repository, x, y and z with x at most y + z, ends with all three zero |
| Ending.InfeasibleNeverExits | benchmarks/z3javajni/src/main/java/ru/spbstu/kspt/librarylink/JavaExample.java:1944-1952 | with no model of non-negative Java ints it checks for ever |
| Ending.ExitIsSmall | benchmarks/z3javajni/src/main/java/ru/spbstu/kspt/librarylink/JavaExample.java:1974 | it ends only in a model with no term above 2^30 |
| Ending.Limit | benchmarks/z3javajni/src/main/java/ru/spbstu/kspt/librarylink/JavaExample.java:1917-1985 | 2^30 is the limit: given only a bound on the models, the search ends for all constraints and solvers exactly when that bound is at most 2^30 |
| Retractable.AssumingIsAsserting | benchmarks/z3cpp/test_capi.c:2338-2358 | all `c or not k` under the assumption of some answer literals can be met exactly when the constraints of these literals can, if no constraint mentions an answer literal |
| Retractable.LiteralsMustNotOccur | benchmarks/z3cpp/test_capi.c:2338-2358 | a constraint that mentions one can break this: a pair of constraints that can be met, and whose query cannot |
| Retractable.ExtContext.AssertRetractable | benchmarks/z3cpp/test_capi.c:2338-2358 | a new constraint in force under the next id; the 1025th is refused |
| Retractable.ExtContext.Retract | benchmarks/z3cpp/test_capi.c:2362-2367 | changes the flag of this id only; an unknown id is refused |
| Retractable.ExtContext.Reassert | benchmarks/z3cpp/test_capi.c:2372-2377 | changes the flag of this id only; an unknown id is refused |
| Retractable.ExtContext.Assumptions | benchmarks/z3cpp/test_capi.c:2384-2397 | the answer literals in force, in order; the 1024 slots are never overrun |
| Retractable.ExtContext.CoreIds | benchmarks/z3cpp/test_capi.c:2399-2416 | the search finds an id for each core literal, or exits because one is no answer literal |
| Retractable.ExtContext.ExtCheck | benchmarks/z3cpp/test_capi.c:2382-2420 | the answer of one check, of what is asserted, under the literals in force: feasible exactly if the constraints in force can be met, unless the solver gave up; each core literal has exactly one id, in force, and the displayed constraints contradict each other; the exit that blames Z3 is not taken |
| Retractable.CoreMeans | benchmarks/z3cpp/test_capi.c:2399-2416 | the same about any core drawn from the assumptions |
| DisplaySort.Display | benchmarks/z3cpp/test_capi.c:475-526 | the printer appends the text of the sort to the stream |
| DisplaySort.DisplayTuple | benchmarks/z3cpp/test_capi.c:507-518 | the loop over the fields of a tuple |
| DisplaySort.ParseShow | benchmarks/z3cpp/test_capi.c:475-526 | a parser takes back every sort built from Booleans, numbers, bit-vectors, arrays and tuples, and stops where its text ends |
| DisplaySort.ShowParsed | benchmarks/z3cpp/test_capi.c:475-526 | and accepts nothing else |
| DisplaySort.Unambiguous | benchmarks/z3cpp/test_capi.c:475-526 | on these sorts equal text means equal sorts |
| DisplaySort.NameClash | benchmarks/z3cpp/test_capi.c:478-480 | a sort declared under a name prints like one of these exactly when the parser reads that name to its end |
| DisplaySort.NamedInt | benchmarks/z3cpp/test_capi.c:458-470 | so does one named "int", and none with a numbered symbol |
| DisplaySort.ShowExamples | benchmarks/z3cpp/test_capi.c:475-526 | texts of sorts of each kind |
| DisplaySort.ShowTuples | benchmarks/z3cpp/test_capi.c:507-518 | texts of tuples |
| Decimal.SignedInjective | benchmarks/z3cpp/test_capi.c:490-492 | two numbers are never printed the same |
| Decimal.NaturalExact | benchmarks/z3cpp/test_capi.c:490-492 | the text of a number is the one string of digits that denotes it and has no needless zero in front |
| Decimal.ReadsSigned | benchmarks/z3cpp/test_capi.c:490-492 | a printed number is read back and ends where its digits end |
| Cache.CachingExchange.MakeRequest | kotlin-dataexchange/src/main/kotlin/ru/spbstu/kspt/librarylink/ProcessDataExchange.kt:887-902 | a request is answered from the queue, or clears it and goes to the backend with what is foreseen |
| Cache.Backend.MakeRequests | kotlin-dataexchange/src/main/kotlin/ru/spbstu/kspt/librarylink/ProcessDataExchange.kt:897 | a batch is answered one for one, in order |
| Cache.OneBatch | kotlin-dataexchange/src/main/kotlin/ru/spbstu/kspt/librarylink/ProcessDataExchange.kt:887-902 | a list that is foreseen goes to the backend once, in one batch, and answers as many requests as come as foreseen |
| Cache.MissForgets | kotlin-dataexchange/src/main/kotlin/ru/spbstu/kspt/librarylink/ProcessDataExchange.kt:889-893 | a request that does not come as foreseen, and all after it, are served as if nothing had been queued |
| Cache.ReadingAhead | kotlin-dataexchange/src/main/kotlin/ru/spbstu/kspt/librarylink/ProcessDataExchange.kt:886-906 | with read-only prefetching the client gets what the bare backend answers to the requests that stand in for its own, and leaves that state |
| Cache.ReadingAheadIsTransparent | kotlin-dataexchange/src/main/kotlin/ru/spbstu/kspt/librarylink/ProcessDataExchange.kt:886-906 | for any manager and run: all backends for which what is prefetched only reads give the client the responses of the bare backend exactly if every request is stood in for by itself, its id included; failed predictions do not matter |
| Cache.FollowingIsTransparent | kotlin-dataexchange/src/main/kotlin/ru/spbstu/kspt/librarylink/ProcessDataExchange.kt:886-906 | all backends, whatever their requests change, do so exactly if, besides, no prediction fails: enough for states of any type, and necessary with numbers as states |
| Cache.LogIsAhead | kotlin-dataexchange/src/main/kotlin/ru/spbstu/kspt/librarylink/ProcessDataExchange.kt:886-906 | the backend's log is what stood in for the client's requests followed by those still queued exactly when no prediction failed |
| Cache.OnlyIdsDiffer | kotlin-dataexchange/src/main/kotlin/ru/spbstu/kspt/librarylink/ProcessDataExchange.kt:889 | with a manager whose lists are headed by the request, what stands in for it can differ in the assigned id only |
| Cache.ReadingAheadByCall | kotlin-dataexchange/src/main/kotlin/ru/spbstu/kspt/librarylink/ProcessDataExchange.kt:886-906 | with such a manager and read-only prefetching, a backend that makes nothing of the assigned id gives the client the responses of the bare backend in every run, and is left in the same state |
| Cache.FollowingByCallIsTransparent | kotlin-dataexchange/src/main/kotlin/ru/spbstu/kspt/librarylink/ProcessDataExchange.kt:886-906 | if its requests may change its state as well, exactly in the runs in which no prediction fails |
| Cache.FailedPrediction | kotlin-dataexchange/src/main/kotlin/ru/spbstu/kspt/librarylink/ProcessDataExchange.kt:892 | a run in which a prediction fails |
| Cache.OtherId | kotlin-dataexchange/src/main/kotlin/ru/spbstu/kspt/librarylink/ProcessDataExchange.kt:315-332 | a run in which a request is taken for one with another id, which are equal as data classes |
| RemoteArray.StoredExact | cpp-receiver/helpers.h:46-77 | a character survives storing and reading exactly if it is below 128 or at least 0xFF80 |
| RemoteArray.StoredAllExact | kotlin-dataexchange/src/main/kotlin/ru/spbstu/kspt/librarylink/ProcessDataExchange.kt:574-578 | a collection reads back as it was exactly if all its characters survive |
| RemoteArray.IdsRepeatAfterWrap | cpp-receiver/main.cpp:230-231 | two uses of the counter give the same id exactly when it has gone round between them, any number of times |
| RemoteArray.Receiver.AssignId | cpp-receiver/main.cpp:227-232 | an empty request for an id gets one not in use, until the counter wraps |
| RemoteArray.NewId | cpp-receiver/main.cpp:277-279 | the same for any set of ids issued so far |
| RemoteArray.Receiver.AllocateChars | cpp-receiver/helpers.h:22-34 | a new array of zeros under a new id; nothing stored is replaced |
| RemoteArray.Receiver.AllocateHandles | cpp-receiver/helpers.h:22-34 | the same for library types |
| RemoteArray.Receiver.SetHandle | cpp-receiver/helpers.h:36-45 | the value behind the id is copied into the cell |
| RemoteArray.Receiver.GetHandle | cpp-receiver/helpers.h:58-68 | a copy of the element under a new id |
| RemoteArray.CharArrayHandle.constructor | kotlin-dataexchange/src/main/kotlin/ru/spbstu/kspt/librarylink/ProcessDataExchange.kt:574-578 | allocate and set element by element: a new array holds what is read back of each character |
| RemoteArray.CharArrayHandle.Set | kotlin-dataexchange/src/main/kotlin/ru/spbstu/kspt/librarylink/ProcessDataExchange.kt:603-618 | returns the old value and changes this cell of this array only |
| RemoteArray.CharArrayHandle.ToList | kotlin-dataexchange/src/main/kotlin/ru/spbstu/kspt/librarylink/ProcessDataExchange.kt:586-594 | reads back the contents and changes none |
| RemoteArray.HandleArrayHandle.constructor | kotlin-dataexchange/src/main/kotlin/ru/spbstu/kspt/librarylink/ProcessDataExchange.kt:574-578 | each cell denotes the value of its source handle; nothing stored is lost or replaced |
| RemoteArray.HandleArrayHandle.Set | kotlin-dataexchange/src/main/kotlin/ru/spbstu/kspt/librarylink/ProcessDataExchange.kt:603-618 | returns a new handle to the old value and changes this cell only |
| Stub.GenerateArgs | generator/src/main/kotlin/ru/spbstu/kspt/librarylink/generator/GeneratorST.kt:21-29 | the argument objects in declared order, those that are not `self` numbered in place by their rank among their like |
| Stub.IndexIsPosition | generator/src/main/kotlin/ru/spbstu/kspt/librarylink/generator/GeneratorST.kt:27 | the index in the handler's list is the position in the stub's list, wherever `self` stands |
| Stub.ParameterArrives | generator/src/main/resources/generator/cpp.stg:36-52 | one parameter arrives as passed, but for `self` under a static name and a Boolean that is true |
| Stub.StubSends | generator/src/main/kotlin/ru/spbstu/kspt/librarylink/generator/GeneratorST.kt:71-86 | for every signature: the static name if there is one, else `self`, else nothing, and each other parameter at its rank as id, number or no value |
| Stub.HandlerGives | generator/src/main/resources/generator/cpp.stg:36-52 | what the native function gets for each kind of parameter: the object behind an id, a number, and for `self` the object or a pointer to it |
| Stub.StubMeetsHandler | generator/src/main/resources/generator/kotlin.stg:55-72 | the native function gets `self` and every argument in declared order as in a direct call, exactly when `self` is not looked up under another static name and no Boolean argument is true |

## Left out

- CheckSmall.CheckSmall: is stopped after a given number of checks, since a Dafny method must end; the lemmas about its states have no such bound.
- Batch.HeldByLengths: is about writers of at least four bytes; `Batch.RestAtReturn` is about all. The rule of Go's buffered writer is its documented behaviour, for its code is not part of the repository.
- DisplaySort.Unambiguous: is about finite sorts; a datatype that contains itself would send the printer into endless recursion. What `Z3_sort_to_string` prints is a parameter.
- Decoding slices longer than the largest int, which Go does not have; nil arguments; nil and empty unrecognized bytes are not told apart; error texts are error kinds.
- C++ and Python protobuf output and the Go functions that delegate to the protobuf runtime: their code is not part of the repository.
- Channels in `NestedRpc` and `Batch` are unbounded queues: a socket that is full and blocks its writer is not modelled. Kotlin reads are full reads; `readByteArray` fails on a short one.
- In the nested protocol callbacks return normally, one thread uses the channel (`sendRequest` is synchronized), payloads are opaque, and the delete and channel-opening tags are not sent.
- Batches combined with callbacks from the receiver: the Go receiver makes none, and the Python receiver does not accept the buffering tags.
- The C++ receiver in the nested protocol: its `do_callback` does not read the callback's response.
- Concurrent channels on one `persistence` map of the C++ receiver; freeing of objects; `strlen` on remote arrays; out-of-range positions, which the C++ code does not check; arrays of int, whose elements the Kotlin client sends in place while the C++ template looks for an id.
- Return values of generated handlers, string arguments, constructors, callbacks classes and the merging of models in the generator; the model parser is not part of this model.
- `DynamicCacheManager`: its prefetch list is empty; any manager is a parameter of `Cache`.
- JSON exchange, WebSocket bridge, JavaScript sender, log reader, process management, phantom-reference cleanup, and the other Z3 examples: input and output plumbing that would add easy members only.
