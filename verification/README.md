# Embedded application protocols: a verified model

This project models the byte-level cores of a collection of small application protocols for
embedded network stacks and proves what they do, for every input and every run:

* **HTTP chunked transfer** (`HttpUtil`, `ChunkedCoding`, `ChunkSizes`, `Sockets`, `HttpServer`,
  `CutWrites`, `HttpClientBody`, `ChunkwiseReading`, `ChunkedTransfer`): the server's per-connection state machine, a byte pipe
  that takes and delivers any number of bytes at a time, and the client's resumable reader. The
  reader is proved to follow a byte automaton. The automaton is proved against the form of section
  3.6.1 of RFC 2616 that the server writes (lower-case sizes without leading zeros, a single zero
  for the last chunk, no trailer), and against all the bodies of that section, with the exact
  condition under which one is read rightly. The server's wire is proved to be a sequence of such
  frames, and the three are joined end to end.
* **HTTP request sending** (`RequestSender`, `Multipart`, `MultipartReading`, `MultipartRequest`): the
  parts of a request and their resumption after partial writes, and the multipart body whose length is
  counted by one function and whose bytes are laid out by another, against a reader of such bodies
  after section 5.1.1 of RFC 2046.
* **MQTT 3.1.1 packets** (`MqttPackets`, `MqttSerializer`): the remaining length, the cursor
  stream, every serializer and deserializer in the dispatch tables, and the ownership flags.
  Readers written from the standard alone are the reference; they do not look at what characters
  make up a text.
* **MQTT packet list** (`Heap`, `MqttList`): the doubly linked list on the heap against the
  sequence of its elements, with allocations and frees accounted for.
* **WebSocket frames** (`Websocket`): the client's frame writer and its pong, against a reader
  of frames after sections 5.2 and 5.3 of RFC 6455.
* **Fortuna** (`Fortuna`): the 128-bit counter, the seed that comes of the entropy pools, the block
  generator and the request loop, with the cipher and the hash as arbitrary functions.

Objects that the source updates in place are classes; loops are loops. How much a socket takes of
each write, and which requests for memory are granted, is settled by plans that can be any, so what
is proved holds for all of them, and success can be tied to no request having been refused.
Callbacks only note the event. Assertion macros are taken as in a build without debugging, where they do nothing. An
uninitialised `c` in the two chunk-line readers is taken as no delimiter. Strings are C strings
without the final zero.

## Where the code and what is promised for it differ

The model follows the code. Each of these is a proved statement, with its exact condition.

* The server writes a size line, the line end after a chunk and the last chunk once, and does not
  make up for a short count. The body on the wire is the intended one exactly when no such write
  was cut short (`HttpServer.Transcript.WireExact`). A last chunk or a last line end that is cut short
  makes no wrong byte (`ChunkedTransfer.EndToEnd`), but if a size line or another line end was, the user
  of the client may be given bytes that were never submitted (`ChunkedTransfer.CutSizeLine`,
  `ChunkedTransfer.CutLineEnd`). In terms of lengths and counts taken, the exact condition under which
  the client is right whatever the data is `CutWrites.RightExactly`.
* A response for which there is no memory is left waiting for data with no header sent
  (`HttpServer.Connection.Respond`), and its body then goes out without one
  (`ChunkedTransfer.MissingHeader`). After the first chunk a static response goes on as one whose
  data is copied (`HttpServer.Connection.EndChunk`).
* The reader passes over upper-case digits of a chunk size and takes a leading zero for the last
  chunk, and its sizes wrap at 2^32; these are exactly the sizes it gets wrong
  (`ChunkSizes.SizeReadIff`). It ends a size line at the first line feed, so one in a quoted string
  of an extension makes data of what follows (`ChunkSizes.FoldedExtension`), unless no digit of the
  size was taken, when the rest of the extension is read as another size
  (`ChunkSizes.RightByChance`). The exact condition is `ChunkSizes.DecodedExactly`, in terms of
  sizes and extensions `ChunkSizes.ReadableExactly`.
* The reader goes on after the last chunk as if more chunks followed, so that lines of a trailer, too,
  must announce nothing to it (`ChunkSizes.DecodedExactly`). Nothing comes of it in the call that
  sees the end, but if the end was seen while the response's header was read, the first call may give
  out part of a trailer as data (`ChunkedTransfer.ReadToEnd`, `ChunkedTransfer.TrailerGivenOut`).
* Outside long polling, `body_read_done` is not cleared before the next response on the same
  connection, so it tells the truth about a body exactly when it was clear before
  (`ChunkedTransfer.DoneTruthfulIff`).
* `list_add` counts the new element before it looks for its place from the back, so in the back
  half it inserts one place early (`MqttList.PacketList.ListAdd`).
* The text of Content-Length has room for five digits, and string lengths for 16 bits, so the header
  is right precisely for short strings and a body below 100000 bytes
  (`Multipart.ContentLengthExact`, `Multipart.SixDigits`).
* A multipart chunk for one of whose strings there is no memory is made without it, with the length
  kept and nobody told, and without memory for the data the data is copied to nowhere
  (`Multipart.MultipartChunkCreate`).
* The buffer for multipart headers is as large as the length fields say, and so too small for a
  string of 65536 bytes (`MultipartRequest.LongString`).
* A multipart chunk with a type and no disposition is sent with the empty line that ends the header
  ahead of the type, and nothing in a name or filename is quoted; the exact condition under which a
  body is read as meant is `MultipartReading.BodyReadable`.
* When memory runs out while a multipart request is built, the parts made so far stay, and are sent
  and reported as a success at the next write event (`MultipartRequest.SendPostMultipart`,
  `MultipartRequest.TruncatedPost`).
* Progress is reported after the last write of an event took something, not when any of them did
  (`RequestSender.Sender.TreatWriteEvent`, `RequestSender.SilentProgress`).
* The remaining length holds 28 bits and a field length 16, and nothing checks either, nor an id of
  zero, a duplicate without a quality of service, or an empty client id without a clean session
  (`MqttPackets.LengthFieldExact`, `MqttPackets.PublishReadable`, `MqttPackets.ConnectReadable`,
  `MqttPackets.SubscribeReadable`). A packet of 2^32 bytes or more is given a stream that is too short
  (`MqttSerializer.Serializer.Serialize`).
* A received field that ends where the message ends is taken for an empty one, so a PUBLISH with
  an empty message is refused (`MqttPackets.DeserializeMeetsStandard`), and the reader of a
  PUBLISH can run off the end of the message (`MqttPackets.PublishOverreadIff`).
* All acknowledgements are reported as type 4 (`MqttSerializer.Serializer.DeserializeAcknowledge`),
  and UNSUBSCRIBE is written with a trailing octet that section 3.10.3 of MQTT 3.1.1 has no place
  for (`MqttPackets.UnsubscribeUnreadable`, `MqttPackets.UnsubscribeReadableWithout`).
* The deserializers do not look at reserved bits, take no length but in its minimal form outside
  PUBLISH, take an id of zero, and refuse a SUBACK with several return codes or a refusal
  (`MqttPackets.ConnackAgainstStandard`, `MqttPackets.SubackAgainstStandard`,
  `MqttPackets.AckAgainstStandard`, `MqttPackets.PingAgainstStandard`).
* A message in a block that the serializer owns is freed before it is read, and one in its own
  buffer of length digits zeroed (`MqttSerializer.Serializer.Deserialize`).
* `pico_mqtt_serializer_clear` leaves the topic and the message pointing at what it has freed. A
  PUBLISH with a quality of service of 3 is refused after its type has been noted, and what is
  serialized next is then copied from there (`MqttSerializer.FreedTopic`), which nothing else leads to
  (`MqttSerializer.TaintedExactly`).
* `pico_mqtt_serializer_total_reset` forgets owned blocks, a second serialization loses the first
  stream, and a PUBLISH with an empty topic, or with an id and nothing after it, leaves a block of
  no bytes behind; nothing else leaks (`MqttSerializer.Serializer.TotalReset`,
  `MqttSerializer.Serializer.Serialize`, `MqttSerializer.Serializer.Deserialize`,
  `MqttSerializer.AnyCalls`).
* A pong repeats the header of the ping, so it is a whole frame exactly when that header has no
  extended length and the payload was not cut to the user's buffer (`Websocket.PongExact`); `ws_write_rsv` leaves the user's data masked
  (`Websocket.Client.WriteRsv`, `Websocket.MaskChanges`).
* The size of a seed is cut to eight bits: a reseed takes nothing of the entropy pools when an odd
  number of the lowest seven bits of the counter is set, and otherwise the first four pools that are
  used (`Fortuna.SeedIs`, `Fortuna.Generator.Reseed`).
* `pico_rand_bytes` ignores the result of each block, so an unseeded generator, or one whose
  counter comes round to zero, reports success (`Fortuna.Generator.RandBytes`,
  `Fortuna.UnseededOutput`).

## Model

| member | source | states |
|---|---|---|
| HttpUtil.NumeralSound | libhttp/pico_http_util.c:64-108 | a number's digit string has that value, only digits of the base and no leading zero |
| HttpUtil.NumeralUnique | libhttp/pico_http_util.c:64-108 | it is the only such string: any digit string without a leading zero is the numeral of its own value |
| HttpUtil.ReverseDigits | libhttp/pico_http_util.c:72-84 | the in-place swap loop turns the first digits round and leaves the rest of the array alone |
| HttpUtil.EmitDigits | libhttp/pico_http_util.c:66-71 | the division loop leaves the digits least significant first and counts them |
| HttpUtil.ItoaHex | libhttp/pico_http_util.c:64-85 | the array holds the lower-case hexadecimal numeral and a final zero, and the size is its length; nothing for 0 |
| HttpUtil.Itoa | libhttp/pico_http_util.c:87-108 | the same in decimal for a 32-bit number |
| HttpUtil.NumeralLength | libhttp/pico_http_util.c:64-108 | a number below base^e has at most e digits, which bounds the callers' arrays |
| ChunkedCoding.RunConcat | libhttp/pico_http_client.c:2194-2255 | reading two pieces one after the other is reading them at once: state and output do not depend on the cut |
| ChunkedCoding.RunMonotone | libhttp/pico_http_client.c:1787-1873 | reading on never takes back delivered bytes or the end of the body |
| ChunkedCoding.RunSize | libhttp/pico_http_client.c:2219-2241 | the shift-and-add loop reads every hexadecimal numeral the server prints back to its number, and no part of it ends the body |
| ChunkedCoding.RunLineEnd | libhttp/pico_http_client.c:2202-2218 | an extension after a semicolon and the line end are skipped, however they are cut |
| ChunkedCoding.RunFrame | libhttp/pico_http_client.c:1751-1813 | any part of a frame yields the chunk data in it, by position alone, and a whole frame brings the reader back to where it started |
| ChunkedCoding.RunLastChunk | libhttp/pico_http_client.c:2230-2235 | the body ends with the first byte of the last chunk, which yields no data |
| ChunkedCoding.DecodeExact | libhttp/pico_http_client.c:1725-1813 | for every body of the form the server writes, with extensions that have no line feed, cut anywhere, the output is the chunk data before the cut, and the end is reported exactly from the last chunk on |
| ChunkedCoding.DecodeSafe | libhttp/pico_http_client.c:1824-1873 | on such a body the output is always a prefix of the payload, and all of it once the end is reported |
| ChunkSizes.SizeReadIff | libhttp/pico_http_client.c:2219-2241 | of all the chunk sizes that RFC 2616 allows, the reader takes one for the number it denotes exactly when it has no upper-case digit and no leading zero and is below 2^32 |
| ChunkSizes.TwoSizes | libhttp/pico_http_client.c:2219-2241 | the size A is passed over, and the size 04 ends the body |
| ChunkSizes.LineReads | libhttp/pico_http_client.c:2202-2255 | a size line that satisfies the condition on its text announces the chunk's data and hands out nothing |
| ChunkSizes.WrongCut | libhttp/pico_http_client.c:2202-2255 | after any other size line there is a place in the chunk up to which the reader has handed out something else or reported the end |
| ChunkSizes.ChunkRightIff | libhttp/pico_http_client.c:2202-2255 | where a digit of the size is taken, or no line feed is in the extension, the condition is that the size is readable and the extension has no line feed |
| ChunkSizes.FoldedExtension | libhttp/pico_http_client.c:2202-2218 | a size of 1 with a line feed in its extension: the byte after the line feed is handed out as data |
| ChunkSizes.RightByChance | libhttp/pico_http_client.c:2202-2241 | a size of A that is passed over, with a line feed in its extension, after which the same number is found |
| ChunkSizes.RunNothing | libhttp/pico_http_client.c:2202-2255 | lines none of which announces anything to the reader bring it back to where it started, with nothing handed out |
| ChunkSizes.SomethingGiven | libhttp/pico_http_client.c:2202-2255 | after any other lines the reader hands out some byte |
| ChunkSizes.DecodedExactly | libhttp/pico_http_client.c:1725-1813 | of all the bodies that section 3.6.1 of RFC 2616 allows, with extensions and trailers of all kinds, the reader decodes one rightly at every cut exactly when every size line satisfies the condition and no line after the last chunk's zeros announces anything |
| ChunkSizes.ReadableExactly | libhttp/pico_http_client.c:1725-1813 | the same in terms of sizes and extensions for bodies without a trailer: every size readable and no extension with a line feed, provided none follows a size of which no digit is taken or the last chunk's zeros |
| ChunkSizes.EndLineIsLast | libhttp/pico_http_client.c:2230-2255 | the line that brings the end of a rightly read body is that of the last chunk, and reading stops within it, whatever follows |
| ChunkSizes.PayloadAtEnd | libhttp/pico_http_client.c:1787-1873 | a reader that hands out nothing after the line that brings the end has handed out the payload, whatever follows: the rest of an extension, a trailer, or another response |
| ChunkSizes.ServerForm | libhttp/pico_http_server.c:487-558 | what the server writes consists of size lines that are read rightly |
| Sockets.InSocket.Read | libhttp/pico_http_client.c:1725-1749 | a read gives the next bytes in order, any number that have arrived, and at least one if some have |
| Sockets.OutSocket.Write | libhttp/pico_http_server.c:844-872 | a write puts some first part of the bytes at the end of the wire |
| HttpClientBody.HttpClient.StartReadingBody | libhttp/pico_http_client.c:2009-2022 | the automaton starts afresh, except that an old end-of-body flag is kept |
| HttpClientBody.HttpClient.SetClientChunkState | libhttp/pico_http_client.c:2194-2201 | with nothing left of a chunk the next thing to read is a size, and else nothing changes |
| HttpClientBody.HttpClient.ReadChunkTrail | libhttp/pico_http_client.c:2202-2218 | follows the automaton up to the line feed or until nothing is here; reads a byte if one is here |
| HttpClientBody.HttpClient.ReadChunkValue | libhttp/pico_http_client.c:2219-2241 | follows the automaton up to the end of the size or until nothing is here; reads a byte if one is here |
| HttpClientBody.HttpClient.ReadChunkLine | libhttp/pico_http_client.c:2243-2255 | reads no chunk data, delivers nothing, stops at the first line end, makes progress when a size line is due and a byte is here, and notes the line that brings the end |
| HttpClientBody.HttpClient.ReadBodyPart | libhttp/pico_http_client.c:1717-1749 | the socket is asked for as much as the chunk has left and the buffer has room, and what it gives goes to its place |
| HttpClientBody.HttpClient.ReadSmallChunk | libhttp/pico_http_client.c:1774-1786 | a buffer smaller than what is left of the chunk is served by one read, which asks for the whole buffer |
| HttpClientBody.HttpClient.Round | libhttp/pico_http_client.c:1701-1749 | one read and the line after it, if the chunk ends; if all is here, where the loop stops does not depend on how much the read gave |
| HttpClientBody.HttpClient.ReadBigChunk | libhttp/pico_http_client.c:1701-1772 | the loop goes on until the chunk is done, the buffer full or nothing that had arrived is left; if all is here, where it stops is fixed, however the socket deals the bytes out; the fields stay on the automaton |
| HttpClientBody.HttpClient.ReadChunkedData | libhttp/pico_http_client.c:1787-1813 | exactly the automaton's new output is put at the front of the buffer: after the line the rest of the chunk, or all that had arrived, and at least one byte of a chunk that does not fit; if all is here, where the call stops is fixed but for how much one read gives of such a chunk |
| HttpClientBody.HttpClient.ReadBody | libhttp/pico_http_client.c:1824-1873 | the same, with the fields and the delivered bytes those of the automaton on what was consumed; the caller's flag is set exactly when the end of the body has been seen; the call that sees it hands out nothing after the line that brought it, if that announced nothing |
| ChunkwiseReading.OneChunk | libhttp/pico_http_client.c:1751-1813 | from the end of a size line of the server's, a call with room for the chunk stops at the end of the next one |
| ChunkwiseReading.NextPart | libhttp/pico_http_client.c:1751-1813 | wherever in the body that is, the call gives exactly the chunk, and sees the end exactly if it was the last |
| ChunkwiseReading.ReadByChunks | libhttp/pico_http_client.c:1824-1873 | if all of a body of the server's is here and every chunk fits the buffer, however the socket deals the bytes out, calling until done gives the chunks one by one, and the call that gives the last reports the end |
| HttpServer.FrameEnds | libhttp/pico_http_server.c:487-558 | a size line, the data and a line end laid after complete frames are again complete frames |
| HttpServer.WireFramesExact | libhttp/pico_http_server.c:844-885 | the frames on the wire are never longer than the intended ones, and are these exactly when every control write was taken in full |
| HttpServer.Transcript.WireExact | libhttp/pico_http_server.c:844-885 | the body on the wire is the expected one, and no byte lost, exactly when every size line, every line end that is due and the last chunk were taken in full |
| HttpServer.Transcript.WireWithinBody | libhttp/pico_http_server.c:844-885 | with every size line and line end taken in full the wire holds the beginning of the well-formed body of the chunks submitted, short of its last chunk until finished |
| HttpServer.Transcript.Started | libhttp/pico_http_server.c:545-552 | announcing a chunk keeps the wire invariant, with the accepted part of the size line noted and the rest counted as lost |
| HttpServer.Transcript.Advanced | libhttp/pico_http_server.c:844-872 | sending more of the buffer keeps the wire invariant |
| HttpServer.Transcript.Ended | libhttp/pico_http_server.c:857-869 | the line end completes the frame in flight |
| HttpServer.Transcript.Finished | libhttp/pico_http_server.c:874-885 | the last chunk completes the body |
| HttpServer.Connection.ReadEvent | libhttp/pico_http_server.c:144-154 | only a connection that awaits a request moves and no body byte goes out; a complete request is signalled by EV_HTTP_REQ, a refused one by EV_HTTP_ERROR after the accepted part of the error header, an incomplete one not at all |
| HttpServer.Connection.Respond | libhttp/pico_http_server.c:409-471 | refused except when a response is awaited; the accepted part of the header goes out and its length is returned, of which eight bits for a resource that was found; without memory no header goes out and an error is returned, but the state moves on |
| HttpServer.Connection.SubmitData | libhttp/pico_http_server.c:487-558 | accepted exactly in a waiting state and with memory for a copy where one is needed; the chunk list grows by exactly the user's bytes, copied or not by state, and the size line is written; no data means the last chunk |
| HttpServer.Connection.SendBuffer | libhttp/pico_http_server.c:844-853 | the rest of the buffer is written until a write takes nothing, with one EV_HTTP_PROGRESS for each that takes something and no other event |
| HttpServer.Connection.SendData | libhttp/pico_http_server.c:844-872 | stays in a sending state only if its last write took nothing, which was the only one unless there was progress; otherwise the whole buffer and its line end are written; its events are one EV_HTTP_PROGRESS for each write of data that took something, and then EV_HTTP_SENT if the line end was taken |
| HttpServer.Connection.EndChunk | libhttp/pico_http_server.c:855-870 | the line end is tried again after a zero count; otherwise the buffer is dropped, EV_HTTP_SENT fires once and the state is that of non-static data |
| HttpServer.Connection.SendFinal | libhttp/pico_http_server.c:874-885 | the last chunk is tried again after a zero count, and otherwise closes the connection with the accepted part noted |
| HttpServer.Connection.WriteEvent | libhttp/pico_http_server.c:156-166 | does nothing unless something is being sent, and else what is promised, events and all, of sending data or the last chunk |
| HttpServer.FinishChunk | libhttp/pico_http_server.c:844-872 | on a socket that does not stop taking bytes for good, write events lead to EV_HTTP_SENT, after nothing but EV_HTTP_PROGRESS, whatever part each write takes; the line end is whole if a write that takes anything takes ten bytes |
| HttpServer.ServeEnd | libhttp/pico_http_server.c:874-885 | on such a socket the last chunk goes out, or some of it, and the connection closes, with nothing else changed |
| HttpServer.Served | libhttp/pico_http_server.c:487-558 | once the last chunk is out there has been an EV_HTTP_SENT for each chunk, and the body is the right one exactly when no control write was cut short |
| HttpServer.ServeAll | libhttp/pico_http_server.c:487-558 | on a socket that takes any part of each write but does not stop taking bytes for good, any number of submissions with their write events and a last one without data all go out, with EV_HTTP_SENT once for each chunk and no other event but EV_HTTP_PROGRESS, and close the connection; only a lack of memory prevents it. The body is the right one exactly when no control write was cut short; only size lines can be if a write that takes anything takes ten bytes, and nothing if every write does |
| CutWrites.RunWireFrames | libhttp/pico_http_client.c:2194-2255 | chunks with whole size lines, of which only the last may have half a line end, are read to the payload, with the reader back at its start or, after half a line end, skipping |
| CutWrites.HarmlessIsRight | libhttp/pico_http_client.c:1824-1873 | such a body is read rightly at every cut, and its end reported exactly when the last line end was not cut in half and something was taken of the last chunk |
| CutWrites.HarmDone | libhttp/pico_http_server.c:844-872 | if a size line was cut, or a line end before the last in half, there are data of the same lengths for which the client is wrong |
| CutWrites.RightExactly | libhttp/pico_http_server.c:844-872 | for given lengths and counts taken, the client is right at every cut for all data exactly when every size line was taken in full and no line end but the last was cut in half; it also reports the end for all of them exactly when that one was not either and something was taken of the last chunk |
| CutWrites.ServerCuts | libhttp/pico_http_server.c:844-872 | what a connection has on its wire is the body with those counts, or as much of it as has gone out |
| ChunkedTransfer.EndToEnd | libhttp/pico_http_client.c:1824-1873 | with no size line cut short and no line end but the last, what the client's user holds is a prefix of all submitted bytes, and the end is reported only when it is all of them and the server has closed |
| ChunkedTransfer.CutSizeLine | libhttp/pico_http_server.c:548-552 | for every shorter part of a size line a run of the server in which only that is taken, and the client's user is given bytes that were never submitted |
| ChunkedTransfer.CutLineEnd | libhttp/pico_http_server.c:857-869 | a run in which only the first byte of a line end is taken, with the same outcome |
| ChunkedTransfer.MissingHeader | libhttp/pico_http_server.c:431-436 | a run in which there is no memory for the header and the whole body goes out without one, so that the client, which wants HTTP/1. first (libhttp/pico_http_client.c line 2159), takes nothing for a response |
| ChunkedTransfer.DoneTruthfulIff | libhttp/pico_http_client.c:1860-1868 | the end-of-body flag is right about every well-formed body exactly when it was clear before that body |
| ChunkedTransfer.SoundIsSafe | libhttp/pico_http_client.c:1787-1873 | what holds between any two moves implies the end-to-end promise, for a response whose header went out whole and of which no size line was cut short and no line end but the last |
| ChunkedTransfer.Transfer.Step | libhttp/pico_http_server.c:117-187 | every move of the server's peer, user and socket, of the pipe and of the client's user, with any arguments, makes of the view one that the move allows, with the events signalled and the reply that it must have, and keeps the promise |
| ChunkedTransfer.Traffic | libhttp/pico_http_server.c:487-558 | over any run the chunks submitted are the buffers whose submission was reported as a success, in order, and the bytes delivered those in the replies to reads |
| ChunkedTransfer.AnyRun | libhttp/pico_http_server.c:117-187 | for any sequence of moves from a new connection on, over any socket and with any memory, every step is one its move allows and, after each, under the proviso of the promise, the bytes received are a beginning of the bytes accepted, and all of them if the last reply says that the body has ended |
| ChunkedTransfer.ReadToEnd | libhttp/pico_http_client.c:1824-1873 | for any chunks that are read rightly, with anything after the last chunk's line, a user who calls until done gets the whole payload, in at most one call more than there were bytes, if something arrives before each call; no trailer may follow if the end was seen before the first call |
| ChunkedTransfer.TrailerGivenOut | libhttp/pico_http_client.c:2009-2022 | a run in which it was seen, a trailer follows an empty body, and the user is given part of it as data |
| ChunkedTransfer.Drain | libhttp/pico_http_client.c:1824-1873 | once the server has closed with every control write taken in full and all of the body has been passed on, reading until done gives the client's user exactly the bytes that were accepted, wherever it had come to |
| ChunkedTransfer.ReadAll | libhttp/pico_http_client.c:1824-1873 | calling until one reports the end or there is nothing more to read comes to an end, with everything delivered accounted for |
| ChunkedTransfer.HasAll | libhttp/pico_http_client.c:1824-1873 | if no size line was cut short and no line end but the last, the user then has all submitted bytes, and has been told of the end exactly when the last line end was not cut either |
| ChunkedTransfer.WholeResponse | libhttp/pico_http_server.c:409-558 | from the request to the end, over a socket that takes any part of each write but does not stop taking bytes for good: unless memory is refused everything is sent and the connection closed, and a user of the client that reads until the end has exactly the bytes of all the buffers, in order, if no size line was cut short and no line end but the last; only a size line can be if a write that takes anything takes ten bytes, and nothing if every write does |
| RequestSender.PositionInside | libhttp/pico_http_client.c:213-218 | what is left of a part is the next stretch of the request after all that precedes it |
| RequestSender.TotalDoneIs | libhttp/pico_http_client.c:1181-1188 | the sum of all the counts is the position reached in the concatenated parts |
| RequestSender.Sender.DestroyParts | libhttp/pico_http_client.c:181-203 | exactly the buffers copied to the heap or not the user's are given back, in order |
| RequestSender.FreedExactly | libhttp/pico_http_client.c:181-203 | a buffer is given back, once and in order, exactly if it was copied to the heap or is not the user's |
| RequestSender.Sender.WritePart | libhttp/pico_http_client.c:215-218 | the socket takes the next bytes of one part and the counts follow |
| RequestSender.Sender.WriteParts | libhttp/pico_http_client.c:213-252 | what went out is the next bytes of the request; parts before the one reached are complete and parts after it untouched; it completes exactly when the whole request is out |
| RequestSender.Sender.SocketWriteRequestParts | libhttp/pico_http_client.c:205-254 | wire and request agree over every pattern of partial writes; success is signalled and the parts freed when and only when the request is out; the count returned is that of the last write |
| RequestSender.Sender.TreatWriteEvent | libhttp/pico_http_client.c:473-491 | which events fire: success exactly on completion, which leaves the client waiting for the header and gives the buffers back, progress exactly when the last write, to the last part reached, took something outside long polling, none without parts |
| RequestSender.SilentProgress | libhttp/pico_http_client.c:473-491 | an event in which bytes are taken and no progress is reported |
| RequestSender.Sender.GetWriteProgress | libhttp/pico_http_client.c:1156-1196 | reports the bytes accepted and the length of the request, modulo 2^32, and fails without parts |
| RequestSender.Sums | libhttp/pico_http_client.c:1181-1188 | the 32-bit sums are those of the counts and of the part lengths |
| RequestSender.AnyWriteEvents | libhttp/pico_http_client.c:473-491 | over any number of write events the wire has a prefix of the request, and success fired once if it is all of it and otherwise not at all; if every write takes at least so many bytes, it is all of it after as many events as that makes necessary |
| RequestSender.SendAll | libhttp/pico_http_client.c:205-254 | the same from the first write of a request on, which counts like an event |
| Multipart.GetContentLength | libhttp/pico_http_client.c:889-932 | the loop's count is the sum that `ReportedLengthExact` measures against the body |
| Multipart.MultipartChunkCreate | libhttp/pico_http_client.c:815-857 | none without data or memory for the chunk; otherwise the length fields are those of the strings and the data, each string is there or was refused memory, and the chunk is whole exactly when no memory was refused |
| Multipart.ReportedLengthExact | libhttp/pico_http_client.c:889-932 | the count never exceeds the body, and equals it exactly when every string sent is below 65536 bytes |
| Multipart.ContentLengthExact | libhttp/pico_http_client.c:1063-1064 | the text of the count fits its array of six bytes and tells the body's length exactly when, besides, the body is below 100000 bytes |
| Multipart.PrintContentLength | libhttp/pico_http_client.c:1054-1064 | the decimal text and its zero are put into the array, and it is known when they would not fit |
| Multipart.SixDigits | libhttp/pico_http_client.c:1054-1064 | a body of 100000 bytes is counted rightly and its text does not fit |
| MultipartReading.FindNext | libhttp/pico_http_client.c:975-1032 | a boundary is found where it was put if the text ahead of it has none |
| MultipartReading.ParameterReads | libhttp/pico_http_client.c:986-997 | a parameter is read as meant exactly when its value has no quote, backslash or line end |
| MultipartReading.HeadersRead | libhttp/pico_http_client.c:979-1008 | the header of a chunk with a disposition consists of the line of the disposition and that of the type, if there is one |
| MultipartReading.WithoutDisposition | libhttp/pico_http_client.c:979-1008 | a chunk without a disposition is never read as meant |
| MultipartReading.PartReads | libhttp/pico_http_client.c:979-1020 | one chunk is read as meant exactly when it satisfies the condition |
| MultipartReading.BodyReadable | libhttp/pico_http_client.c:960-1044 | a reader of RFC 2046 gets from the body the disposition, name, filename, type and data of every chunk sent, in order, exactly when there is one and for each of them the data is below 2^32 bytes and has no line beginning with the boundary, the disposition is a token, name and filename have no quotes, backslashes or line ends, and the type is on one line and begins with no space |
| MultipartRequest.GetMaxMultipartHeaderSize | libhttp/pico_http_client.c:934-952 | the greatest sum of header string lengths, which some chunk reaches and none exceeds |
| MultipartRequest.ShortFits | libhttp/pico_http_client.c:964-968 | where every string is below 65536 bytes the buffer has room for every header, what is pending before it and the zero |
| MultipartRequest.LongString | libhttp/pico_http_client.c:964-968 | with a string of 65536 bytes, which multipart_chunk_create accepts, it has not |
| MultipartRequest.AppendHeader | libhttp/pico_http_client.c:979-1008 | the copies and concatenations build the chunk's header after what was pending, if there is room |
| MultipartRequest.RequestPartCreate | libhttp/pico_http_client.c:127-168 | a new part with nothing done, or none exactly when memory is refused |
| MultipartRequest.AppendChunk | libhttp/pico_http_client.c:1010-1027 | the two parts of a chunk, or the header part alone when there is no memory for the second; the header is copied, and the data left the user's |
| MultipartRequest.FrontConcat | libhttp/pico_http_client.c:975-1032 | the body built so far followed by the body of the remaining chunks is the whole body |
| MultipartRequest.AddMultipartChunks | libhttp/pico_http_client.c:960-1044 | with memory and room in the buffer, and only then, the parts laid end to end are the multipart body; the parts left by a lack of memory are a proper beginning of it; the buffer is overrun exactly if some header does not fit |
| MultipartRequest.BuildPostMultipart | libhttp/pico_http_client.c:1046-1103 | with memory, and room for text and headers, and only then, the parts are the header with the text of the count and the body; a lack of memory leaves a proper beginning of that; they fit their array, and the buffers that will not be given back are exactly the user's data |
| MultipartRequest.RequestTellsLength | libhttp/pico_http_client.c:1086-1092 | where the count is right the header has the length of the body in it |
| MultipartRequest.PostChecked | libhttp/pico_http_client.c:1329-1351 | what is built is sent, and so, at the next write event, is what a lack of memory left; success is then reported without the whole request having gone out, for some socket exactly when anything was left |
| MultipartRequest.SendPostMultipart | libhttp/pico_http_client.c:1291-1352 | refused without chunks or client, busy when the client is not idle, refused for an unknown connection type, and then nothing changes; otherwise a success or an error is returned as the request was built or not, and exactly a whole request that was built goes out whole |
| MultipartRequest.TruncatedPost | libhttp/pico_http_client.c:1291-1352 | a post that runs out of memory, for which an error is returned and then success reported, with the end missing |
| MqttList.PacketList.constructor | pico_mqtt/pico_mqtt_list.c:51-68 | an empty list in a block of its own |
| MqttList.ListCreate | pico_mqtt/pico_mqtt_list.c:51-68 | an empty list, or none exactly when memory is refused |
| MqttList.PacketList.CreateElement | pico_mqtt/pico_mqtt_list.c:160-178 | a new unlinked element for the packet, accounted as allocated, or none exactly when memory is refused |
| MqttList.PacketList.GetElementByIndex | pico_mqtt/pico_mqtt_list.c:186-212 | the i-th element whichever end it walks from, and one earlier from the back when the length is one ahead |
| MqttList.PacketList.ListAdd | pico_mqtt/pico_mqtt_list.c:214-266 | keeps the chain and inserts a new element for the packet, at the index asked for exactly at the end and in the front half and one place before it otherwise; changes nothing exactly when memory is refused |
| MqttList.PacketList.InsertBefore | pico_mqtt/pico_mqtt_list.c:231-262 | the pointer updates insert ahead of the element found, at the front or inside |
| MqttList.PacketList.PushBack | pico_mqtt/pico_mqtt_list.c:70-74 | the packet becomes the last of the list, unless memory is refused |
| MqttList.PacketList.RemoveElement | pico_mqtt/pico_mqtt_list.c:269-291 | the chain without that element, and that element freed |
| MqttList.PacketList.Get | pico_mqtt/pico_mqtt_list.c:76-101 | takes out exactly the last packet with the id and keeps the order of the rest; none exactly if no packet has it |
| MqttList.PacketList.Pop | pico_mqtt/pico_mqtt_list.c:103-128 | takes out the first packet and frees its element; none from an empty list |
| MqttList.PacketList.Destroy | pico_mqtt/pico_mqtt_list.c:137-158 | frees exactly the list, its elements and their packets, and no free goes wrong exactly if the packets were allocated and distinct |
| MqttList.FreedStep | pico_mqtt/pico_mqtt_list.c:137-158 | freeing one more element and its packet goes wrong exactly if that packet was freed before or never allocated |
| MqttPackets.LengthRoundTrip | pico_mqtt/pico_mqtt_serializer.c:196-269 | decoding inverts encoding for every length below 2^28, whatever bytes follow, in one to four bytes |
| MqttPackets.LengthMinimal | pico_mqtt/pico_mqtt_serializer.c:196-269 | encoding an accepted length again is never longer than the form that was read |
| MqttPackets.LengthRejected | pico_mqtt/pico_mqtt_serializer.c:240-269 | decoding fails exactly when four continuation bits come in a row |
| MqttPackets.LengthFieldExact | pico_mqtt/pico_mqtt_serializer.c:196-238 | the length written is the length given exactly below 2^28 |
| MqttPackets.SkipLengthExact | pico_mqtt/pico_mqtt_serializer.c:720-727 | skipping a well-formed length advances by exactly its length |
| MqttPackets.SkipLengthBytes | pico_mqtt/pico_mqtt_serializer.c:720-727 | which bytes are skipped, and that no end is found exactly in fewer than five bytes that all continue |
| MqttPackets.FieldReads | pico_mqtt/pico_mqtt_serializer.c:649-660 | a field shorter than 65536 bytes is read back, with what follows it |
| MqttPackets.FramedReads | pico_mqtt/pico_mqtt_serializer.c:495-516 | the remaining length of a packet is that of the rest exactly below 2^28, and else the packet is unreadable |
| MqttPackets.PublishReadable | pico_mqtt/pico_mqtt_serializer.c:782-850 | the standard's reader gets back everything a PUBLISH can convey exactly when the topic and the rest fit their lengths, the topic is not empty, and there is an id along with a quality of service and no duplicate without one |
| MqttPackets.DeserializeMeetsStandard | pico_mqtt/pico_mqtt_serializer.c:1071-1141 | every PUBLISH the standard admits is deserialized as the standard reads it, save that an empty message is refused |
| MqttPackets.PublishRoundTrip | pico_mqtt/pico_mqtt_serializer.c:1071-1141 | deserializing a serialized PUBLISH gives it back, the id only with a quality of service, exactly when the topic fits its length |
| MqttPackets.PublishOverreadIff | pico_mqtt/pico_mqtt_serializer.c:1071-1141 | the reader leaves the message exactly if it has at most four bytes of length and none ends it, or a single byte where an id should be |
| MqttPackets.EmptyBlockRejected | pico_mqtt/pico_mqtt_serializer.c:1103-1133 | a PUBLISH for which a block of no bytes is allocated is refused |
| MqttPackets.AckRoundTrip | pico_mqtt/pico_mqtt_serializer.c:1143-1186 | the id of every kind of acknowledgement comes back, and the kind does not |
| MqttPackets.AckReadable | pico_mqtt/pico_mqtt_serializer.c:894-930 | the standard reads a serialized PUBACK, PUBREC, PUBREL or PUBCOMP as that with its id, exactly when the id is not zero |
| MqttPackets.ConnackAgainstStandard | pico_mqtt/pico_mqtt_serializer.c:1026-1069 | CONNACKs of the standard with a minimal length are taken as meant; what else is taken has reserved bits set or a session along with a refusal |
| MqttPackets.SubackAgainstStandard | pico_mqtt/pico_mqtt_serializer.c:1188-1236 | SUBACKs of the standard are taken as meant if they have one return code and it is no refusal, and else refused; what else is taken has reserved bits set or an id of zero |
| MqttPackets.AckAgainstStandard | pico_mqtt/pico_mqtt_serializer.c:1143-1186 | acknowledgements of the standard with a minimal length give their id; what else is taken has reserved bits set or an id of zero |
| MqttPackets.PingAgainstStandard | pico_mqtt/pico_mqtt_serializer.c:1318-1360 | pings of the standard with a minimal length are taken, PINGREQ and PINGRESP each for itself, and nothing else is taken for one |
| MqttPackets.FlagsRead | pico_mqtt/pico_mqtt_serializer.c:996-1024 | each bit of the connect flags says what section 3.1.2.3 of MQTT 3.1.1 wants of it |
| MqttPackets.ConnectReadable | pico_mqtt/pico_mqtt_serializer.c:729-778 | the standard's reader, driven by the flags and the lengths, recovers a CONNECT with nothing left over exactly when every field fits, an empty client id comes with a clean session, and a will has a topic and a quality of service of at most 2 |
| MqttPackets.SubscribeReadable | pico_mqtt/pico_mqtt_serializer.c:1238-1274 | the standard reads a serialized SUBSCRIBE as the request it is for exactly when there is a topic that fits its length, the quality of service is at most 2 and the id is not zero |
| MqttPackets.UnsubscribeUnreadable | pico_mqtt/pico_mqtt_serializer.c:1268-1271 | the standard never reads a serialized UNSUBSCRIBE as the one it is for, and not at all if the topic fits its length |
| MqttPackets.UnsubscribeReadableWithout | pico_mqtt/pico_mqtt_serializer.c:1268-1271 | without its last byte, and with the length less by one, it is read as the one it is for, if there are a topic and an id |
| MqttSerializer.PacketReadable | pico_mqtt/pico_mqtt_serializer.c:405-443 | for every type: the standard reads what is serialized as the fields, the options, the topic and the message that were set up, exactly when their texts fit their lengths and the standard allows it, and never as an UNSUBSCRIBE, which is read so without its last byte |
| MqttSerializer.EncodeDigits | pico_mqtt/pico_mqtt_serializer.c:196-238 | the digits that shifting and masking give are those of the encoding, with continuation bits on all but the last |
| MqttSerializer.DigitsOf28Bits | pico_mqtt/pico_mqtt_serializer.c:196-238 | four digits see only the lowest 28 bits |
| MqttSerializer.NextLengthByte | pico_mqtt/pico_mqtt_serializer.c:240-269 | one more byte of the decoding loop adds its digit in its place |
| MqttSerializer.Cursor.AddByte | pico_mqtt/pico_mqtt_serializer.c:555-568 | one byte more is written, inside the stream |
| MqttSerializer.Cursor.AddData | pico_mqtt/pico_mqtt_serializer.c:607-622 | exactly the data is written after what was there |
| MqttSerializer.Cursor.AddField | pico_mqtt/pico_mqtt_serializer.c:649-660 | the data is written with its length, which is cut to 16 bits |
| MqttSerializer.Cursor.SkipLength | pico_mqtt/pico_mqtt_serializer.c:720-727 | advances as the skipping function says, or leaves the stream exactly when that has no value |
| MqttSerializer.Cursor.CopyTo | pico_mqtt/pico_mqtt_serializer.c:632-641 | the next bytes are copied and the rest remains |
| MqttSerializer.Serializer.constructor | pico_mqtt/pico_mqtt_serializer.c:112-131 | a new serializer owns nothing |
| MqttSerializer.SerializerCreate | pico_mqtt/pico_mqtt_serializer.c:112-131 | the same, or none exactly when memory is refused |
| MqttSerializer.Serializer.DestroyStream | pico_mqtt/pico_mqtt_serializer.c:518-531 | exactly an owned stream is freed, and then no longer owned; anyone else's is only let go |
| MqttSerializer.Serializer.Clear | pico_mqtt/pico_mqtt_serializer.c:133-160 | exactly what is owned is freed, and nothing leaks; the packet's fields are reset, and topic and message are left where they were, freed exactly if they were in an owned block or freed before |
| MqttSerializer.Serializer.TotalReset | pico_mqtt/pico_mqtt_serializer.c:162-185 | nothing is freed, and what was owned leaks: nothing exactly when no flag was set |
| MqttSerializer.Serializer.Destroy | pico_mqtt/pico_mqtt_serializer.c:187-194 | the serializer and what it owns are freed and nothing else; what is left of its blocks are those that leaked before |
| MqttSerializer.Serializer.SerializeLength | pico_mqtt/pico_mqtt_serializer.c:196-238 | the buffer holds the encoding of the lowest 28 bits of the length |
| MqttSerializer.Serializer.DeserializeLength | pico_mqtt/pico_mqtt_serializer.c:240-269 | succeeds with its value exactly when decoding does, fails when it fails, and leaves the memory when the length has no end |
| MqttSerializer.Serializer.CreateStream | pico_mqtt/pico_mqtt_serializer.c:495-516 | a new owned block of that length with the cursor at its start, or none exactly when memory is refused; a stream that was owned leaks |
| MqttSerializer.Serializer.SerializePublish | pico_mqtt/pico_mqtt_serializer.c:782-850 | the stream holds exactly the PUBLISH, filled to its end, unless memory is refused, the packet goes beyond 32 bits, or topic or message has been freed; refused without topic or message |
| MqttSerializer.Serializer.SerializeConnect | pico_mqtt/pico_mqtt_serializer.c:729-778 | the stream holds exactly the CONNECT of the options, filled to its end, unless memory is refused or the packet goes beyond 32 bits; refused exactly when the checks fail |
| MqttSerializer.Serializer.ConnectLength | pico_mqtt/pico_mqtt_serializer.c:971-994 | the length computed ahead is that of what gets written |
| MqttSerializer.Serializer.SerializeSubscription | pico_mqtt/pico_mqtt_serializer.c:1238-1274 | the stream holds exactly the SUBSCRIBE or UNSUBSCRIBE, filled to its end, unless memory is refused, the packet goes beyond 32 bits, or the topic has been freed; refused without topic |
| MqttSerializer.Serializer.SerializeAcknowledge | pico_mqtt/pico_mqtt_serializer.c:894-930 | the stream holds exactly the acknowledgement, unless memory is refused |
| MqttSerializer.Serializer.SerializeBare | pico_mqtt/pico_mqtt_serializer.c:1276-1316 | the stream holds exactly the two bytes, unless memory is refused |
| MqttSerializer.Serializer.StartPacket | pico_mqtt/pico_mqtt_serializer.c:495-516 | with lengths added in 32 bits, the stream has room for the packet and begins with its header and remaining length exactly when the packet is below 2^32 bytes, unless memory is refused |
| MqttSerializer.Serializer.Serialize | pico_mqtt/pico_mqtt_serializer.c:405-443 | for every type and state: unless memory is refused the stream holds exactly the packet of that state with the cursor at its end, or the C goes beyond: exactly if the packet does not fit 32 bits or its data has been freed; a state that has no packet changes nothing; nothing leaks exactly if there is no packet or no stream was owned |
| MqttSerializer.Serializer.GetField | pico_mqtt/pico_mqtt_serializer.c:662-706 | a new block with the field's data, or none where the field is malformed, ends the stream, or memory is refused |
| MqttSerializer.Serializer.DeserializePublish | pico_mqtt/pico_mqtt_serializer.c:1071-1141 | unless memory is refused, fields, topic and message are those of the deserialized PUBLISH, in blocks owned once |
| MqttSerializer.Serializer.DeserializeMessage | pico_mqtt/pico_mqtt_serializer.c:1118-1140 | the message in a block of its own, or else an error and the topic freed again |
| MqttSerializer.Serializer.DeserializeConnack | pico_mqtt/pico_mqtt_serializer.c:1026-1069 | accepts exactly four bytes with length 2 and a return code up to 5 |
| MqttSerializer.Serializer.DeserializeAcknowledge | pico_mqtt/pico_mqtt_serializer.c:1143-1186 | accepts exactly four bytes with length 2, gives the id, and reports type 4 whatever the kind |
| MqttSerializer.Serializer.DeserializeSuback | pico_mqtt/pico_mqtt_serializer.c:1188-1236 | accepts exactly five bytes with length 3 and a quality of service up to 2 |
| MqttSerializer.Serializer.DeserializePing | pico_mqtt/pico_mqtt_serializer.c:1318-1360 | accepts exactly the two bytes of a ping |
| MqttSerializer.Serializer.Deserialize | pico_mqtt/pico_mqtt_serializer.c:445-489 | a live message stays live exactly if its block is not one that the serializer owns, and is otherwise read after it was freed; unless memory is refused, the state reports exactly what the message means and the other fields are zero; a block leaks exactly when one of no bytes is allocated; only a PUBLISH with a quality of service of 3 leaves freed data to be serialized |
| MqttSerializer.PublishThrough | pico_mqtt/pico_mqtt_serializer.c:405-489 | if no memory is refused, a PUBLISH below 2^32 bytes of data not freed that one serializer writes and another reads arrives whole, in blocks the reader owns, provided the topic fits its length field |
| MqttSerializer.LeakedExactly | pico_mqtt/pico_mqtt_serializer.c:133-194 | over any run nothing is leaked exactly when no call was of a kind that leaks: a packet serialized over an owned stream, a message for which a block of no bytes is allocated, a total reset with something owned |
| MqttSerializer.AnyCalls | pico_mqtt/pico_mqtt_serializer.c:133-194 | for any sequence of calls on a new serializer, with any messages and packets, up to the first that reads or writes what it must not: every call makes of the serializer what it may and returns what it must; after a final destroy no free has gone wrong and exactly the caller's blocks and the leaked ones are left, of which there are none exactly when no call was of a kind that leaks |
| MqttSerializer.TaintedExactly | pico_mqtt/pico_mqtt_serializer.c:1084-1095 | over any run, freed data would be serialized next exactly if a PUBLISH with a quality of service of 3 has come when there were a topic and a message, one of them freed or the serializer's own, and nothing but serializing has followed; what is owned has not been freed |
| MqttSerializer.FreedTopic | pico_mqtt/pico_mqtt_serializer.c:133-160 | three calls, the last of which copies from a block that the second has freed |
| Websocket.MaskTwice | websocket-bsd/pico_websocket_client.c:393-406 | masking twice is the identity |
| Websocket.MaskChanges | websocket-bsd/pico_websocket_client.c:393-406 | masking leaves data alone exactly when the octets of the key that it meets are zero |
| Websocket.MaskedBit | websocket-bsd/pico_websocket_client.c:393-406 | a bit of an octet is turned round exactly if that bit is set in the octet of the key at its place modulo 4 |
| Websocket.MaskedIsTransformed | websocket-bsd/pico_websocket_client.c:393-406 | the masking is the transformation of section 5.3 of RFC 6455 |
| Websocket.MaskData | websocket-bsd/pico_websocket_client.c:393-406 | the first bytes of the array are masked in place and the rest stay |
| Websocket.HeaderReads | websocket-bsd/pico_websocket_client.c:72-81 | the bit fields lie in the two octets where section 5.2 of RFC 6455 has them |
| Websocket.FrameRoundTrip | websocket-bsd/pico_websocket_client.c:889-939 | the reader of sections 5.2 and 5.3 recovers the lowest bits of the user's RSV octets, opcode, key and payload of every frame of up to 65535 bytes, in the minimal length form, and leaves what follows |
| Websocket.Parts.AcceptedExact | websocket-bsd/pico_websocket_client.c:927-938 | the frame is on the wire exactly when each of its writes was taken in full |
| Websocket.Client.WriteRsv | websocket-bsd/pico_websocket_client.c:889-939 | what reaches the wire is the accepted part of each write of the frame, in order; refused only when too long, not connected or after a failed write; the payload count is returned and the data left masked |
| Websocket.PongExact | websocket-bsd/pico_websocket_client.c:593-605 | a pong is one whole frame with the given payload exactly when the ping's header has no extended length and the payload was not cut short |
| Websocket.Client.SendPong | websocket-bsd/pico_websocket_client.c:593-605 | the masked payload follows the ping's header and a key, and the user's data ends as it began whatever the socket took |
| Fortuna.NextValue | libfortuna/pico_rand_types.c:13-28 | carrying octet by octet adds one, modulo 2^128 for sixteen octets |
| Fortuna.NextAt | libfortuna/pico_rand_types.c:13-28 | the carry begins at octet 0, runs over the octets that are full and stops at the next |
| Fortuna.UsedExactly | libfortuna/pico_rand.c:60-84 | the pools used, each once and in order, are every eighth, and those after it whose bits in the lowest octet of the counter are set |
| Fortuna.OctetsOfValue | libfortuna/pico_rand_types.c:13-28 | different counters have different values |
| Fortuna.Counter.constructor | libfortuna/pico_rand_types.c:3-11 | sixteen octets of zero |
| Fortuna.Counter.Increment | libfortuna/pico_rand_types.c:13-28 | the carry loop with its early return leaves the successor |
| Fortuna.Counter.IsZero | libfortuna/pico_rand_types.c:30-43 | says whether the counter denotes zero |
| Fortuna.Generator.GenerateBlock | libfortuna/pico_rand.c:115-140 | writes the encrypted counter and increments it, exactly when seeded and with room for a block; otherwise changes nothing |
| Fortuna.CollectedFrom | libfortuna/pico_rand.c:60-84 | the bytes collected are the digests of the pools used, in order |
| Fortuna.SeedIs | libfortuna/pico_rand.c:60-112 | how many pools are used, and what is left of their digests when the size is cut to eight bits: nothing when an odd number of the counter's lowest seven bits is set, and else the digests of the first four pools used |
| Fortuna.Generator.ExtractSeed | libfortuna/pico_rand.c:60-84 | the loop puts the digests of the pools used into the buffer and returns their size |
| Fortuna.Generator.Reseed | libfortuna/pico_rand.c:87-112 | the new key is the hash of the old one and the seed, and the counter goes one on; without memory nothing changes |
| Fortuna.Generator.NeverRepeats | libfortuna/pico_rand.c:115-140 | over the generator's life, up to 2^128 increments, no two blocks encrypt the same counter |
| Fortuna.RequestIsKeystream | libfortuna/pico_rand.c:142-204 | from a seeded counter that does not wrap, a request yields the first bytes of E(key, c), E(key, c + 1), ... |
| Fortuna.KeystreamByte | libfortuna/pico_rand.c:170-173 | byte k of the key stream is byte k mod 16 of the encryption of counter c + k / 16 |
| Fortuna.UnseededOutput | libfortuna/pico_rand.c:142-204 | from an unseeded generator whole blocks stay as they were and the last part block is zeros |
| Fortuna.Generator.ServedIsKeystream | libfortuna/pico_rand.c:142-204 | a request of pico_rand_bytes from a seeded counter that does not wrap writes exactly the key stream's first bytes, and the counter advances by the number of blocks, rounded up |
| Fortuna.FullBlocksStep | libfortuna/pico_rand.c:170-173 | one more block is the next of the key stream, or nothing once the counter is zero |
| Fortuna.Generator.RandBytes | libfortuna/pico_rand.c:142-204 | exactly the requested bytes are written and no others, the counter advances by the number of blocks produced, the key is made anew exactly when one is due and there is memory for it, and success is returned exactly for a good size and with memory for the pools and for a last block |

## Left out

- Sockets, name resolution, TLS, timers, trees, demos and the HTTPS server, which repeats the HTTP server over TLS.
- Request and header parsing on both sides: what the server's parser concludes and the texts of headers are inputs. Long polling beyond its effect on write events, and URIs.
- Client bodies with a Content-Length instead of chunks, and percent-decoding.
- Negative socket results in HTTP and callbacks that call back into the library.
- HttpServer.Connection.EndChunk: freeing the copy of the data is not accounted for.
- MultipartReading.BodyReadable: the reader takes no folded header lines and no padding after a boundary, neither of which is sent.
- HttpServer.Connection.SubmitData: for static data the user's buffer is taken not to change while it is in flight; closing a connection from the outside is not modelled.
- HttpClientBody.HttpClient.StartReadingBody: what a previous body left on the socket is not followed into the next response.
- RequestSender.Sender.DestroyParts: lists the buffers given back; the part objects and the array of them are not accounted for.
- MultipartRequest.AddMultipartChunks: what the C does once it has written past the end of an array is not modelled; the model stops there. The array that holds the parts is a sequence here.
- MultipartRequest.SendPostMultipart: the header's text is any function of the text of the count; changing the resource of a client, and what the C does after it has failed, are left out.
- MqttList.PacketList.ListAdd: the 32-bit wrap of the length is not modelled, and printing the list is left out.
- MqttSerializer.Serializer.Serialize: what the C does once it has written past the end of a stream is not modelled.
- MqttSerializer.AnyCalls: the functions that set options are not modelled; the caller's setting up a packet stands for them, options and fields at any time, topic and message unless the serializer owns one.
- MqttSerializer.Serializer.SerializeConnect: data of the options is taken not to lie in a block that the serializer frees.
- MqttSerializer.Serializer.GetField: what is left of a message of 2^31 bytes or more, which the C takes for a negative number, is not cut to 32 bits.
- The fields of the serializer are grouped into two records, and the stream index is a cursor object with the stream's length as its limit.
- pico_mqtt.c, pico_mqtt_stream.c, pico_mqtt_socket.c and the old serializer, which call functions that are not defined in the repository.
- libwebsocket, and reading frames in websocket-bsd: handshake, extended lengths and continuation are not consistent enough to state a property.
- Websocket.Client.WriteRsv: the null check on the socket, and negative sizes, which the C does not refuse, have no counterpart.
- Fortuna.Generator.Reseed: the pools are given by their digests, and a request is told whether a reseed is due; adding entropy and the clock are not modelled. Persistent seeds and shutdown are left out.
- Fortuna.Generator.RandBytes: the comment in the C promises a limit of 1 MiB; the code's limit is 2 MiB and the model follows it.
